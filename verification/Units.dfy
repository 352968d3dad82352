/** Splicing a model's callback body into the regenerated file, and what that changes. */
module Units {
  import opened Sequences
  import opened Wrappers
  import opened PyText
  import opened BodyText
  import opened VoidCalls
  import opened VoidProofs
  import opened ActionText
  import opened Generator
  import opened Validators
  import opened ValidatorProofs
  import opened ChecksAgree
  import opened RenderedChecks

  /** Where the body lines of a definition of `cid` that starts on the first line begin and end. */
  function CallbackAt(lines: Lines, cid: string): (range: Option<(nat, nat)>)
    ensures range.Some? ==> range.value.0 <= range.value.1 < |lines|
  {
    if lines == [] || !(DefLine(cid) <= lines[0]) then None
    else
      var after := lines[0][|DefLine(cid)|..];
      var p := 1 + BlankRun(lines[1..]);
      if Spaces(after) < |after| || p + 2 >= |lines| || !IsParams(lines[p]) || lines[p + 1] != "{" then None
      else
        var k := p + 3 + FirstBrace(lines[p + 3..]);
        if k >= |lines| then None else Some((p + 2, k))
  }

  /** The first definition of `cid` in a file. */
  function Find(lines: Lines, cid: string): (range: Option<(nat, nat)>)
    ensures range.Some? ==> range.value.0 <= range.value.1 < |lines|
  {
    if lines == [] then None
    else
      var here := CallbackAt(lines, cid);
      if here.Some? then here
      else
        var later := Find(lines[1..], cid);
        if later.Some? then Some((later.value.0 + 1, later.value.1 + 1)) else None
  }

  datatype Applied = NotLocated | Unchanged | Written(lines: Lines)

  /** apply_body: the regenerated file with one body replaced; it is written only if that makes a difference. */
  method ApplyBody(frame: Frame, entries: seq<Entry>, cid: string, body: string,
                   wide: char -> bool) returns (r: Applied)
    ensures r == Apply(Source(frame, entries, wide), cid, body, wide)
  {
    var source := RenderSource(frame, entries, wide);
    var range := Find(source, cid);
    if range.None? {
      return NotLocated;
    }
    var text := NormalizeBody(Rewrite(body, wide));
    var updated := source[..range.value.0] + NlSplit(text) + source[range.value.1..];
    return if updated == source then Unchanged else Written(updated);
  }

  function Apply(source: Lines, cid: string, body: string, wide: char -> bool): Applied {
    var range := Find(source, cid);
    if range.None? then NotLocated
    else
      var updated := source[..range.value.0] + NlSplit(Normalize(Rewrite(body, wide))) + source[range.value.1..];
      if updated == source then Unchanged else Written(updated)
  }

  /** run_unit's verdict on a reply: the body is the oracle's up to the rewrite and trailing space. */
  predicate Accepted(e: Entry, body: string, wide: char -> bool) {
    Normalize(body) == Normalize(Rewrite(e.body, wide))
  }

  /** Something is left of the body, and no line after its first is a lone closing brace. */
  predicate Splices(e: Entry, wide: char -> bool) {
    var lines := NlSplit(Rewrite(e.body, wide));
    Strip(Rewrite(e.body, wide)) != "" && FirstBrace(lines[1..]) == |lines| - 1
  }

  lemma RendersSplices(e: Entry, wide: char -> bool)
    requires Renders(e, wide)
    ensures Splices(e, wide)
  {
  }

  // ---- finding the definition

  lemma OtherLine(line: string, cid: string, wide: char -> bool)
    requires IsCid(cid, wide) && DefLine(cid) <= line
    ensures DefName(line, wide) == Some(cid)
  {
    var after := line[|DefLine(cid)|..];
    DefLineThen(cid, after);
    assert line == DefLine(cid) + after;
    NamedIs(DEF_PREFIX, cid, DEF_SUFFIX, after, wide);
  }

  lemma DefLineThen(cid: string, after: string)
    ensures DefLine(cid) + after == DEF_PREFIX + (cid + (DEF_SUFFIX + after))
  {
    Regroup(DEF_PREFIX, cid, DEF_SUFFIX, after);
  }

  lemma Regroup(a: string, b: string, c: string, d: string)
    ensures (a + (b + (c + ""))) + d == a + (b + (c + d))
  {
    assert c + "" == c;
  }

  lemma NotDefined(line: string, cid: string, wide: char -> bool)
    requires IsCid(cid, wide) && DefName(line, wide) != Some(cid)
    ensures !(DefLine(cid) <= line)
  {
    if DefLine(cid) <= line {
      OtherLine(line, cid, wide);
    }
  }

  lemma FindSkip(line: string, rest: Lines, cid: string)
    requires !(DefLine(cid) <= line)
    ensures Find([line] + rest, cid) == Shifted(Find(rest, cid), 1)
  {
    NotHere([line] + rest, cid);
    FindLater([line] + rest, cid);
    assert ([line] + rest)[1..] == rest;
  }

  lemma NotHere(lines: Lines, cid: string)
    requires lines != [] && !(DefLine(cid) <= lines[0])
    ensures CallbackAt(lines, cid).None?
  {
  }

  lemma FindLater(lines: Lines, cid: string)
    requires lines != [] && CallbackAt(lines, cid).None?
    ensures Find(lines, cid) == Shifted(Find(lines[1..], cid), 1)
  {
  }

  function Shifted(range: Option<(nat, nat)>, n: nat): Option<(nat, nat)> {
    if range.None? then None else Some((range.value.0 + n, range.value.1 + n))
  }

  lemma ShiftAgain(range: Option<(nat, nat)>, n: nat)
    ensures Shifted(Shifted(range, n), 1) == Shifted(range, n + 1)
  {
  }

  lemma FrontLine(q: Lines, rest: Lines)
    requires q != []
    ensures q + rest == [q[0]] + (q[1..] + rest)
  {
  }

  lemma {:induction false} FindAfter(q: Lines, rest: Lines, cid: string, wide: char -> bool)
    requires IsCid(cid, wide) && forall i :: 0 <= i < |q| ==> DefName(q[i], wide) != Some(cid)
    ensures Find(q + rest, cid) == Shifted(Find(rest, cid), |q|)
  {
    if q == [] {
      assert q + rest == rest;
    } else {
      FindAfter(q[1..], rest, cid, wide);
      NotDefined(q[0], cid, wide);
      FindSkip(q[0], q[1..] + rest, cid);
      FrontLine(q, rest);
      ShiftAgain(Find(rest, cid), |q| - 1);
    }
  }

  lemma CoreTail(b: Block, rest: Lines)
    requires b.body != []
    ensures (Core(b) + rest)[4..] == b.body[1..] + (["}"] + rest)
  {
  }

  lemma CoreFound(b: Block, rest: Lines, wide: char -> bool)
    requires WfBlock(b, wide) && b.body != []
    ensures Find(Core(b) + rest, b.cid) == Some((3, 4 + FirstBrace(b.body[1..])))
  {
    var lines := Core(b) + rest;
    CoreShape(b, rest);
    ParamsLine(b.pad);
    CoreTail(b, rest);
    FirstBraceOf(b.body[1..], rest);
    assert DefLine(b.cid) <= lines[0] && lines[0][|DefLine(b.cid)|..] == "";
  }

  // ---- what a splice does

  /** A file around one definition's body. */
  lemma ReplaceBody(before: Lines, b: Block, rest: Lines, k: nat, lines: Lines)
    requires k <= |b.body|
    ensures var file := before + (Core(b) + rest);
      var s, t := |before| + 3, |before| + 3 + k;
      file[..s] + lines + file[t..] == file <==> lines == b.body[..k]
  {
    var file := before + (Core(b) + rest);
    var s, t := |before| + 3, |before| + 3 + k;
    CoreShape(b, rest);
    assert file[s..] == b.body + (["}"] + rest);
    assert file[s..t] == b.body[..k] && file == file[..s] + file[s..t] + file[t..];
    if file[..s] + lines + file[t..] == file {
      assert |lines| == k;
      assert (file[..s] + lines + file[t..])[s..t] == lines;
    }
  }

  lemma BlankBody(e: Entry, wide: char -> bool)
    requires Normalize(e.body) == e.body && Strip(Rewrite(e.body, wide)) == ""
    ensures Rewrite(e.body, wide) == ""
  {
    RewriteStaysNormal(e.body, wide);
    NormalizeBlank(Rewrite(e.body, wide));
  }

  /** An accepted reply changes the regenerated file exactly when the entry does not splice. */
  lemma SpliceExactly(before: Lines, e: Entry, b: Block, rest: Lines, body: string, wide: char -> bool)
    requires WfBlock(b, wide) && b.cid == e.cid && b.body == NlSplit(ShownBody(e, wide))
    requires Normalize(e.body) == e.body && Accepted(e, body, wide)
    requires forall i :: 0 <= i < |before| ==> DefName(before[i], wide) != Some(e.cid)
    ensures var r := Apply(before + (Core(b) + rest), e.cid, body, wide);
      r != NotLocated && (r == Unchanged <==> Splices(e, wide))
  {
    var k := 1 + FirstBrace(b.body[1..]);
    var lines := NlSplit(Rewrite(e.body, wide));
    FindAfter(before, Core(b) + rest, e.cid, wide);
    CoreFound(b, rest, wide);
    AcceptedBody(e.body, body, wide);
    ReplaceBody(before, b, rest, k, lines);
    SameSplice(e, b.body, wide);
  }

  /** What is put in place of a body is what stood there, exactly when the entry splices. */
  lemma SameSplice(e: Entry, body: Lines, wide: char -> bool)
    requires body == NlSplit(ShownBody(e, wide)) && Normalize(e.body) == e.body
    ensures NlSplit(Rewrite(e.body, wide)) == body[..1 + FirstBrace(body[1..])] <==> Splices(e, wide)
  {
    var k := 1 + FirstBrace(body[1..]);
    var lines := NlSplit(Rewrite(e.body, wide));
    if Strip(Rewrite(e.body, wide)) == "" {
      BlankBody(e, wide);
      NoOpText();
      SplitOne(NO_OP);
      assert lines == [""] && body[0] == NO_OP && body[..k][0] == NO_OP;
    } else {
      assert k == |lines| ==> body[..k] == lines;
    }
  }

  // ---- in the rendered file

  /** What stands before the i-th definition of a rendered file. */
  function Before(frame: Frame, entries: seq<Entry>, i: nat, wide: char -> bool): Lines
    requires i < |entries|
  {
    var blocks := Rendered(entries, wide);
    FrontLines(frame, entries) + (Flatten(blocks[..i]) + blocks[i].pre)
  }

  /** No line before an entry's own definition starts one of that name. */
  ghost predicate FirstOfName(frame: Frame, entries: seq<Entry>, i: nat, wide: char -> bool)
    requires i < |entries|
  {
    forall k :: 0 <= k < |Before(frame, entries, i, wide)| ==>
      DefName(Before(frame, entries, i, wide)[k], wide) != Some(entries[i].cid)
  }

  lemma SourceSplit(frame: Frame, entries: seq<Entry>, i: nat, wide: char -> bool) returns (rest: Lines)
    requires i < |entries|
    ensures Source(frame, entries, wide) == Before(frame, entries, i, wide) + (Core(Rendered(entries, wide)[i]) + rest)
  {
    var blocks, front := Rendered(entries, wide), FrontLines(frame, entries);
    var a, b := Flatten(blocks[..i]), blocks[i];
    rest := Flatten(blocks[i + 1..]);
    FlattenSplit(blocks, i);
    Associative(a, b.pre, Core(b) + rest);
    Associative(front, a + b.pre, Core(b) + rest);
  }

  /** apply_body on an accepted reply leaves the rendered file alone exactly when the entry splices; in
      particular whenever its body renders. */
  lemma ApplyExactly(frame: Frame, entries: seq<Entry>, i: nat, body: string, wide: char -> bool)
    requires i < |entries| && IsCid(entries[i].cid, wide) && Normalize(entries[i].body) == entries[i].body
    requires FirstOfName(frame, entries, i, wide) && Accepted(entries[i], body, wide)
    ensures var r := Apply(Source(frame, entries, wide), entries[i].cid, body, wide);
      r != NotLocated && (r == Unchanged <==> Splices(entries[i], wide))
    ensures Renders(entries[i], wide) ==> Apply(Source(frame, entries, wide), entries[i].cid, body, wide) == Unchanged
  {
    var rest := SourceSplit(frame, entries, i, wide);
    RenderedAt(entries, i, wide);
    SpliceExactly(Before(frame, entries, i, wide), entries[i], Rendered(entries, wide)[i], rest, body, wide);
    RendersIfNeeded(entries[i], wide);
  }

  /** The definitions before the i-th one do not start one of its name. */
  lemma EarlierOthers(entries: seq<Entry>, i: nat, wide: char -> bool)
    requires WfEntries(entries, wide) && i < |entries|
    requires Unnamed(FreeOf(Rendered(entries, wide)), ToSet(Cids(entries)), wide)
    ensures Unnamed(Flatten(Rendered(entries, wide)[..i]) + Rendered(entries, wide)[i].pre, {entries[i].cid}, wide)
  {
    var blocks, cids, cid := Rendered(entries, wide), ToSet(Cids(entries)), entries[i].cid;
    assert Cids(entries)[i] == cid;
    RenderedShows(entries, wide);
    FreeParts(blocks, i, cids, wide);
    forall k | 0 <= k < i
      ensures blocks[..i][k].cid != cid
    {
      RenderedAt(entries, k, wide);
    }
    OthersUnnamed(blocks[..i], cids, cid, wide);
    FewerNames(blocks[i].pre, cids, cid, wide);
    UnnamedAppend(Flatten(blocks[..i]), blocks[i].pre, {cid}, wide);
  }

  lemma UnnamedFirst(frame: Frame, entries: seq<Entry>, i: nat, wide: char -> bool)
    requires i < |entries| && Unnamed(Before(frame, entries, i, wide), {entries[i].cid}, wide)
    ensures FirstOfName(frame, entries, i, wide)
  {
    var before := Before(frame, entries, i, wide);
    forall k | 0 <= k < |before|
      ensures DefName(before[k], wide) != Some(entries[i].cid)
    {
      UnnamedAt(before, {entries[i].cid}, k, wide);
    }
  }

  /** In particular when the free text names no callback of the inventory. */
  lemma FreeFirst(frame: Frame, entries: seq<Entry>, i: nat, wide: char -> bool)
    requires WfEntries(entries, wide) && i < |entries|
    requires Unnamed(FreeText(frame, entries, Rendered(entries, wide), []), ToSet(Cids(entries)), wide)
    ensures FirstOfName(frame, entries, i, wide)
  {
    var blocks, cids := Rendered(entries, wide), ToSet(Cids(entries));
    var front, cid := FrontLines(frame, entries), entries[i].cid;
    assert Cids(entries)[i] == cid;
    MixedUnnamed(frame, entries, blocks, [], cids, wide);
    EarlierOthers(entries, i, wide);
    FewerNames(front, cids, cid, wide);
    UnnamedAppend(front, Flatten(blocks[..i]) + blocks[i].pre, {cid}, wide);
    UnnamedFirst(frame, entries, i, wide);
  }

  lemma RendersIfNeeded(e: Entry, wide: char -> bool)
    ensures Renders(e, wide) ==> Splices(e, wide)
  {
    if Renders(e, wide) {
      RendersSplices(e, wide);
    }
  }
}
