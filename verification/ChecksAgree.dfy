/** Which bodies the checks read back from a file, whatever other definitions the file also holds. */
module ChecksAgree {
  import opened Sequences
  import opened Wrappers
  import opened PyText
  import opened BodyText
  import opened GapText
  import opened VoidCalls
  import opened VoidProofs
  import opened SolidText
  import opened ActionText
  import opened Generator
  import opened Validators
  import opened ValidatorProofs
  import opened GeneratorProofs

  // ---- normalising, once more

  lemma {:induction false} InnerShort(gap: string)
    ensures |Inner(gap)| <= |gap| && |Outer(gap)| <= |gap|
    decreases |gap|
  {
    var b := FindBreak(gap);
    if b < |gap| {
      InnerShort(gap[BreakEnd(gap, b)..]);
    }
  }

  lemma {:induction false} NormalShort(g: Gapped)
    ensures |Text(Normal(g))| <= |Text(g)|
  {
    if g.Tok? {
      InnerShort(g.gap);
      NormalShort(g.rest);
    }
  }

  lemma NormalizeShort(t: string)
    ensures |Normalize(t)| <= |t|
  {
    var gap, g := Decompose(t);
    NormalizeGaps(gap, g);
    InnerShort(gap);
    NormalShort(g);
  }

  lemma OuterBreak(line: string, brk: string, rest: string)
    requires NoBreak(line) && IsBrk(brk, rest)
    ensures Outer(line + (brk + rest)) == Outer(rest)
  {
    CutAt(line, brk, rest);
  }

  lemma NormalizeNewline(t: string)
    ensures Normalize("\n" + t) == Normalize(t)
  {
    var gap, g := Decompose(t);
    NormalizeGaps(gap, g);
    OuterBreak("", "\n", gap);
    assert "" + ("\n" + gap) == "\n" + gap;
    Associative("\n", gap, Text(g));
    NormalizeGaps("\n" + gap, g);
  }

  lemma {:induction false} RstripKeeps(t: string)
    requires t != "" && !IsSpace(t[0])
    ensures Rstrip(t) != ""
  {
    if IsSpace(t[|t| - 1]) {
      RstripKeeps(t[..|t| - 1]);
    }
  }

  lemma NormalizeBlank(t: string)
    ensures Normalize(t) == "" <==> Strip(t) == ""
  {
    var gap, g := Decompose(t);
    NormalizeGaps(gap, g);
    SkipToks(gap, g);
    if g.Tok? {
      NormalEnds(g);
      TextCons(g);
      RstripKeeps(Text(g));
    } else {
      assert Rstrip("") == "";
    }
  }

  // ---- reading a body back

  /** Something is left of the body, and none of its lines is a lone closing brace. */
  predicate Renders(e: Entry, wide: char -> bool) {
    Strip(Rewrite(e.body, wide)) != "" && FirstBrace(NlSplit(Rewrite(e.body, wide))) == |NlSplit(Rewrite(e.body, wide))|
  }

  lemma JoinCons(lines: Lines)
    requires lines != []
    ensures Join([""] + lines) == "\n" + Join(lines)
  {
    assert ([""] + lines)[1..] == lines;
  }

  /** Text up to a line is shorter than the whole. */
  lemma {:induction false} JoinShorter(lines: Lines, k: nat)
    requires k < |lines|
    ensures k > 0 ==> |Join(lines[..k])| < |Join(lines)|
  {
    if k > 0 {
      if k == 1 {
        assert lines[..k] == [lines[0]];
      } else {
        JoinShorter(lines[1..], k - 1);
        assert lines[..k][1..] == lines[1..][..k - 1];
      }
    }
  }

  lemma CapturedNormal(lines: Lines)
    requires lines != []
    ensures Normalize(Captured(lines)) == Normalize(Join(lines[..FirstBrace(lines)]))
  {
    var front := lines[..FirstBrace(lines)];
    if front == [] {
      assert [""] + front == [""];
    } else {
      JoinCons(front);
      NormalizeNewline(Join(front));
    }
  }

  lemma NoOpText()
    ensures '\n' !in NO_OP && NO_OP != "}" && |NO_OP| > 2 && !IsSpace(NO_OP[2])
  {
  }

  lemma StripKeeps(t: string, i: nat)
    requires i < |t| && !IsSpace(t[i])
    ensures Strip(t) != ""
  {
    var n := Spaces(t);
    assert forall k :: 0 <= k < n ==> t[k] == t[..n][k];
    RstripKeeps(t[n..]);
  }

  lemma NoOpShown()
    ensures Normalize(NO_OP) != "" && FirstBrace(NlSplit(NO_OP)) == |NlSplit(NO_OP)|
  {
    NoOpText();
    StripKeeps(NO_OP, 2);
    NormalizeBlank(NO_OP);
    SplitOne(NO_OP);
  }

  lemma {:induction false} SplitOne(t: string)
    requires '\n' !in t
    ensures NlSplit(t) == [t]
  {
    if t != "" {
      assert t[0] in t && t == [t[0]] + t[1..];
      SplitOne(t[1..]);
    }
  }

  /** A rendered body reads back as the expected one exactly when it renders. */
  lemma BodyCheck(e: Entry, wide: char -> bool)
    requires Normalize(e.body) == e.body
    ensures Normalize(Captured(NlSplit(ShownBody(e, wide)))) == Normalize(Rewrite(e.body, wide)) <==> Renders(e, wide)
  {
    var body := Rewrite(e.body, wide);
    var lines := NlSplit(ShownBody(e, wide));
    CapturedNormal(lines);
    NormalizeBlank(body);
    JoinSplit(ShownBody(e, wide));
    if Strip(body) == "" {
      NoOpShown();
      assert lines[..|lines|] == lines;
    } else {
      RewriteStaysNormal(e.body, wide);
      var k := FirstBrace(lines);
      if k == |lines| {
        assert lines[..k] == lines;
      } else {
        NormalizeShort(Join(lines[..k]));
        JoinShorter(lines, k);
      }
    }
  }

  // ---- definitions are told apart by their names

  lemma {:induction false} WordRunWords(t: string, wide: char -> bool)
    ensures forall i :: 0 <= i < WordRun(t, wide) ==> IsWord(t[i], wide)
  {
    if WordRun(t, wide) > 0 {
      WordRunWords(t[1..], wide);
      assert forall i :: 1 <= i < WordRun(t, wide) ==> t[i] == t[1..][i - 1];
    }
  }

  lemma DefParts(line: string, wide: char -> bool) returns (more: string)
    requires DefName(line, wide).Some?
    ensures var cid := DefName(line, wide).value;
      IsCid(cid, wide) && line == DEF_PREFIX + (cid + (DEF_SUFFIX + more))
  {
    var t := line[|DEF_PREFIX|..];
    var n := WordRun(t, wide);
    WordRunWords(t, wide);
    more := t[n..][|DEF_SUFFIX|..];
    assert t[n..] == DEF_SUFFIX + more && t == t[..n] + t[n..];
  }

  lemma SolidSuffix(more: string) returns (w: string)
    ensures Solid(DEF_SUFFIX + more) == "(" + w
  {
    var t := DEF_SUFFIX + more;
    assert t[0] == ' ' && t[1] == t[1..][0] == '(';
    w := Solid(t[1..][1..]);
  }

  /** A definition and more text without its spaces: the prefix, the name, a parenthesis. */
  lemma SolidNamed(prefix: string, cid: string, more: string, after: string, wide: char -> bool) returns (w: string)
    requires IsCid(cid, wide)
    ensures Solid(prefix + (cid + (DEF_SUFFIX + more))) + after == Solid(prefix) + (cid + ("(" + w))
  {
    var v := SolidSuffix(more);
    SolidAppend(prefix, cid + (DEF_SUFFIX + more));
    SolidAppend(cid, DEF_SUFFIX + more);
    SolidKeeps(cid);
    Push(Solid(prefix), cid, "(", v, after);
    w := v + after;
  }

  lemma Push(a: string, b: string, c: string, d: string, e: string)
    ensures (a + (b + (c + d))) + e == a + (b + (c + (d + e)))
  {
  }

  lemma SameNameAfter(prefix: string, a: string, m: string, u: string, b: string, n: string, v: string,
                      wide: char -> bool)
    requires IsCid(a, wide) && IsCid(b, wide)
    requires Solid(prefix + (a + (DEF_SUFFIX + m))) + u == Solid(prefix + (b + (DEF_SUFFIX + n))) + v
    ensures a == b
  {
    var x := SolidNamed(prefix, a, m, u, wide);
    var y := SolidNamed(prefix, b, n, v, wide);
    CancelFront(Solid(prefix), a + ("(" + x), b + ("(" + y));
    NamesTie(a, x, b, y, wide);
  }

  lemma SameName(l: string, u: string, d: string, v: string, wide: char -> bool)
    requires DefName(l, wide).Some? && DefName(d, wide).Some? && Solid(l) + u == Solid(d) + v
    ensures DefName(l, wide) == DefName(d, wide)
  {
    var m := DefParts(l, wide);
    var n := DefParts(d, wide);
    SameNameAfter(DEF_PREFIX, DefName(l, wide).value, m, u, DefName(d, wide).value, n, v, wide);
  }

  lemma NamesTie(a: string, x: string, b: string, y: string, wide: char -> bool)
    requires IsCid(a, wide) && IsCid(b, wide) && a + ("(" + x) == b + ("(" + y)
    ensures a == b
  {
    assert !IsWord('(', wide);
    WordRunCid(a, "(" + x, wide);
    WordRunCid(b, "(" + y, wide);
  }

  lemma CancelFront(a: string, b: string, c: string)
    requires a + b == a + c
    ensures b == c
  {
    assert b == (a + b)[|a|..] && c == (a + c)[|a|..];
  }

  /** A body cut at a line that starts a definition, and joined to another one, is a different text. */
  lemma CutDiffers(q: Lines, l: string, r: Lines, d: string, y: Lines, wide: char -> bool)
    requires DefName(l, wide).Some? && DefName(d, wide).Some?
    requires Normalize(Join([""] + (q + ([d] + y)))) == Normalize(Join(q + ([l] + r)))
    ensures DefName(l, wide) == DefName(d, wide)
  {
    SolidOf([""] + (q + ([d] + y)));
    SolidOf(q + ([l] + r));
    SolidLinesAppend([""], q + ([d] + y));
    assert SolidLines([""]) == "" by {
      assert [""][1..] == [];
    }
    SolidSplit(q, d, y);
    SolidSplit(q, l, r);
    CancelFront(SolidLines(q), Solid(d) + SolidLines(y), Solid(l) + SolidLines(r));
    SameName(l, SolidLines(r), d, SolidLines(y), wide);
  }

  lemma SolidOf(lines: Lines)
    ensures Solid(Normalize(Join(lines))) == SolidLines(lines)
  {
    SolidNormalize(Join(lines));
    SolidJoin(lines);
  }

  lemma SolidSplit(q: Lines, l: string, r: Lines)
    ensures SolidLines(q + ([l] + r)) == SolidLines(q) + (Solid(l) + SolidLines(r))
  {
    SolidLinesAppend(q, [l] + r);
    assert ([l] + r)[1..] == r;
  }

  // ---- one of our bodies, whatever it holds

  /** The rendered body can be read back: it renders, and none of its lines starts a definition. */
  ghost predicate Reads(e: Entry, wide: char -> bool) {
    Renders(e, wide) && Quiet(NlSplit(ShownBody(e, wide)), wide)
  }

  lemma QuietText(b: Block, e: Entry, rest: Lines, cids: set<string>, wide: char -> bool)
    requires WfBlock(b, wide) && b.cid in cids && b.body == NlSplit(ShownBody(e, wide)) && Quiet(b.body, wide)
    requires Normalize(e.body) == e.body
    ensures var at := HereText(Kept(b, rest, cids, wide), wide);
      at.Some? && Normalize(at.value) == Normalize(Rewrite(e.body, wide)) ==> Renders(e, wide)
  {
    var kept := StripExtra(rest, Some(b.cid), cids, wide);
    AfterQuiet(b, wide);
    StripQuiet(After(b), rest, Some(b.cid), cids, wide);
    Associative([DefLine(b.cid)], After(b), kept);
    CoreBody(b, kept, wide);
    BodyCheck(e, wide);
  }

  lemma NoOpQuiet(wide: char -> bool)
    ensures Quiet(NlSplit(NO_OP), wide)
  {
    NoOpText();
    SplitOne(NO_OP);
    QuietLine(NO_OP, wide);
  }

  lemma ShownRewritten(e: Entry, wide: char -> bool)
    requires !Quiet(NlSplit(ShownBody(e, wide)), wide)
    ensures Join(NlSplit(ShownBody(e, wide))) == Rewrite(e.body, wide)
  {
    NoOpQuiet(wide);
    JoinSplit(ShownBody(e, wide));
  }

  lemma CutTextDiffers(b: Block, e: Entry, q: Lines, l: string, r: Lines, k: Lines, text: string, cids: set<string>,
                       wide: char -> bool)
    requires b.body == NlSplit(ShownBody(e, wide)) == q + ([l] + r) && Normalize(e.body) == e.body
    requires DefName(l, wide).Some? && DefName(l, wide).value !in cids
    requires k != [] ==> DefName(k[0], wide).Some? && DefName(k[0], wide).value in cids
    requires TextUpTo(q + k) == Some(text)
    ensures Normalize(text) != Normalize(Rewrite(e.body, wide))
  {
    if k != [] && k[0] == "}" {
      QuietLine("}", wide);
      assert false;
    }
    var y := CutText(q, k);
    if Normalize(text) == Normalize(Rewrite(e.body, wide)) {
      if FirstBrace(q) < |q| {
        FirstBraceIn(q, [l] + r);
        assert b.body[..FirstBrace(q)] == q[..FirstBrace(q)];
        BodyCheck(e, wide);
        assert false;
      } else {
        assert b.body[|q|] == l;
        ShownRewritten(e, wide);
        CutDiffers(q, l, r, k[0], y, wide);
        assert false;
      }
    }
  }

  lemma NamedText(b: Block, e: Entry, rest: Lines, cids: set<string>, text: string, wide: char -> bool)
    requires WfBlock(b, wide) && b.cid in cids && b.body == NlSplit(ShownBody(e, wide)) && !Quiet(b.body, wide)
    requires Unnamed(b.body, cids, wide) && Normalize(e.body) == e.body
    requires HereText(Kept(b, rest, cids, wide), wide) == Some(text)
    ensures Normalize(text) != Normalize(Rewrite(e.body, wide))
  {
    var q, l, r := FirstNamed(b.body, wide);
    assert b.body[|q|] == l;
    UnnamedAt(b.body, cids, |q|, wide);
    var k := KeptCut(b, q, l, r, rest, cids, wide);
    BodyReads(b.cid, b.pad, q + k, text, wide);
    CutTextDiffers(b, e, q, l, r, k, text, cids, wide);
  }

  /** A body found to be the expected one reads. */
  lemma FoundReads(before: Lines, b: Block, rest: Lines, e: Entry, cids: set<string>, p: (string, string),
                   wide: char -> bool)
    requires WfBlock(b, wide) && b.cid in cids && p.0 == b.cid && b.body == NlSplit(ShownBody(e, wide))
    requires Unnamed(before, {b.cid}, wide) && Unnamed(b.body, cids, wide) && Unnamed(rest, {b.cid}, wide)
    requires p in Bodies(StripExtra(before + (Core(b) + rest), None, cids, wide), wide)
    requires Normalize(e.body) == e.body && Normalize(p.1) == Normalize(Rewrite(e.body, wide))
    ensures Reads(e, wide)
  {
    FewerNames(b.body, cids, b.cid, wide);
    FoundAt(before, b, rest, cids, p, wide);
    if Quiet(b.body, wide) {
      QuietText(b, e, rest, cids, wide);
    } else {
      NamedText(b, e, rest, cids, p.1, wide);
    }
  }

  // ---- files that show the inventory

  /** These definitions are the inventory's, in its order, each with the rendered body. */
  ghost predicate Shows(own: seq<Block>, entries: seq<Entry>, wide: char -> bool) {
    && |own| == |entries|
    && forall i :: 0 <= i < |own| ==>
      own[i].cid == entries[i].cid && own[i].body == NlSplit(ShownBody(entries[i], wide))
  }

  ghost predicate DistinctCids(entries: seq<Entry>) {
    forall i, j :: 0 <= i < j < |entries| ==> entries[i].cid != entries[j].cid
  }

  /** Identifiers of their own, and bodies as the oracle has them. */
  ghost predicate WfEntries(entries: seq<Entry>, wide: char -> bool) {
    && DistinctCids(entries)
    && forall i :: 0 <= i < |entries| ==> IsCid(entries[i].cid, wide) && Normalize(entries[i].body) == entries[i].body
  }

  /** The definitions of a file show the inventory, among foreign ones perhaps. */
  ghost predicate ShowsAll(blocks: seq<Block>, entries: seq<Entry>, wide: char -> bool) {
    WfBlocks(blocks, wide) && WfEntries(entries, wide) && Shows(Own(blocks, ToSet(Cids(entries))), entries, wide)
  }

  lemma {:induction false} DictOf(pairs: seq<(string, string)>, i: nat)
    requires i < |pairs| && forall j, k :: 0 <= j < k < |pairs| ==> pairs[j].0 != pairs[k].0
    ensures pairs[i].0 in Dict(pairs) && Dict(pairs)[pairs[i].0] == pairs[i].1
  {
    if i < |pairs| - 1 {
      DictOf(pairs[..|pairs| - 1], i);
    }
  }

  lemma {:induction false} DictFrom(pairs: seq<(string, string)>, name: string)
    requires name in Dict(pairs)
    ensures (name, Dict(pairs)[name]) in pairs
  {
    var m := |pairs| - 1;
    if pairs[m].0 != name {
      DictFrom(pairs[..m], name);
    }
  }

  lemma {:induction false} DistinctSize(names: seq<string>)
    requires forall i, j :: 0 <= i < j < |names| ==> names[i] != names[j]
    ensures |ToSet(names)| == |names|
  {
    if names == [] {
      assert ToSet(names) == {};
    } else {
      var m := |names| - 1;
      DistinctSize(names[..m]);
      assert names == names[..m] + [names[m]];
      assert ToSet(names) == ToSet(names[..m]) + {names[m]};
    }
  }

  // ---- where our definitions stand

  lemma {:induction false} OwnHas(blocks: seq<Block>, cids: set<string>, k: nat) returns (i: nat)
    requires k < |blocks| && blocks[k].cid in cids
    ensures i < |Own(blocks, cids)| && Own(blocks, cids)[i] == blocks[k]
  {
    var m := |blocks| - 1;
    if k == m {
      i := |Own(blocks[..m], cids)|;
    } else {
      i := OwnHas(blocks[..m], cids, k);
    }
  }

  lemma {:induction false} OwnAppend(a: seq<Block>, b: seq<Block>, cids: set<string>)
    ensures Own(a + b, cids) == Own(a, cids) + Own(b, cids)
  {
    if b == [] {
      assert a + b == a;
    } else {
      var m := |b| - 1;
      OwnAppend(a, b[..m], cids);
      assert (a + b)[..|a + b| - 1] == a + b[..m];
      Associative(Own(a, cids), Own(b[..m], cids), if b[m].cid in cids then [b[m]] else []);
    }
  }

  lemma {:induction false} OwnIndex(blocks: seq<Block>, cids: set<string>, i: nat) returns (k: nat)
    requires i < |Own(blocks, cids)|
    ensures k < |blocks| && blocks[k] == Own(blocks, cids)[i] && blocks[k].cid in cids && |Own(blocks[..k], cids)| == i
  {
    var m := |blocks| - 1;
    if i == |Own(blocks[..m], cids)| {
      k := m;
    } else {
      k := OwnIndex(blocks[..m], cids, i);
      assert blocks[..m][..k] == blocks[..k];
    }
  }

  /** No other definition has the name of one of ours. */
  lemma OwnAlone(blocks: seq<Block>, cids: set<string>, k: nat)
    requires k < |blocks| && blocks[k].cid in cids
    requires forall i, j :: 0 <= i < j < |Own(blocks, cids)| ==> Own(blocks, cids)[i].cid != Own(blocks, cids)[j].cid
    ensures forall j :: 0 <= j < |blocks| && j != k ==> blocks[j].cid != blocks[k].cid
  {
    forall j | 0 <= j < |blocks| && j != k
      ensures blocks[j].cid != blocks[k].cid
    {
      if blocks[j].cid == blocks[k].cid {
        var x, y := OwnTwo(blocks, cids, if j < k then j else k, if j < k then k else j);
      }
    }
  }

  lemma OwnTwo(blocks: seq<Block>, cids: set<string>, s: nat, t: nat) returns (x: nat, y: nat)
    requires s < t < |blocks| && blocks[s].cid in cids && blocks[t].cid in cids
    ensures x < y < |Own(blocks, cids)| && Own(blocks, cids)[x] == blocks[s] && Own(blocks, cids)[y] == blocks[t]
  {
    var a, b := blocks[..t], blocks[t..];
    assert blocks == a + b;
    OwnAppend(a, b, cids);
    x := OwnHas(a, cids, s);
    y := OwnHas(b, cids, 0);
    y := |Own(a, cids)| + y;
  }

  lemma {:induction false} OwnNone(blocks: seq<Block>, cids: set<string>)
    requires forall i :: 0 <= i < |blocks| ==> blocks[i].cid !in cids
    ensures Own(blocks, cids) == []
  {
    if blocks != [] {
      OwnNone(blocks[..|blocks| - 1], cids);
    }
  }

  /** Definitions of other callbacks do not name this one. */
  lemma OthersUnnamed(blocks: seq<Block>, cids: set<string>, cid: string, wide: char -> bool)
    requires WfBlocks(blocks, wide) && cid in cids && forall i :: 0 <= i < |blocks| ==> blocks[i].cid != cid
    requires Unnamed(FreeOf(blocks), cids, wide)
    ensures Unnamed(Flatten(blocks), {cid}, wide)
  {
    FewerNames(FreeOf(blocks), cids, cid, wide);
    FlattenKnown(blocks, {cid}, wide);
    OwnNone(blocks, {cid});
  }

  // ---- the body check

  /** The free text of a file, outside its front, names nothing known. */
  ghost predicate AllUnnamed(front: Lines, blocks: seq<Block>, tail: Lines, cids: set<string>, wide: char -> bool) {
    Unnamed(front, cids, wide) && Unnamed(FreeOf(blocks), cids, wide) && Unnamed(tail, cids, wide)
  }

  lemma {:induction false} FreeAppend(a: seq<Block>, b: seq<Block>)
    ensures FreeOf(a + b) == FreeOf(a) + FreeOf(b)
  {
    if b == [] {
      assert a + b == a;
    } else {
      var m := |b| - 1;
      FreeAppend(a, b[..m]);
      assert (a + b)[..|a + b| - 1] == a + b[..m];
      Associative(FreeOf(a), FreeOf(b[..m]), b[m].pre + b[m].body);
    }
  }

  lemma FreeParts(blocks: seq<Block>, k: nat, cids: set<string>, wide: char -> bool)
    requires Unnamed(FreeOf(blocks), cids, wide) && k < |blocks|
    ensures Unnamed(FreeOf(blocks[..k]), cids, wide) && FreeUnnamed(blocks[k], cids, wide)
    ensures Unnamed(FreeOf(blocks[k + 1..]), cids, wide)
  {
    var a, b, c := blocks[..k], blocks[k], blocks[k + 1..];
    SplitAt(blocks, k);
    FreeAppend(a + [b], c);
    TakeFront(a, [b]);
    UnnamedAppend(FreeOf(a + [b]), FreeOf(c), cids, wide);
    UnnamedAppend(FreeOf(a), b.pre + b.body, cids, wide);
    UnnamedAppend(b.pre, b.body, cids, wide);
  }

  /** The file around one of our definitions. */
  lemma FileSplit(front: Lines, blocks: seq<Block>, tail: Lines, k: nat, cids: set<string>, wide: char -> bool)
    returns (before: Lines, rest: Lines)
    requires WfBlocks(blocks, wide) && AllUnnamed(front, blocks, tail, cids, wide) && k < |blocks| &&
      blocks[k].cid in cids
    requires forall j :: 0 <= j < |blocks| && j != k ==> blocks[j].cid != blocks[k].cid
    ensures front + File(blocks, tail) == before + (Core(blocks[k]) + rest)
    ensures Unnamed(before, {blocks[k].cid}, wide) && Unnamed(rest, {blocks[k].cid}, wide)
    ensures Unnamed(blocks[k].body, cids, wide)
  {
    var cid := blocks[k].cid;
    FreeParts(blocks, k, cids, wide);
    var a, b := Flatten(blocks[..k]), Flatten(blocks[k + 1..]);
    before, rest := front + a + blocks[k].pre, b + tail;
    FlattenSplit(blocks, k);
    FileGroups(front, a, blocks[k].pre, Core(blocks[k]), b, tail);
    OthersUnnamed(blocks[..k], cids, cid, wide);
    OthersUnnamed(blocks[k + 1..], cids, cid, wide);
    FewerNames(front, cids, cid, wide);
    FewerNames(tail, cids, cid, wide);
    FewerNames(blocks[k].pre, cids, cid, wide);
    UnnamedAppend(front, a, {cid}, wide);
    UnnamedAppend(front + a, blocks[k].pre, {cid}, wide);
    UnnamedAppend(b, tail, {cid}, wide);
  }

  lemma FileGroups(front: Lines, a: Lines, pre: Lines, core: Lines, b: Lines, tail: Lines)
    ensures front + ((a + (pre + (core + b))) + tail) == front + a + pre + (core + (b + tail))
  {
  }

  /** An entry about which the body check has nothing to say reads. */
  lemma ContentReads(front: Lines, blocks: seq<Block>, tail: Lines, entries: seq<Entry>, i: nat, wide: char -> bool)
    requires ShowsAll(blocks, entries, wide) && AllUnnamed(front, blocks, tail, ToSet(Cids(entries)), wide)
    requires i < |entries|
    requires BodyProblem(ActualBodies(front + File(blocks, tail), entries, wide), entries[i], wide) == []
    ensures Reads(entries[i], wide)
  {
    var cids, e := ToSet(Cids(entries)), entries[i];
    var own := Own(blocks, cids);
    var pairs := Bodies(StripExtra(front + File(blocks, tail), None, cids, wide), wide);
    DictFrom(pairs, e.cid);
    var k := OwnIndex(blocks, cids, i);
    OwnAlone(blocks, cids, k);
    var before, rest := FileSplit(front, blocks, tail, k, cids, wide);
    FoundReads(before, blocks[k], rest, e, cids, (e.cid, Dict(pairs)[e.cid]), wide);
  }

  lemma AllCalm(blocks: seq<Block>, entries: seq<Entry>, wide: char -> bool)
    requires ShowsAll(blocks, entries, wide) && Unnamed(FreeOf(blocks), ToSet(Cids(entries)), wide)
    requires forall i :: 0 <= i < |entries| ==> Reads(entries[i], wide)
    ensures forall i :: 0 <= i < |blocks| ==> Calm(blocks[i], ToSet(Cids(entries)), wide)
  {
    var cids := ToSet(Cids(entries));
    forall i | 0 <= i < |blocks|
      ensures Calm(blocks[i], cids, wide)
    {
      FreeParts(blocks, i, cids, wide);
      if blocks[i].cid in cids {
        var j := OwnHas(blocks, cids, i);
        assert Reads(entries[j], wide);
      }
    }
  }

  lemma ReadsContent(front: Lines, blocks: seq<Block>, tail: Lines, entries: seq<Entry>, wide: char -> bool)
    requires ShowsAll(blocks, entries, wide) && AllUnnamed(front, blocks, tail, ToSet(Cids(entries)), wide)
    requires forall i :: 0 <= i < |entries| ==> Reads(entries[i], wide)
    ensures forall i :: 0 <= i < |entries| ==>
      BodyProblem(ActualBodies(front + File(blocks, tail), entries, wide), entries[i], wide) == []
  {
    var cids := ToSet(Cids(entries));
    var own := Own(blocks, cids);
    AllCalm(blocks, entries, wide);
    BodiesUnnamed(front, File(blocks, tail), None, cids, wide);
    OwnFound(blocks, tail, Current(front, None, wide), cids, wide);
    forall i | 0 <= i < |entries|
      ensures BodyProblem(Dict(Captures(own)), entries[i], wide) == []
    {
      DictOf(Captures(own), i);
      BodyCheck(entries[i], wide);
    }
  }

  /** When no free text names one of ours, the body check is content with a file exactly when every body
      renders and none of their lines starts another definition. */
  lemma BodiesExactly(front: Lines, blocks: seq<Block>, tail: Lines, entries: seq<Entry>, wide: char -> bool)
    requires ShowsAll(blocks, entries, wide) && AllUnnamed(front, blocks, tail, ToSet(Cids(entries)), wide)
    ensures Concat(BodyProblems(ActualBodies(front + File(blocks, tail), entries, wide), entries, wide)) == [] <==>
      forall i :: 0 <= i < |entries| ==> Reads(entries[i], wide)
  {
    var actual := ActualBodies(front + File(blocks, tail), entries, wide);
    var all := BodyProblems(actual, entries, wide);
    ConcatNone(all);
    if forall i :: 0 <= i < |entries| ==> Reads(entries[i], wide) {
      ReadsContent(front, blocks, tail, entries, wide);
    }
    if Concat(all) == [] {
      forall i | 0 <= i < |entries|
        ensures Reads(entries[i], wide)
      {
        assert all[i] == [];
        ContentReads(front, blocks, tail, entries, i, wide);
      }
    }
  }
}
