/** What the checks find in a file made of quiet lines and definitions, foreign ones included. */
module ValidatorProofs {
  import opened Sequences
  import opened Wrappers
  import opened PyText
  import opened BodyText
  import opened VoidCalls
  import opened ActionText
  import opened Generator
  import opened Validators

  /** A definition the patterns can read; the lines before it and its body are free text. */
  ghost predicate WfBlock(b: Block, wide: char -> bool) {
    IsCid(b.cid, wide) && AllSpace(b.pad)
  }

  ghost predicate WfBlocks(blocks: seq<Block>, wide: char -> bool) {
    forall i :: 0 <= i < |blocks| ==> WfBlock(blocks[i], wide)
  }

  /** The definitions that are ours. */
  function Own(blocks: seq<Block>, cids: set<string>): seq<Block> {
    if blocks == [] then []
    else Own(blocks[..|blocks| - 1], cids) + if blocks[|blocks| - 1].cid in cids then [blocks[|blocks| - 1]] else []
  }

  // ---- names in free text

  /** The known names that lines define. */
  function Known(lines: Lines, cids: set<string>, wide: char -> bool): seq<string> {
    if lines == [] then []
    else
      var name := DefName(lines[0], wide);
      (if name.Some? && name.value in cids then [name.value] else []) + Known(lines[1..], cids, wide)
  }

  lemma {:induction false} KnownAppend(a: Lines, b: Lines, cids: set<string>, wide: char -> bool)
    ensures Known(a + b, cids, wide) == Known(a, cids, wide) + Known(b, cids, wide)
  {
    if a == [] {
      assert a + b == b;
    } else {
      assert (a + b)[1..] == a[1..] + b;
      KnownAppend(a[1..], b, cids, wide);
    }
  }

  /** No line starts the definition of one of these. */
  ghost predicate Unnamed(lines: Lines, cids: set<string>, wide: char -> bool) {
    Known(lines, cids, wide) == []
  }

  lemma {:induction false} UnnamedAt(lines: Lines, cids: set<string>, i: nat, wide: char -> bool)
    requires Unnamed(lines, cids, wide) && i < |lines|
    ensures DefName(lines[i], wide).None? || DefName(lines[i], wide).value !in cids
  {
    if i > 0 {
      UnnamedAt(lines[1..], cids, i - 1, wide);
    }
  }

  lemma {:induction false} QuietUnnamed(lines: Lines, cids: set<string>, wide: char -> bool)
    requires Quiet(lines, wide)
    ensures Unnamed(lines, cids, wide)
  {
    if lines != [] {
      QuietUnnamed(lines[1..], cids, wide);
    }
  }

  lemma {:induction false} FewerNames(lines: Lines, cids: set<string>, cid: string, wide: char -> bool)
    requires Unnamed(lines, cids, wide) && cid in cids
    ensures Unnamed(lines, {cid}, wide)
  {
    if lines != [] {
      FewerNames(lines[1..], cids, cid, wide);
    }
  }

  /** The filter keeps the definitions of the known names and no other. */
  lemma {:induction false} StripNames(lines: Lines, current: Option<string>, cids: set<string>, wide: char -> bool)
    ensures Definitions(StripExtra(lines, current, cids, wide), wide) == Known(lines, cids, wide)
  {
    if lines != [] {
      var name := DefName(lines[0], wide);
      var now := if name.Some? then name else current;
      var rest := StripExtra(lines[1..], now, cids, wide);
      StripNames(lines[1..], now, cids, wide);
      if Ours(now, cids) {
        assert ([lines[0]] + rest)[1..] == rest;
      } else {
        assert [] + rest == rest;
      }
    }
  }

  /** The definition the filter is in after some lines. */
  function Current(lines: Lines, current: Option<string>, wide: char -> bool): Option<string> {
    if lines == [] then current
    else
      var name := DefName(lines[0], wide);
      Current(lines[1..], if name.Some? then name else current, wide)
  }

  lemma {:induction false} StripSplit(a: Lines, b: Lines, current: Option<string>, cids: set<string>,
                                      wide: char -> bool)
    ensures StripExtra(a + b, current, cids, wide) ==
      StripExtra(a, current, cids, wide) + StripExtra(b, Current(a, current, wide), cids, wide)
  {
    if a == [] {
      assert a + b == b;
    } else {
      assert (a + b)[1..] == a[1..] + b;
      var name := DefName(a[0], wide);
      var now := if name.Some? then name else current;
      StripSplit(a[1..], b, now, cids, wide);
      Associative(if Ours(now, cids) then [a[0]] else [], StripExtra(a[1..], now, cids, wide),
        StripExtra(b, Current(a[1..], now, wide), cids, wide));
    }
  }

  lemma {:induction false} StripIn(lines: Lines, current: Option<string>, cids: set<string>, wide: char -> bool,
                                   line: string)
    ensures line in StripExtra(lines, current, cids, wide) ==> line in lines
  {
    if lines != [] {
      var name := DefName(lines[0], wide);
      StripIn(lines[1..], if name.Some? then name else current, cids, wide, line);
    }
  }

  /** Lines that define nothing known, filtered: nothing is defined in them any more. */
  lemma {:induction false} StripUnnamed(q: Lines, current: Option<string>, cids: set<string>, wide: char -> bool)
    requires Unnamed(q, cids, wide)
    ensures Quiet(StripExtra(q, current, cids, wide), wide)
  {
    if q != [] {
      var name := DefName(q[0], wide);
      StripUnnamed(q[1..], if name.Some? then name else current, cids, wide);
    }
  }

  /** After a foreign definition, what is kept next starts a known one. */
  lemma {:induction false} StripStarts(lines: Lines, current: Option<string>, cids: set<string>, wide: char -> bool)
    requires !Ours(current, cids)
    ensures var kept := StripExtra(lines, current, cids, wide);
      kept != [] ==> DefName(kept[0], wide).Some? && DefName(kept[0], wide).value in cids
  {
    if lines != [] {
      var name := DefName(lines[0], wide);
      if name.None? || name.value !in cids {
        StripStarts(lines[1..], if name.Some? then name else current, cids, wide);
      }
    }
  }

  // ---- quiet lines

  lemma {:induction false} StripQuiet(q: Lines, rest: Lines, current: Option<string>, cids: set<string>,
                                      wide: char -> bool)
    requires Quiet(q, wide)
    ensures StripExtra(q + rest, current, cids, wide) ==
      (if Ours(current, cids) then q else []) + StripExtra(rest, current, cids, wide)
  {
    if q == [] {
      assert q + rest == rest;
    } else {
      assert (q + rest)[1..] == q[1..] + rest;
      StripQuiet(q[1..], rest, current, cids, wide);
    }
  }

  lemma {:induction false} BodiesQuiet(q: Lines, rest: Lines, wide: char -> bool)
    requires Quiet(q, wide)
    ensures Bodies(q + rest, wide) == Bodies(rest, wide)
  {
    if q == [] {
      assert q + rest == rest;
    } else {
      assert (q + rest)[1..] == q[1..] + rest && (q + rest)[0] == q[0];
      BodiesQuiet(q[1..], rest, wide);
    }
  }

  lemma {:induction false} NamesQuiet(q: Lines, rest: Lines, wide: char -> bool)
    requires Quiet(q, wide)
    ensures Definitions(q + rest, wide) == Definitions(rest, wide)
  {
    if q == [] {
      assert q + rest == rest;
    } else {
      assert (q + rest)[1..] == q[1..] + rest && (q + rest)[0] == q[0];
      NamesQuiet(q[1..], rest, wide);
    }
  }

  lemma QuietLine(line: string, wide: char -> bool)
    requires line == "" || line[0] != 'a'
    ensures DefName(line, wide).None?
  {
    assert DEF_PREFIX[0] == 'a';
  }

  // ---- one definition

  /** A definition without the lines before it. */
  function Core(b: Block): Lines {
    [DefLine(b.cid)] + After(b)
  }

  function After(b: Block): Lines {
    [b.pad + PARAMS, "{"] + b.body + ["}"]
  }

  lemma BlockIsCore(b: Block)
    ensures BlockLines(b) == b.pre + Core(b)
  {
  }

  lemma ParamsQuiet(pad: string, wide: char -> bool)
    requires AllSpace(pad)
    ensures DefName(pad + PARAMS, wide).None?
  {
    ParamsStart(pad);
    QuietLine(pad + PARAMS, wide);
  }

  lemma ParamsStart(pad: string)
    requires AllSpace(pad)
    ensures pad + PARAMS != "" && (pad + PARAMS)[0] != 'a'
  {
    assert (pad + PARAMS)[0] == if pad == "" then PARAMS[0] else pad[0];
  }

  lemma AfterQuiet(b: Block, wide: char -> bool)
    requires WfBlock(b, wide) && Quiet(b.body, wide)
    ensures Quiet(After(b), wide)
  {
    HeadQuiet(b.pad, b.body, wide);
    QuietLine("}", wide);
    QuietAppend(Head(b.pad, b.body), ["}"], wide);
  }

  /** The lines after the first of a definition, up to some line of its body. */
  function Head(pad: string, q: Lines): Lines {
    [pad + PARAMS, "{"] + q
  }

  lemma QuietAppend(a: Lines, b: Lines, wide: char -> bool)
    requires Quiet(a, wide) && Quiet(b, wide)
    ensures Quiet(a + b, wide)
  {
  }

  lemma OpeningQuiet(pad: string, wide: char -> bool)
    requires AllSpace(pad)
    ensures Quiet([pad + PARAMS, "{"], wide)
  {
    ParamsQuiet(pad, wide);
    QuietLine("{", wide);
  }

  lemma HeadQuiet(pad: string, q: Lines, wide: char -> bool)
    requires AllSpace(pad) && Quiet(q, wide)
    ensures Quiet(Head(pad, q), wide)
  {
    OpeningQuiet(pad, wide);
    QuietAppend([pad + PARAMS, "{"], q, wide);
  }

  lemma HeadShape(first: string, pad: string, q: Lines)
    ensures var lines := [first] + Head(pad, q);
      && |lines| >= 3 && lines[0] == first && lines[1..] == Head(pad, q)
      && lines[1] == lines[1..][0] == pad + PARAMS && lines[2] == "{" && lines[3..] == q && "{"[1..] == ""
  {
  }

  lemma AfterUnnamed(b: Block, cids: set<string>, wide: char -> bool)
    requires WfBlock(b, wide)
    ensures Known(After(b), cids, wide) == Known(b.body, cids, wide)
  {
    HeadQuiet(b.pad, [], wide);
    QuietLine("}", wide);
    QuietUnnamed(Head(b.pad, []), cids, wide);
    QuietUnnamed(["}"], cids, wide);
    KnownAppend(Head(b.pad, []), b.body, cids, wide);
    KnownAppend(Head(b.pad, []) + b.body, ["}"], cids, wide);
    assert After(b) == Head(b.pad, []) + b.body + ["}"];
    assert Known(b.body, cids, wide) + [] == [] + Known(b.body, cids, wide) == Known(b.body, cids, wide);
  }

  lemma CoreKnown(b: Block, cids: set<string>, wide: char -> bool)
    requires WfBlock(b, wide)
    ensures Known(Core(b), cids, wide) == (if b.cid in cids then [b.cid] else []) + Known(b.body, cids, wide)
  {
    DefLineName(b.cid, wide);
    AfterUnnamed(b, cids, wide);
    assert Core(b)[1..] == After(b);
  }

  /** The text the checks read as a definition's body: up to the first line that is a closing brace. */
  function Captured(body: Lines): string {
    Join([""] + body[..FirstBrace(body)])
  }

  lemma {:induction false} FirstBraceOf(body: Lines, rest: Lines)
    ensures FirstBrace(body + (["}"] + rest)) == FirstBrace(body)
  {
    var all := body + (["}"] + rest);
    if body == [] {
      assert all[0] == "}";
    } else {
      assert all[1..] == body[1..] + (["}"] + rest);
      FirstBraceOf(body[1..], rest);
    }
  }

  lemma ParamsLine(pad: string)
    requires AllSpace(pad)
    ensures IsParams(pad + PARAMS) && Spaces(pad + PARAMS) < |pad + PARAMS|
  {
    SkipGap(pad, PARAMS);
  }

  lemma CoreShape(b: Block, rest: Lines)
    ensures var lines := Core(b) + rest;
      && |lines| >= 4 && lines[0] == DefLine(b.cid) && lines[1..] == After(b) + rest
      && lines[1] == lines[1..][0] == b.pad + PARAMS && lines[2] == "{" && "{"[1..] == ""
      && lines[3..] == b.body + (["}"] + rest)
  {
  }

  lemma CoreBody(b: Block, rest: Lines, wide: char -> bool)
    requires WfBlock(b, wide)
    ensures var k := FirstBrace(b.body);
      BodyAt(Core(b) + rest, wide) == Some((b.cid, Captured(b.body), (b.body + (["}"] + rest))[k + 1..]))
  {
    var tail := b.body + (["}"] + rest);
    CoreShape(b, rest);
    DefLineName(b.cid, wide);
    ParamsLine(b.pad);
    FirstBraceOf(b.body, rest);
    assert tail[..FirstBrace(b.body)] == b.body[..FirstBrace(b.body)];
  }

  lemma AfterBody(b: Block, rest: Lines, wide: char -> bool)
    requires WfBlock(b, wide) && Quiet(b.body, wide)
    ensures Bodies((b.body + (["}"] + rest))[FirstBrace(b.body) + 1..], wide) == Bodies(rest, wide)
  {
    var k := FirstBrace(b.body);
    var tail := b.body + (["}"] + rest);
    AfterQuiet(b, wide);
    if k == |b.body| {
      assert tail[k + 1..] == rest;
    } else {
      var q := b.body[k + 1..] + ["}"];
      assert tail[k + 1..] == q + rest;
      assert forall i :: 0 <= i < |q| ==> q[i] == After(b)[i + k + 3];
      BodiesQuiet(q, rest, wide);
    }
  }

  lemma CoreBodies(b: Block, rest: Lines, wide: char -> bool)
    requires WfBlock(b, wide) && Quiet(b.body, wide)
    ensures Bodies(Core(b) + rest, wide) == [(b.cid, Captured(b.body))] + Bodies(rest, wide)
  {
    CoreBody(b, rest, wide);
    AfterBody(b, rest, wide);
  }

  lemma StripDef(cid: string, rest: Lines, current: Option<string>, cids: set<string>, wide: char -> bool)
    requires IsCid(cid, wide)
    ensures StripExtra([DefLine(cid)] + rest, current, cids, wide) ==
      (if cid in cids then [DefLine(cid)] else []) + StripExtra(rest, Some(cid), cids, wide)
  {
    DefLineName(cid, wide);
    assert ([DefLine(cid)] + rest)[1..] == rest;
  }

  lemma CoreStrip(b: Block, rest: Lines, current: Option<string>, cids: set<string>, wide: char -> bool)
    requires WfBlock(b, wide)
    ensures StripExtra(Core(b) + rest, current, cids, wide) ==
      (if b.cid in cids then [DefLine(b.cid)] else []) + StripExtra(After(b) + rest, Some(b.cid), cids, wide)
  {
    CoreShape(b, rest);
    StripDef(b.cid, After(b) + rest, current, cids, wide);
    assert Core(b) + rest == [DefLine(b.cid)] + (After(b) + rest);
  }

  // ---- whole files

  lemma {:induction false} FlattenFront(blocks: seq<Block>)
    requires blocks != []
    ensures Flatten(blocks) == BlockLines(blocks[0]) + Flatten(blocks[1..])
  {
    var m := |blocks| - 1;
    var front, last := blocks[..m], blocks[m];
    assert blocks == front + [last];
    FlattenLast(front, last);
    if m == 0 {
      assert blocks[1..] == [] && Flatten(front) == [];
      assert [] + BlockLines(last) == BlockLines(last) + [];
    } else {
      FlattenFront(front);
      FlattenLast(front[1..], last);
      Associative(BlockLines(front[0]), Flatten(front[1..]), BlockLines(last));
      assert blocks[1..] == front[1..] + [last];
    }
  }

  lemma {:induction false} FlattenAppend(a: seq<Block>, b: seq<Block>)
    ensures Flatten(a + b) == Flatten(a) + Flatten(b)
  {
    if b == [] {
      assert a + b == a;
    } else {
      var front, last := b[..|b| - 1], b[|b| - 1];
      FlattenAppend(a, front);
      assert a + b == (a + front) + [last];
      FlattenLast(a + front, last);
      Associative(Flatten(a), Flatten(front), BlockLines(last));
    }
  }

  lemma FlattenSplit(blocks: seq<Block>, i: nat)
    requires i < |blocks|
    ensures Flatten(blocks) == Flatten(blocks[..i]) + (blocks[i].pre + (Core(blocks[i]) + Flatten(blocks[i + 1..])))
  {
    var tail := blocks[i..];
    assert blocks == blocks[..i] + tail && tail[1..] == blocks[i + 1..];
    FlattenAppend(blocks[..i], tail);
    FlattenFront(tail);
    BlockIsCore(tail[0]);
    Associative(tail[0].pre, Core(tail[0]), Flatten(tail[1..]));
  }

  lemma {:induction false} OwnFront(blocks: seq<Block>, cids: set<string>)
    requires blocks != []
    ensures Own(blocks, cids) == (if blocks[0].cid in cids then [blocks[0]] else []) + Own(blocks[1..], cids)
  {
    var m := |blocks| - 1;
    if m == 0 {
      assert blocks[..m] == [] && blocks[1..] == [];
    } else {
      OwnFront(blocks[..m], cids);
      assert blocks[..m][1..] == blocks[1..][..m - 1];
    }
  }

  /** A file of definitions, each after some quiet lines, with quiet lines at the end. */
  function File(blocks: seq<Block>, tail: Lines): Lines {
    Flatten(blocks) + tail
  }

  lemma FileFront(blocks: seq<Block>, tail: Lines)
    requires blocks != []
    ensures File(blocks, tail) == blocks[0].pre + (Core(blocks[0]) + File(blocks[1..], tail))
  {
    FlattenFront(blocks);
    BlockIsCore(blocks[0]);
  }

  function Captures(blocks: seq<Block>): seq<(string, string)> {
    seq(|blocks|, i requires 0 <= i < |blocks| => (blocks[i].cid, Captured(blocks[i].body)))
  }

  function BlockCids(blocks: seq<Block>): seq<string> {
    seq(|blocks|, i requires 0 <= i < |blocks| => blocks[i].cid)
  }

  /** The free text of these definitions. */
  function FreeOf(blocks: seq<Block>): Lines {
    if blocks == [] then [] else FreeOf(blocks[..|blocks| - 1]) + (blocks[|blocks| - 1].pre + blocks[|blocks| - 1].body)
  }

  /** Nothing in its free text starts the definition of one of these. */
  ghost predicate FreeUnnamed(b: Block, cids: set<string>, wide: char -> bool) {
    Unnamed(b.pre, cids, wide) && Unnamed(b.body, cids, wide)
  }

  lemma UnnamedAppend(a: Lines, b: Lines, cids: set<string>, wide: char -> bool)
    ensures Unnamed(a + b, cids, wide) <==> Unnamed(a, cids, wide) && Unnamed(b, cids, wide)
  {
    KnownAppend(a, b, cids, wide);
  }

  lemma BlockKnown(b: Block, cids: set<string>, wide: char -> bool)
    requires WfBlock(b, wide)
    ensures Known(BlockLines(b), cids, wide) ==
      Known(b.pre, cids, wide) + ((if b.cid in cids then [b.cid] else []) + Known(b.body, cids, wide))
  {
    BlockIsCore(b);
    CoreKnown(b, cids, wide);
    KnownAppend(b.pre, Core(b), cids, wide);
  }

  lemma BlockNames(b: Block, cids: set<string>, wide: char -> bool)
    requires WfBlock(b, wide)
    ensures |Known(BlockLines(b), cids, wide)| == |Known(b.pre + b.body, cids, wide)| + if b.cid in cids then 1 else 0
    ensures FreeUnnamed(b, cids, wide) ==> Known(BlockLines(b), cids, wide) == if b.cid in cids then [b.cid] else []
  {
    BlockKnown(b, cids, wide);
    KnownAppend(b.pre, b.body, cids, wide);
  }

  /** The known names in a file are those of our definitions and those its free text has. */
  lemma {:induction false} FlattenKnown(blocks: seq<Block>, cids: set<string>, wide: char -> bool)
    requires WfBlocks(blocks, wide)
    ensures |Known(Flatten(blocks), cids, wide)| == |Own(blocks, cids)| + |Known(FreeOf(blocks), cids, wide)|
    ensures Unnamed(FreeOf(blocks), cids, wide) ==> Known(Flatten(blocks), cids, wide) == BlockCids(Own(blocks, cids))
  {
    if blocks != [] {
      var m := |blocks| - 1;
      var front, last := blocks[..m], blocks[m];
      FlattenKnown(front, cids, wide);
      KnownAppend(Flatten(front), BlockLines(last), cids, wide);
      KnownAppend(FreeOf(front), last.pre + last.body, cids, wide);
      BlockNames(last, cids, wide);
      UnnamedAppend(FreeOf(front), last.pre + last.body, cids, wide);
      UnnamedAppend(last.pre, last.body, cids, wide);
      CidsOfOwn(front, last, cids);
    }
  }

  lemma CidsOfOwn(front: seq<Block>, last: Block, cids: set<string>)
    ensures BlockCids(Own(front, cids) + if last.cid in cids then [last] else []) ==
      BlockCids(Own(front, cids)) + if last.cid in cids then [last.cid] else []
  {
  }

  // ---- bodies, when nothing interferes

  /** Free text that names nothing known, and for one of ours no definition at all in the body. */
  ghost predicate Calm(b: Block, cids: set<string>, wide: char -> bool) {
    WfBlock(b, wide) && FreeUnnamed(b, cids, wide) && (b.cid in cids ==> Quiet(b.body, wide))
  }

  /** After the foreign definitions are filtered out, the bodies found are exactly ours, in order. */
  lemma {:induction false} OwnFound(blocks: seq<Block>, tail: Lines, current: Option<string>, cids: set<string>,
                                    wide: char -> bool)
    requires (forall i :: 0 <= i < |blocks| ==> Calm(blocks[i], cids, wide)) && Unnamed(tail, cids, wide)
    ensures Bodies(StripExtra(File(blocks, tail), current, cids, wide), wide) == Captures(Own(blocks, cids))
    decreases |blocks|
  {
    if blocks == [] {
      assert File(blocks, tail) == tail;
      BodiesUnnamed(tail, [], current, cids, wide);
      assert tail + [] == tail;
    } else {
      var b, more := blocks[0], blocks[1..];
      var rest := File(more, tail);
      FileFront(blocks, tail);
      BodiesUnnamed(b.pre, Core(b) + rest, current, cids, wide);
      OwnFront(blocks, cids);
      forall now: Option<string>
        ensures Bodies(StripExtra(rest, now, cids, wide), wide) == Captures(Own(more, cids))
      {
        OwnFound(more, tail, now, cids, wide);
      }
      var now := CoreLeaves(b, rest, Current(b.pre, current, wide), cids, wide);
      CapturesCons(b, Own(more, cids));
    }
  }

  /** Lines that define nothing known do not matter to the bodies found. */
  lemma BodiesUnnamed(q: Lines, rest: Lines, current: Option<string>, cids: set<string>, wide: char -> bool)
    requires Unnamed(q, cids, wide)
    ensures Bodies(StripExtra(q + rest, current, cids, wide), wide) ==
      Bodies(StripExtra(rest, Current(q, current, wide), cids, wide), wide)
  {
    StripSplit(q, rest, current, cids, wide);
    StripUnnamed(q, current, cids, wide);
    BodiesQuiet(StripExtra(q, current, cids, wide), StripExtra(rest, Current(q, current, wide), cids, wide), wide);
  }

  lemma CapturesCons(b: Block, own: seq<Block>)
    ensures Captures([b] + own) == [(b.cid, Captured(b.body))] + Captures(own)
  {
  }

  /** One definition and what is found after it. */
  lemma CoreLeaves(b: Block, rest: Lines, current: Option<string>, cids: set<string>,
                   wide: char -> bool) returns (now: Option<string>)
    requires Calm(b, cids, wide)
    ensures Bodies(StripExtra(Core(b) + rest, current, cids, wide), wide) ==
      (if b.cid in cids then [(b.cid, Captured(b.body))] else []) + Bodies(StripExtra(rest, now, cids, wide), wide)
  {
    CoreStrip(b, rest, current, cids, wide);
    if b.cid in cids {
      now := Some(b.cid);
      AfterQuiet(b, wide);
      StripQuiet(After(b), rest, now, cids, wide);
      Associative([DefLine(b.cid)], After(b), StripExtra(rest, now, cids, wide));
      CoreBodies(b, StripExtra(rest, now, cids, wide), wide);
    } else {
      now := Current(After(b), Some(b.cid), wide);
      var kept := StripExtra(After(b) + rest, Some(b.cid), cids, wide);
      assert [] + kept == kept;
      AfterUnnamed(b, cids, wide);
          BodiesUnnamed(After(b), rest, Some(b.cid), cids, wide);
    }
  }

  // ---- bodies, whatever our bodies hold

  lemma BodyRest(lines: Lines, wide: char -> bool) returns (x: Lines)
    requires BodyAt(lines, wide).Some?
    ensures lines == x + BodyAt(lines, wide).value.2
  {
    var p := 1 + BlankRun(lines[1..]);
    var k := FirstBrace(lines[p + 2..]);
    x := lines[..p + 2 + k + 1];
    assert lines[p + 2..][k + 1..] == lines[p + 2 + k + 1..];
  }

  /** p is read of a definition on the first line. */
  ghost predicate ReadHere(lines: Lines, p: (string, string), wide: char -> bool) {
    lines != [] && var b := BodyAt(lines, wide); b.Some? && b.value.0 == p.0 && b.value.1 == p.1
  }

  lemma BodiesStep(lines: Lines, p: (string, string), wide: char -> bool) returns (x: Lines, rest: Lines)
    requires p in Bodies(lines, wide) && !ReadHere(lines, p, wide)
    ensures lines == x + rest && x != [] && p in Bodies(rest, wide)
  {
    if BodyAt(lines, wide).Some? {
      x := BodyRest(lines, wide);
      rest := BodyAt(lines, wide).value.2;
    } else {
      x, rest := lines[..1], lines[1..];
    }
  }

  /** Every body found stands somewhere in the file. */
  lemma {:induction false} PairAt(lines: Lines, p: (string, string), wide: char -> bool) returns (x: Lines, rest: Lines)
    requires p in Bodies(lines, wide)
    ensures lines == x + rest && ReadHere(rest, p, wide)
    decreases |lines|
  {
    if ReadHere(lines, p, wide) {
      x, rest := [], lines;
    } else {
      var y, more := BodiesStep(lines, p, wide);
      x, rest := PairAt(more, p, wide);
      Associative(y, x, rest);
      x := y + x;
    }
  }

  /** What the filter leaves of a file from one of our definitions on. */
  function Kept(b: Block, rest: Lines, cids: set<string>, wide: char -> bool): Lines {
    [DefLine(b.cid)] + StripExtra(After(b) + rest, Some(b.cid), cids, wide)
  }

  lemma NotNamed(lines: Lines, current: Option<string>, cids: set<string>, cid: string, wide: char -> bool, i: nat)
    requires Unnamed(lines, {cid}, wide) && i < |StripExtra(lines, current, cids, wide)|
    ensures DefName(StripExtra(lines, current, cids, wide)[i], wide) != Some(cid)
  {
    var line := StripExtra(lines, current, cids, wide)[i];
    StripIn(lines, current, cids, wide, line);
    var k :| 0 <= k < |lines| && lines[k] == line;
    UnnamedAt(lines, {cid}, k, wide);
  }

  /** The body read of a definition on the first line. */
  function HereText(lines: Lines, wide: char -> bool): Option<string> {
    var b := BodyAt(lines, wide);
    if b.Some? then Some(b.value.1) else None
  }

  /** The only line that has a name, among lines that do not. */
  lemma OnlyLine(front: Lines, line: string, tail: Lines, i: nat, cid: string, wide: char -> bool)
    requires i < |front + ([line] + tail)| && DefName((front + ([line] + tail))[i], wide) == Some(cid)
    requires forall k :: 0 <= k < |front| ==> DefName(front[k], wide) != Some(cid)
    requires forall k :: 0 <= k < |tail| ==> DefName(tail[k], wide) != Some(cid)
    ensures i == |front| && (front + ([line] + tail))[i..] == [line] + tail
  {
    var all := front + ([line] + tail);
    assert forall k :: 0 <= k < |front| ==> all[k] == front[k];
    assert forall k :: |front| < k < |all| ==> all[k] == tail[k - |front| - 1];
    assert all[|front|..] == [line] + tail;
  }

  lemma AfterNotNamed(b: Block, rest: Lines, cids: set<string>, wide: char -> bool)
    requires WfBlock(b, wide) && Unnamed(b.body, {b.cid}, wide) && Unnamed(rest, {b.cid}, wide)
    ensures Unnamed(After(b) + rest, {b.cid}, wide)
  {
    AfterUnnamed(b, {b.cid}, wide);
    UnnamedAppend(After(b), rest, {b.cid}, wide);
  }

  lemma NoneNamed(lines: Lines, current: Option<string>, cids: set<string>, cid: string, wide: char -> bool)
    requires Unnamed(lines, {cid}, wide)
    ensures var kept := StripExtra(lines, current, cids, wide);
      forall i :: 0 <= i < |kept| ==> DefName(kept[i], wide) != Some(cid)
  {
    forall i | 0 <= i < |StripExtra(lines, current, cids, wide)|
      ensures DefName(StripExtra(lines, current, cids, wide)[i], wide) != Some(cid)
    {
      NotNamed(lines, current, cids, cid, wide, i);
    }
  }

  /** If one of our definitions is found, its body was read at its own place. */
  lemma FoundAt(before: Lines, b: Block, rest: Lines, cids: set<string>, p: (string, string), wide: char -> bool)
    requires WfBlock(b, wide) && b.cid in cids && p.0 == b.cid
    requires Unnamed(before, {b.cid}, wide) && Unnamed(b.body, {b.cid}, wide) && Unnamed(rest, {b.cid}, wide)
    requires p in Bodies(StripExtra(before + (Core(b) + rest), None, cids, wide), wide)
    ensures HereText(Kept(b, rest, cids, wide), wide) == Some(p.1)
  {
    var front, tail := StripExtra(before, None, cids, wide), StripExtra(After(b) + rest, Some(b.cid), cids, wide);
    StripSplit(before, Core(b) + rest, None, cids, wide);
    CoreStrip(b, rest, Current(before, None, wide), cids, wide);
    var x, found := PairAt(front + ([DefLine(b.cid)] + tail), p, wide);
    NoneNamed(before, None, cids, b.cid, wide);
    AfterNotNamed(b, rest, cids, wide);
    NoneNamed(After(b) + rest, Some(b.cid), cids, b.cid, wide);
    HereNamed(found, p, wide);
    assert (x + found)[|x|] == found[0] && (x + found)[|x|..] == found;
    OnlyLine(front, DefLine(b.cid), tail, |x|, b.cid, wide);
  }

  lemma HereNamed(lines: Lines, p: (string, string), wide: char -> bool)
    requires ReadHere(lines, p, wide)
    ensures DefName(lines[0], wide) == Some(p.0) && HereText(lines, wide) == Some(p.1)
  {
  }

  /** The first line of some lines that starts a definition. */
  lemma FirstNamed(lines: Lines, wide: char -> bool) returns (q: Lines, l: string, r: Lines)
    requires !Quiet(lines, wide)
    ensures lines == q + ([l] + r) && Quiet(q, wide) && DefName(l, wide).Some?
  {
    if DefName(lines[0], wide).Some? {
      q, l, r := [], lines[0], lines[1..];
    } else {
      assert exists i :: 0 <= i < |lines[1..]| && DefName(lines[1..][i], wide).Some? by {
        var k :| 0 <= k < |lines| && DefName(lines[k], wide).Some?;
        assert lines[1..][k - 1] == lines[k];
      }
      q, l, r := FirstNamed(lines[1..], wide);
      q := [lines[0]] + q;
    }
  }

  /** A body with a foreign definition in it is cut there, and joined to the next known definition. */
  lemma KeptCut(b: Block, q: Lines, l: string, r: Lines, rest: Lines, cids: set<string>, wide: char -> bool)
    returns (k: Lines)
    requires WfBlock(b, wide) && b.cid in cids && b.body == q + ([l] + r) && Quiet(q, wide)
    requires DefName(l, wide).Some? && DefName(l, wide).value !in cids
    ensures Kept(b, rest, cids, wide) == [DefLine(b.cid)] + Head(b.pad, q + k)
    ensures k != [] ==> DefName(k[0], wide).Some? && DefName(k[0], wide).value in cids
  {
    var more := r + ["}"] + rest;
    k := StripExtra(more, DefName(l, wide), cids, wide);
    CutGroups([b.pad + PARAMS, "{"], q, [l], r, ["}"], rest);
    HeadStrip(b, q, [l] + more, cids, wide);
    ForeignStrip(l, more, Some(b.cid), cids, wide);
    StripStarts(more, DefName(l, wide), cids, wide);
    Associative([b.pad + PARAMS, "{"], q, k);
  }

  lemma HeadStrip(b: Block, q: Lines, more: Lines, cids: set<string>, wide: char -> bool)
    requires WfBlock(b, wide) && b.cid in cids && Quiet(q, wide)
    ensures StripExtra(Head(b.pad, q) + more, Some(b.cid), cids, wide) ==
      Head(b.pad, q) + StripExtra(more, Some(b.cid), cids, wide)
  {
    HeadQuiet(b.pad, q, wide);
    StripQuiet(Head(b.pad, q), more, Some(b.cid), cids, wide);
  }

  lemma ForeignStrip(l: string, more: Lines, current: Option<string>, cids: set<string>, wide: char -> bool)
    requires DefName(l, wide).Some? && DefName(l, wide).value !in cids
    ensures StripExtra([l] + more, current, cids, wide) == StripExtra(more, DefName(l, wide), cids, wide)
  {
    TakeFront([l], more);
    assert [] + StripExtra(more, DefName(l, wide), cids, wide) == StripExtra(more, DefName(l, wide), cids, wide);
  }

  lemma CutGroups(o: Lines, q: Lines, l: Lines, r: Lines, c: Lines, rest: Lines)
    ensures (o + (q + (l + r)) + c) + rest == (o + q) + (l + (r + c + rest))
  {
  }

  /** The text read of a body, from its lines on. */
  function TextUpTo(rest: Lines): Option<string> {
    if FirstBrace(rest) == |rest| then None else Some(Join([""] + rest[..FirstBrace(rest)]))
  }

  lemma BodyReads(cid: string, pad: string, rest: Lines, text: string, wide: char -> bool)
    requires IsCid(cid, wide) && AllSpace(pad) && HereText([DefLine(cid)] + Head(pad, rest), wide) == Some(text)
    ensures TextUpTo(rest) == Some(text)
  {
    HeadShape(DefLine(cid), pad, rest);
    DefLineName(cid, wide);
    ParamsLine(pad);
  }

  /** What is read of a body that is cut. */
  lemma CutText(q: Lines, k: Lines) returns (y: Lines)
    requires (k != [] ==> k[0] != "}") && TextUpTo(q + k).Some?
    ensures FirstBrace(q) < |q| ==> TextUpTo(q + k) == Some(Captured(q))
    ensures FirstBrace(q) == |q| ==> k != [] && TextUpTo(q + k) == Some(Join([""] + (q + ([k[0]] + y))))
  {
    FirstBraceIn(q, k);
    var m := FirstBrace(q + k);
    y := [];
    if m < |q| {
      assert (q + k)[..m] == q[..m];
    } else {
      y := k[1..m - |q|];
      assert (q + k)[..m] == q + ([k[0]] + y);
    }
  }

  lemma {:induction false} FirstBraceIn(q: Lines, k: Lines)
    ensures FirstBrace(q + k) == if FirstBrace(q) < |q| then FirstBrace(q) else |q| + FirstBrace(k)
  {
    if q == [] {
      assert q + k == k;
    } else {
      assert (q + k)[1..] == q[1..] + k;
      FirstBraceIn(q[1..], k);
    }
  }
}
