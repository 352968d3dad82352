/** Exactly which files, rendered from an inventory and perhaps with foreign callbacks added, pass the checks. */
module RenderedChecks {
  import opened Sequences
  import opened Wrappers
  import opened PyText
  import opened BodyText
  import opened VoidCalls
  import opened ActionText
  import opened Generator
  import opened Validators
  import opened ValidatorProofs
  import opened GeneratorProofs
  import opened ChecksAgree

  // ---- free text

  /** The text of some lines that is not the generator's own: these hold this many more ends of rows, and the
      same known names. */
  ghost predicate Adds(lines: Lines, free: Lines, rows: nat, cids: set<string>, wide: char -> bool) {
    Marks(lines, wide) == rows + Marks(free, wide) && |Known(lines, cids, wide)| == |Known(free, cids, wide)|
  }

  lemma AddsAppend(a: Lines, fa: Lines, n: nat, b: Lines, fb: Lines, m: nat, cids: set<string>, wide: char -> bool)
    requires Adds(a, fa, n, cids, wide) && Adds(b, fb, m, cids, wide)
    ensures Adds(a + b, fa + fb, n + m, cids, wide)
  {
    MarksAppend(a, b, wide);
    MarksAppend(fa, fb, wide);
    KnownAppend(a, b, cids, wide);
    KnownAppend(fa, fb, cids, wide);
  }

  /** Text of the generator's own between free text. */
  lemma AddsFixed(a: Lines, fa: Lines, n: nat, b: Lines, m: nat, cids: set<string>, wide: char -> bool)
    requires Adds(a, fa, n, cids, wide) && Adds(b, [], m, cids, wide)
    ensures Adds(a + b, fa, n + m, cids, wide)
  {
    MarksAppend(a, b, wide);
    KnownAppend(a, b, cids, wide);
  }

  lemma AddsSelf(a: Lines, cids: set<string>, wide: char -> bool)
    ensures Adds(a, a, 0, cids, wide)
  {
  }

  lemma MarksOne(line: string, wide: char -> bool)
    ensures Marks([line], wide) == MarksIn(line, wide)
  {
    assert [line][1..] == [];
    assert Marks([line][1..], wide) == 0;
  }

  lemma OwnLine(line: string, cids: set<string>, wide: char -> bool)
    requires '&' !in line && (line == "" || line[0] != 'a')
    ensures Adds([line], [], 0, cids, wide)
  {
    MarksNoAmp(line, wide);
    QuietLine(line, wide);
    MarksOne(line, wide);
    QuietUnnamed([line], cids, wide);
  }

  // ---- before the callbacks

  function StorageOf(cid: string): string {
    "GschemAction *action_" + cid + " = NULL;"
  }

  lemma StorageText(cid: string)
    requires '&' !in cid
    ensures '&' !in StorageOf(cid) && StorageOf(cid)[0] == 'G'
  {
    assert '&' !in "GschemAction *action_" && '&' !in " = NULL;";
  }

  lemma CidNoAmp(cid: string, wide: char -> bool)
    requires IsCid(cid, wide)
    ensures '&' !in cid
  {
  }

  lemma StorageNext(entries: seq<Entry>)
    requires entries != []
    ensures var m := |entries| - 1;
      StorageLines(entries) == StorageLines(entries[..m]) + [StorageOf(entries[m].cid)]
  {
  }

  lemma {:induction false} StorageAdds(entries: seq<Entry>, cids: set<string>, wide: char -> bool)
    requires AllCids(entries, wide)
    ensures Adds(StorageLines(entries), [], 0, cids, wide)
  {
    if entries == [] {
      assert StorageLines(entries) == [];
    } else {
      var m := |entries| - 1;
      StorageAdds(entries[..m], cids, wide);
      CidNoAmp(entries[m].cid, wide);
      StorageText(entries[m].cid);
      OwnLine(StorageOf(entries[m].cid), cids, wide);
      StorageNext(entries);
      AddsFixed(StorageLines(entries[..m]), [], 0, [StorageOf(entries[m].cid)], 0, cids, wide);
    }
  }

  lemma RowAdds(e: Entry, cids: set<string>, wide: char -> bool)
    requires IsCid(e.cid, wide)
    ensures Adds(RowLines(e), NlSplit(RowFront(e)), 1, cids, wide)
  {
    var front := NlSplit(RowFront(e));
    RowEndMarks(e.cid, wide);
    MarksOne(RowEnd(e.cid), wide);
    QuietUnnamed([RowEnd(e.cid)], cids, wide);
    AddsSelf(front, cids, wide);
    AddsFixed(front, front, 0, [RowEnd(e.cid)], 1, cids, wide);
  }

  function FreeRows(members: seq<Entry>): Lines {
    if members == [] then [] else FreeRows(members[..|members| - 1]) + NlSplit(RowFront(members[|members| - 1]))
  }

  lemma {:induction false} MembersAdd(members: seq<Entry>, cids: set<string>, wide: char -> bool)
    requires AllCids(members, wide)
    ensures Adds(MemberRows(members), FreeRows(members), |members|, cids, wide)
  {
    if members != [] {
      var m := |members| - 1;
      MembersAdd(members[..m], cids, wide);
      RowAdds(members[m], cids, wide);
      AddsAppend(MemberRows(members[..m]), FreeRows(members[..m]), m, RowLines(members[m]),
        NlSplit(RowFront(members[m])), 1, cids, wide);
    }
  }

  function FreeSection(s: Section): Lines {
    TitleLines(s.title) + FreeRows(s.members)
  }

  function FreeTable(sections: seq<Section>): Lines {
    if sections == [] then []
    else FreeTable(sections[..|sections| - 1]) + FreeSection(sections[|sections| - 1])
  }

  lemma SectionAdds(s: Section, cids: set<string>, wide: char -> bool)
    requires AllCids(s.members, wide)
    ensures Adds(SectionLines(s), FreeSection(s), |s.members|, cids, wide)
  {
    var title := TitleLines(s.title);
    MembersAdd(s.members, cids, wide);
    AddsSelf(title, cids, wide);
    AddsAppend(title, title, 0, MemberRows(s.members), FreeRows(s.members), |s.members|, cids, wide);
  }

  lemma {:induction false} TableAdds(sections: seq<Section>, cids: set<string>, wide: char -> bool)
    requires forall e :: e in AllMembers(sections) ==> IsCid(e.cid, wide)
    ensures Adds(TableLines(sections), FreeTable(sections), |AllMembers(sections)|, cids, wide)
  {
    if sections != [] {
      var m := |sections| - 1;
      var front, last := sections[..m], sections[m];
      assert forall e :: e in AllMembers(front) ==> e in AllMembers(sections);
      assert forall i :: 0 <= i < |last.members| ==> last.members[i] in AllMembers(sections);
      TableAdds(front, cids, wide);
      SectionAdds(last, cids, wide);
      AddsAppend(TableLines(front), FreeTable(front), |AllMembers(front)|, SectionLines(last), FreeSection(last),
        |last.members|, cids, wide);
    }
  }

  /** The free text before the callbacks: the fixed parts, titles, and rows without their ends. */
  function FreeFront(frame: Frame, entries: seq<Entry>): Lines {
    frame.head + frame.table + FreeTable(Sections(entries)) + frame.middle
  }

  /** What stands before the callbacks holds one row an entry besides its free text, and defines nothing. */
  lemma FrontAdds(frame: Frame, entries: seq<Entry>, cids: set<string>, wide: char -> bool)
    requires AllCids(entries, wide)
    ensures Adds(FrontLines(frame, entries), FreeFront(frame, entries), |entries|, cids, wide)
  {
    var sections := Sections(entries);
    SectionsComplete(entries);
    MembersCids(entries, wide);
    StorageAdds(entries, cids, wide);
    TableAdds(sections, cids, wide);
    FrontJoins(frame, StorageLines(entries), TableLines(sections), FreeTable(sections), |entries|, cids, wide);
  }

  lemma FrontJoins(frame: Frame, a: Lines, t: Lines, ft: Lines, n: nat, cids: set<string>, wide: char -> bool)
    requires Adds(a, [], 0, cids, wide) && Adds(t, ft, n, cids, wide)
    ensures Adds(frame.head + a + frame.table + t + frame.middle, frame.head + frame.table + ft + frame.middle,
              n, cids, wide)
  {
    AddsSelf(frame.head, cids, wide);
    AddsSelf(frame.table, cids, wide);
    AddsSelf(frame.middle, cids, wide);
    AddsFixed(frame.head, frame.head, 0, a, 0, cids, wide);
    AddsAppend(frame.head + a, frame.head, 0, frame.table, frame.table, 0, cids, wide);
    AddsAppend(frame.head + a + frame.table, frame.head + frame.table, 0, t, ft, n, cids, wide);
    AddsAppend(frame.head + a + frame.table + t, frame.head + frame.table + ft, n, frame.middle, frame.middle, 0,
      cids, wide);
  }

  // ---- the callbacks

  lemma FixedText()
    ensures '&' !in DEF_PREFIX && '&' !in DEF_SUFFIX && '&' !in PARAMS
  {
  }

  lemma FixedRowless(cid: string, pad: string, wide: char -> bool)
    requires IsCid(cid, wide) && AllSpace(pad)
    ensures Marks([DefLine(cid), pad + PARAMS, "{"], wide) == 0 && Marks(["}"], wide) == 0
  {
    FixedText();
    CidNoAmp(cid, wide);
    assert '&' !in pad;
    MarksNoAmp(DefLine(cid), wide);
    MarksNoAmp(pad + PARAMS, wide);
    MarksNoAmp("{", wide);
    MarksNoAmp("}", wide);
    MarksOne("{", wide);
    MarksOne("}", wide);
    assert [DefLine(cid), pad + PARAMS, "{"][1..][1..] == ["{"];
  }

  lemma BlockMarks(b: Block, wide: char -> bool)
    requires WfBlock(b, wide)
    ensures Marks(BlockLines(b), wide) == Marks(b.pre + b.body, wide)
  {
    var fixed := [DefLine(b.cid), b.pad + PARAMS, "{"];
    FixedRowless(b.cid, b.pad, wide);
    MarksAppend(b.pre, fixed, wide);
    MarksAppend(b.pre + fixed, b.body, wide);
    MarksAppend(b.pre + fixed + b.body, ["}"], wide);
    MarksAppend(b.pre, b.body, wide);
  }

  lemma {:induction false} FlattenMarks(blocks: seq<Block>, wide: char -> bool)
    requires WfBlocks(blocks, wide)
    ensures Marks(Flatten(blocks), wide) == Marks(FreeOf(blocks), wide)
  {
    if blocks != [] {
      var m := |blocks| - 1;
      FlattenMarks(blocks[..m], wide);
      BlockMarks(blocks[m], wide);
      MarksAppend(Flatten(blocks[..m]), BlockLines(blocks[m]), wide);
      MarksAppend(FreeOf(blocks[..m]), blocks[m].pre + blocks[m].body, wide);
    }
  }

  // ---- whole files

  /** The rendered front and definitions, ours and foreign ones, and more lines. */
  function Mixed(frame: Frame, entries: seq<Entry>, blocks: seq<Block>, tail: Lines): Lines {
    FrontLines(frame, entries) + File(blocks, tail)
  }

  /** The free text of such a file. */
  function FreeText(frame: Frame, entries: seq<Entry>, blocks: seq<Block>, tail: Lines): Lines {
    FreeFront(frame, entries) + FreeOf(blocks) + tail
  }

  lemma MixedMarks(frame: Frame, entries: seq<Entry>, blocks: seq<Block>, tail: Lines, wide: char -> bool)
    requires AllCids(entries, wide) && WfBlocks(blocks, wide)
    ensures Marks(Mixed(frame, entries, blocks, tail), wide) ==
      |entries| + Marks(FreeText(frame, entries, blocks, tail), wide)
  {
    FrontAdds(frame, entries, {}, wide);
    FlattenMarks(blocks, wide);
    MarksAppend(FrontLines(frame, entries), File(blocks, tail), wide);
    MarksAppend(Flatten(blocks), tail, wide);
    MarksAppend(FreeFront(frame, entries), FreeOf(blocks), wide);
    MarksAppend(FreeFront(frame, entries) + FreeOf(blocks), tail, wide);
  }

  lemma FrontUnnamed(frame: Frame, entries: seq<Entry>, cids: set<string>, wide: char -> bool)
    requires AllCids(entries, wide)
    ensures Unnamed(FrontLines(frame, entries), cids, wide) <==> Unnamed(FreeFront(frame, entries), cids, wide)
  {
    FrontAdds(frame, entries, cids, wide);
  }

  lemma MixedUnnamed(frame: Frame, entries: seq<Entry>, blocks: seq<Block>, tail: Lines, cids: set<string>,
                     wide: char -> bool)
    requires AllCids(entries, wide)
    ensures Unnamed(FreeText(frame, entries, blocks, tail), cids, wide) <==>
      AllUnnamed(FrontLines(frame, entries), blocks, tail, cids, wide)
  {
    FrontUnnamed(frame, entries, cids, wide);
    UnnamedAppend(FreeFront(frame, entries), FreeOf(blocks), cids, wide);
    UnnamedAppend(FreeFront(frame, entries) + FreeOf(blocks), tail, cids, wide);
  }

  /** The known definitions of such a file are ours and those its free text has. */
  lemma MixedNames(frame: Frame, entries: seq<Entry>, blocks: seq<Block>, tail: Lines, cids: set<string>,
                   wide: char -> bool)
    requires AllCids(entries, wide) && WfBlocks(blocks, wide)
    ensures var names := Known(Mixed(frame, entries, blocks, tail), cids, wide);
      var free := FreeText(frame, entries, blocks, tail);
      && |names| == |Own(blocks, cids)| + |Known(free, cids, wide)|
      && (Unnamed(free, cids, wide) ==> names == BlockCids(Own(blocks, cids)))
  {
    MixedUnnamed(frame, entries, blocks, tail, cids, wide);
    FrontAdds(frame, entries, cids, wide);
    FlattenKnown(blocks, cids, wide);
    KnownAppend(FrontLines(frame, entries), File(blocks, tail), cids, wide);
    KnownAppend(Flatten(blocks), tail, cids, wide);
    KnownAppend(FreeFront(frame, entries), FreeOf(blocks), cids, wide);
    KnownAppend(FreeFront(frame, entries) + FreeOf(blocks), tail, cids, wide);
    if Unnamed(FreeText(frame, entries, blocks, tail), cids, wide) {
      NothingAround(BlockCids(Own(blocks, cids)));
    }
  }

  lemma NothingAround(names: seq<string>)
    ensures [] + (names + []) == names
  {
  }

  /** Nothing in the free text reads like the end of a row, like the definition of one of ours, or, in the
      header, like a declaration. */
  ghost predicate CleanText(frame: Frame, entries: seq<Entry>, blocks: seq<Block>, tail: Lines, wide: char -> bool) {
    var free := FreeText(frame, entries, blocks, tail);
    && Marks(free, wide) == 0 && Unnamed(free, ToSet(Cids(entries)), wide)
    && Silent(HeaderFree(frame, entries), wide)
  }

  lemma ShowsCids(blocks: seq<Block>, entries: seq<Entry>, wide: char -> bool)
    requires ShowsAll(blocks, entries, wide)
    ensures AllCids(entries, wide) && BlockCids(Own(blocks, ToSet(Cids(entries)))) == Cids(entries)
    ensures |ToSet(Cids(entries))| == |entries| == |Cids(entries)|
  {
    DistinctSize(Cids(entries));
  }

  /** The arity check is content with a file and the rendered header exactly when their free text is clean,
      whatever the bodies hold otherwise. */
  lemma ArityExactly(frame: Frame, entries: seq<Entry>, blocks: seq<Block>, tail: Lines, wide: char -> bool)
    requires ShowsAll(blocks, entries, wide)
    ensures CheckArity(Mixed(frame, entries, blocks, tail), Header(frame, entries), entries, wide) == [] <==>
      CleanText(frame, entries, blocks, tail, wide)
  {
    var cids, file, header := ToSet(Cids(entries)), Mixed(frame, entries, blocks, tail), Header(frame, entries);
    ShowsCids(blocks, entries, wide);
    MixedMarks(frame, entries, blocks, tail, wide);
    MixedNames(frame, entries, blocks, tail, cids, wide);
    StripNames(file, None, cids, wide);
    HeaderCounts(frame, entries, wide);
    if Silent(HeaderFree(frame, entries), wide) {
      HeaderNames(frame, entries, wide);
    }
    ArityNone(Marks(file, wide), Known(file, cids, wide), Externs(header, wide), Decls(header, wide), |entries|, cids);
  }

  // ---- rows

  /** These lines stand at index i. */
  predicate At(lines: Lines, i: nat, part: Lines) {
    i <= |lines| && part <= lines[i..]
  }

  lemma AtFront(a: Lines, b: Lines, i: nat, part: Lines)
    requires At(a, i, part)
    ensures At(a + b, i, part)
  {
    assert (a + b)[i..] == a[i..] + b;
  }

  lemma AtBack(a: Lines, b: Lines, i: nat, part: Lines)
    requires At(b, i, part)
    ensures At(a + b, |a| + i, part)
  {
    assert (a + b)[|a| + i..] == b[i..];
  }

  lemma AtLast(a: Lines, part: Lines)
    ensures At(a + part, |a|, part)
  {
    assert (a + part)[|a|..] == part;
  }

  function Chain(parts: seq<Lines>): Lines {
    if parts == [] then [] else Chain(parts[..|parts| - 1]) + parts[|parts| - 1]
  }

  lemma {:induction false} ChainAt(parts: seq<Lines>, k: nat) returns (i: nat)
    requires k < |parts|
    ensures At(Chain(parts), i, parts[k])
  {
    var m := |parts| - 1;
    if k < m {
      i := ChainAt(parts[..m], k);
      AtFront(Chain(parts[..m]), parts[m], i, parts[k]);
    } else {
      i := |Chain(parts[..m])|;
      AtLast(Chain(parts[..m]), parts[k]);
    }
  }

  function RowsOf(members: seq<Entry>): seq<Lines> {
    seq(|members|, i requires 0 <= i < |members| => RowLines(members[i]))
  }

  lemma {:induction false} RowsChain(members: seq<Entry>)
    ensures MemberRows(members) == Chain(RowsOf(members))
  {
    if members != [] {
      var m := |members| - 1;
      RowsChain(members[..m]);
      assert RowsOf(members)[..m] == RowsOf(members[..m]);
    }
  }

  lemma MembersAt(members: seq<Entry>, k: nat) returns (i: nat)
    requires k < |members|
    ensures At(MemberRows(members), i, RowLines(members[k]))
  {
    RowsChain(members);
    i := ChainAt(RowsOf(members), k);
  }

  lemma SectionAt(s: Section, k: nat) returns (i: nat)
    requires k < |s.members|
    ensures At(SectionLines(s), i, RowLines(s.members[k]))
  {
    i := MembersAt(s.members, k);
    AtBack(TitleLines(s.title), MemberRows(s.members), i, RowLines(s.members[k]));
    i := |TitleLines(s.title)| + i;
  }

  lemma {:induction false} TableAt(sections: seq<Section>, e: Entry) returns (i: nat)
    requires e in AllMembers(sections)
    ensures At(TableLines(sections), i, RowLines(e))
  {
    var m := |sections| - 1;
    var last := sections[m];
    if e in last.members {
      var k :| 0 <= k < |last.members| && last.members[k] == e;
      i := SectionAt(last, k);
      AtBack(TableLines(sections[..m]), SectionLines(last), i, RowLines(e));
      i := |TableLines(sections[..m])| + i;
    } else {
      i := TableAt(sections[..m], e);
      AtFront(TableLines(sections[..m]), SectionLines(last), i, RowLines(e));
    }
  }

  lemma FrontAt(frame: Frame, entries: seq<Entry>, e: Entry) returns (i: nat)
    requires e in entries
    ensures At(FrontLines(frame, entries), i, RowLines(e))
  {
    var table := TableLines(Sections(entries));
    var start := frame.head + StorageLines(entries) + frame.table;
    SectionsComplete(entries);
    i := TableAt(Sections(entries), e);
    AtBack(start, table, i, RowLines(e));
    i := |start| + i;
    AtFront(start + table, frame.middle, i, RowLines(e));
  }

  lemma MixedContains(frame: Frame, entries: seq<Entry>, blocks: seq<Block>, tail: Lines, e: Entry)
    requires e in entries
    ensures Contains(FileText(Mixed(frame, entries, blocks, tail)), Join(RowLines(e)))
  {
    var i := FrontAt(frame, entries, e);
    AtFront(FrontLines(frame, entries), File(blocks, tail), i, RowLines(e));
    AtContains(Mixed(frame, entries, blocks, tail), i, RowLines(e));
  }

  lemma {:induction false} FileTextAppend(a: Lines, b: Lines)
    ensures FileText(a + b) == FileText(a) + FileText(b)
  {
    if a == [] {
      assert a + b == b;
    } else {
      assert (a + b)[1..] == a[1..] + b;
      FileTextAppend(a[1..], b);
    }
  }

  lemma {:induction false} JoinIsFileText(lines: Lines)
    requires lines != []
    ensures FileText(lines) == Join(lines) + "\n"
  {
    if |lines| == 1 {
      assert FileText(lines[1..]) == "";
    } else {
      JoinIsFileText(lines[1..]);
    }
  }

  lemma AtContains(lines: Lines, i: nat, part: Lines)
    requires At(lines, i, part) && part != []
    ensures Contains(FileText(lines), Join(part))
  {
    var rest := lines[i..][|part|..];
    assert lines == lines[..i] + lines[i..] && lines[i..] == part + rest;
    FileTextAppend(lines[..i], lines[i..]);
    FileTextAppend(part, rest);
    JoinIsFileText(part);
    var text, n := FileText(lines), |FileText(lines[..i])|;
    assert text[n..] == FileText(lines[i..]) && Join(part) <= text[n..];
  }

  lemma RowsContent(frame: Frame, entries: seq<Entry>, blocks: seq<Block>, tail: Lines)
    ensures CheckRows(Mixed(frame, entries, blocks, tail), entries) == []
  {
    var source := Mixed(frame, entries, blocks, tail);
    forall i | 0 <= i < |entries|
      ensures RowProblem(source, entries[i]) == []
    {
      MixedContains(frame, entries, blocks, tail, entries[i]);
    }
    ConcatNone(seq(|entries|, i requires 0 <= i < |entries| => RowProblem(source, entries[i])));
  }

  // ---- all checks

  /** What the three checks report. */
  function AllProblems(source: Lines, header: Lines, entries: seq<Entry>, wide: char -> bool): seq<Problem> {
    CheckArity(source, header, entries, wide)
    + Concat(BodyProblems(ActualBodies(source, entries, wide), entries, wide))
    + CheckRows(source, entries)
  }

  /** The checks report nothing about a file with the rendered front and our definitions, foreign ones among
      them, exactly when its free text is clean and every body can be read back. */
  lemma MixedExactly(frame: Frame, entries: seq<Entry>, blocks: seq<Block>, tail: Lines, wide: char -> bool)
    requires ShowsAll(blocks, entries, wide)
    ensures AllProblems(Mixed(frame, entries, blocks, tail), Header(frame, entries), entries, wide) == [] <==>
      CleanText(frame, entries, blocks, tail, wide) && forall i :: 0 <= i < |entries| ==> Reads(entries[i], wide)
  {
    ShowsCids(blocks, entries, wide);
    ArityExactly(frame, entries, blocks, tail, wide);
    RowsContent(frame, entries, blocks, tail);
    if CleanText(frame, entries, blocks, tail, wide) {
      MixedUnnamed(frame, entries, blocks, tail, ToSet(Cids(entries)), wide);
      BodiesExactly(FrontLines(frame, entries), blocks, tail, entries, wide);
    }
  }

  /** The definitions of a rendered file. */
  function Rendered(entries: seq<Entry>, wide: char -> bool): seq<Block> {
    BlocksOf(Callbacks(entries, wide))
  }

  lemma {:induction false} OwnAll(blocks: seq<Block>, cids: set<string>)
    requires forall i :: 0 <= i < |blocks| ==> blocks[i].cid in cids
    ensures Own(blocks, cids) == blocks
  {
    if blocks != [] {
      OwnAll(blocks[..|blocks| - 1], cids);
    }
  }

  lemma RenderedAt(entries: seq<Entry>, i: nat, wide: char -> bool)
    requires i < |entries|
    ensures var b := Rendered(entries, wide)[i];
      && b.cid == entries[i].cid == Cids(entries)[i] && AllSpace(b.pad)
      && b.body == NlSplit(ShownBody(entries[i], wide))
  {
    BlocksAt(Callbacks(entries, wide), i);
  }

  lemma RenderedShows(entries: seq<Entry>, wide: char -> bool)
    requires WfEntries(entries, wide)
    ensures ShowsAll(Rendered(entries, wide), entries, wide)
  {
    var blocks := Rendered(entries, wide);
    forall i | 0 <= i < |blocks|
      ensures blocks[i].cid == entries[i].cid == Cids(entries)[i] && WfBlock(blocks[i], wide)
      ensures blocks[i].body == NlSplit(ShownBody(entries[i], wide))
    {
      RenderedAt(entries, i, wide);
    }
    OwnAll(blocks, ToSet(Cids(entries)));
  }

  lemma RenderedMixed(frame: Frame, entries: seq<Entry>, wide: char -> bool)
    ensures Source(frame, entries, wide) == Mixed(frame, entries, Rendered(entries, wide), [])
  {
    NothingAfter(Flatten(Rendered(entries, wide)));
  }

  lemma NothingAfter(lines: Lines)
    ensures lines + [] == lines
  {
  }

  /** The generator and the checks agree: the checks report nothing about the rendered pair exactly when the free
      text of the inventory is clean, every body renders, and no line of a body starts a foreign definition. */
  lemma RenderedExactly(frame: Frame, entries: seq<Entry>, wide: char -> bool)
    requires WfEntries(entries, wide)
    ensures AllProblems(Source(frame, entries, wide), Header(frame, entries), entries, wide) == [] <==>
      && CleanText(frame, entries, Rendered(entries, wide), [], wide)
      && forall i :: 0 <= i < |entries| ==> Reads(entries[i], wide)
    ensures CheckRows(Source(frame, entries, wide), entries) == []
  {
    RenderedShows(entries, wide);
    RenderedMixed(frame, entries, wide);
    MixedExactly(frame, entries, Rendered(entries, wide), [], wide);
    RowsContent(frame, entries, Rendered(entries, wide), []);
  }
}
