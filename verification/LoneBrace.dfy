/** An inventory on which the checks and the splice fail: a body with a line that is a lone closing brace. */
module LoneBrace {
  import opened Sequences
  import opened Wrappers
  import opened PyText
  import opened BodyText
  import opened VoidCalls
  import opened VoidProofs
  import opened ActionText
  import opened Generator
  import opened Validators
  import opened ValidatorProofs
  import opened ChecksAgree
  import opened RenderedChecks
  import opened Units

  const BRACED: string := ";\n}"

  /** An action whose body has a line that is a lone closing brace. */
  const LONE: Entry := Entry("a", "", "", "", "", "", "", "", "", "", "", BRACED)

  const BARE: Frame := Frame([], [], [], [], [])

  lemma BracedSplit()
    ensures NlSplit(BRACED) == [";", "}"]
  {
    var t, u := "\n}", "}";
    SplitOne(u);
    assert t[1..] == u && NlSplit(t) == [""] + [u];
    assert BRACED[1..] == t && [";"[0]] + "" == ";";
    assert NlSplit(t)[1..] == [u];
  }

  lemma BracedLines()
    ensures SplitLines(BRACED) == [";", "}"] && Join([";", "}"]) == BRACED
  {
    assert BRACED[1..] == "\n}" && BRACED[1..][1..] == "}" && "}"[1..] == "";
    assert FindBreak("\n}") == 0 && FindBreak(BRACED) == 1 && FindBreak("}") == 1;
    assert BRACED[..1] == ";" && BRACED[2..] == "}";
    assert SplitLines("}") == ["}"];
    assert [";", "}"][1..] == ["}"];
  }

  lemma BracedNormal()
    ensures Normalize(BRACED) == BRACED
  {
    BracedLines();
    assert Rstrip(";") == ";" && Rstrip("}") == "}";
    assert StripEach([";", "}"]) == [";", "}"];
  }

  lemma BracedRewrite(wide: char -> bool)
    ensures Rewrite(BRACED, wide) == BRACED
  {
    assert BRACED[1..] == "\n}" && BRACED[1..][1..] == "}" && "}"[1..] == "";
    assert Sub(IsWord('\n', wide), "}", wide) == "}";
    assert Sub(IsWord(';', wide), "\n}", wide) == "\n}";
  }

  lemma BracedSplices(wide: char -> bool)
    ensures !Splices(LONE, wide) && !Renders(LONE, wide)
  {
    BracedRewrite(wide);
    BracedSplit();
  }

  lemma QuietSplit(t: string, wide: char -> bool)
    requires '\n' !in t && (t == "" || t[0] != 'a')
    ensures Quiet(NlSplit(t), wide)
  {
    SplitOne(t);
    QuietLine(t, wide);
  }

  lemma LoneSections()
    ensures Sections([LONE]) == [Section("", [LONE])]
  {
    var es := [LONE];
    assert es[..0] == [] && SectionOrder(es[..0]) == [] && Members(es[..0], "") == [];
    assert SectionOrder(es) == [""] && Members(es, "") == [LONE];
  }

  lemma LoneTitle(wide: char -> bool)
    ensures Quiet(TitleLines(""), wide)
  {
    var t, u := "\n  /* " + "" + " */", "  /* " + " */";
    assert '\n' !in "  /* " && '\n' !in " */";
    QuietSplit(u, wide);
    QuietLine("", wide);
    assert t[1..] == u && NlSplit(t) == [""] + NlSplit(u);
  }

  lemma {:induction false} BlankCommas(raw: seq<string>)
    requires forall i :: 0 <= i < |raw| ==> raw[i] == ""
    ensures '\n' !in Commas(raw)
  {
    if raw != [] {
      assert CExpr(raw[0]) == "";
      BlankCommas(raw[1..]);
    }
  }

  lemma LoneRow(wide: char -> bool)
    ensures Quiet(NlSplit(RowFront(LONE)), wide)
  {
    BlankCommas(["", "", "", "", "", ""]);
    assert '\n' !in "  {" && RowFront(LONE)[0] == ' ';
    QuietSplit(RowFront(LONE), wide);
  }

  lemma LoneTable(wide: char -> bool)
    ensures Unnamed(FreeFront(BARE, [LONE]), {"a"}, wide)
  {
    var rows := NlSplit(RowFront(LONE));
    var es, ss := [LONE], [Section("", [LONE])];
    LoneSections();
    LoneTitle(wide);
    LoneRow(wide);
    QuietUnnamed(rows, {"a"}, wide);
    QuietUnnamed(TitleLines(""), {"a"}, wide);
    UnnamedAppend(TitleLines(""), rows, {"a"}, wide);
    assert es[..0] == [] && FreeRows(es[..0]) == [] && [] + rows == rows;
    assert ss[..0] == [] && FreeTable(ss[..0]) == [];
    assert FreeTable(ss) == TitleLines("") + rows;
    assert FreeFront(BARE, es) == FreeTable(ss);
  }

  lemma FirstPre(entries: seq<Entry>, wide: char -> bool)
    requires entries != [] && entries[0].comment == ""
    ensures Rendered(entries, wide)[0].pre == ["", "void"]
  {
    BlocksAt(Callbacks(entries, wide), 0);
  }

  lemma LoneShown(wide: char -> bool)
    ensures ShownBody(LONE, wide) == BRACED
  {
    BracedRewrite(wide);
    assert Spaces(BRACED) == 0 && BRACED[0..] == BRACED && Rstrip(BRACED) == BRACED;
  }

  lemma LoneBlock(wide: char -> bool)
    ensures var b := Rendered([LONE], wide)[0]; b.pre == ["", "void"] && b.body == [";", "}"]
  {
    var entries := [LONE];
    RenderedAt(entries, 0, wide);
    FirstPre(entries, wide);
    LoneShown(wide);
    BracedSplit();
  }

  lemma FixedQuiet(wide: char -> bool)
    ensures Quiet(["", "void", ";", "}"], wide)
  {
    QuietLine("", wide);
    QuietLine("void", wide);
    QuietLine(";", wide);
    QuietLine("}", wide);
  }

  lemma FreeOne(b: Block)
    ensures FreeOf([b]) == b.pre + b.body
  {
    assert [b][..0] == [] && FreeOf([b][..0]) == [];
  }

  lemma LoneFree(wide: char -> bool)
    ensures Unnamed(FreeText(BARE, [LONE], Rendered([LONE], wide), []), {"a"}, wide)
  {
    var blocks := Rendered([LONE], wide);
    var free := FreeOf(blocks);
    LoneBlock(wide);
    FreeOne(blocks[0]);
    assert blocks == [blocks[0]] && ["", "void"] + [";", "}"] == ["", "void", ";", "}"];
    FixedQuiet(wide);
    QuietUnnamed(free, {"a"}, wide);
    LoneTable(wide);
    UnnamedAppend(FreeFront(BARE, [LONE]), free, {"a"}, wide);
    NothingAfter(FreeFront(BARE, [LONE]) + free);
  }

  lemma LoneWf(wide: char -> bool)
    ensures WfEntries([LONE], wide) && Accepted(LONE, BRACED, wide) && ToSet(Cids([LONE])) == {"a"}
  {
    BracedNormal();
    BracedRewrite(wide);
    assert Cids([LONE]) == ["a"];
  }

  lemma LoneChecked(entries: seq<Entry>, blocks: seq<Block>, wide: char -> bool)
    requires WfEntries(entries, wide) && blocks == Rendered(entries, wide)
    requires Unnamed(FreeText(BARE, entries, blocks, []), ToSet(Cids(entries)), wide)
    requires entries != [] && !Renders(entries[0], wide)
    ensures Concat(BodyProblems(ActualBodies(Source(BARE, entries, wide), entries, wide), entries, wide)) != []
  {
    RenderedShows(entries, wide);
    RenderedMixed(BARE, entries, wide);
    MixedUnnamed(BARE, entries, blocks, [], ToSet(Cids(entries)), wide);
    BodiesExactly(FrontLines(BARE, entries), blocks, [], entries, wide);
    assert !Reads(entries[0], wide);
  }

  lemma LoneSpliced(entries: seq<Entry>, body: string, wide: char -> bool)
    requires WfEntries(entries, wide)
    requires Unnamed(FreeText(BARE, entries, Rendered(entries, wide), []), ToSet(Cids(entries)), wide)
    requires entries != [] && !Splices(entries[0], wide) && Accepted(entries[0], body, wide)
    ensures Apply(Source(BARE, entries, wide), entries[0].cid, body, wide).Written?
  {
    FreeFirst(BARE, entries, 0, wide);
    ApplyExactly(BARE, entries, 0, body, wide);
  }

  /** Rendered on its own this action passes neither check nor splice: the body check reports it, and the
      oracle's own body as reply, which is accepted, changes the file. */
  lemma LoneBraceFails(wide: char -> bool)
    ensures WfEntries([LONE], wide) && Accepted(LONE, BRACED, wide)
    ensures var source := Source(BARE, [LONE], wide);
      && Concat(BodyProblems(ActualBodies(source, [LONE], wide), [LONE], wide)) != []
      && Apply(source, "a", BRACED, wide).Written?
  {
    var entries := [LONE];
    LoneWf(wide);
    BracedSplices(wide);
    LoneFree(wide);
    LoneChecked(entries, Rendered(entries, wide), wide);
    LoneSpliced(entries, BRACED, wide);
  }
}
