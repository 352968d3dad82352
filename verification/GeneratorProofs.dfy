/** The checks agree with the generator: exactly which inventories they pass as rendered. */
module GeneratorProofs {
  import opened Wrappers
  import opened PyText
  import opened BodyText
  import opened VoidCalls
  import opened VoidProofs
  import opened ActionText
  import opened Generator
  import opened Validators
  import opened ValidatorProofs

  // ---- counting entries by section

  function Picked(entries: seq<Entry>, order: seq<string>): seq<Entry> {
    if order == [] then []
    else Picked(entries, order[..|order| - 1]) + Members(entries, order[|order| - 1])
  }

  lemma {:induction false} PickedNext(front: seq<Entry>, e: Entry, order: seq<string>)
    requires forall i, j :: 0 <= i < j < |order| ==> order[i] != order[j]
    ensures |Picked(front + [e], order)| == |Picked(front, order)| + if e.section in order then 1 else 0
  {
    if order != [] {
      var m := |order| - 1;
      PickedNext(front, e, order[..m]);
      assert (front + [e])[..|front|] == front;
      assert order == order[..m] + [order[m]];
    }
  }

  lemma {:induction false} PickedAll(entries: seq<Entry>)
    ensures |Picked(entries, SectionOrder(entries))| == |entries|
  {
    if entries == [] {
      assert SectionOrder(entries) == [];
    } else {
      var m := |entries| - 1;
      var front, e := entries[..m], entries[m];
      assert front + [e] == entries;
      PickedAll(front);
      PickedNext(front, e, SectionOrder(front));
      if e.section !in SectionOrder(front) {
        var order := SectionOrder(entries);
        MembersNonempty(front, e.section);
        assert order[..|order| - 1] == SectionOrder(front);
      }
    }
  }

  lemma {:induction false} MembersIn(entries: seq<Entry>, section: string, e: Entry)
    ensures e in Members(entries, section) <==> e in entries && e.section == section
  {
    if entries != [] {
      MembersIn(entries[..|entries| - 1], section, e);
      assert entries == entries[..|entries| - 1] + [entries[|entries| - 1]];
    }
  }

  lemma {:induction false} PickedIn(entries: seq<Entry>, order: seq<string>, e: Entry)
    ensures e in Picked(entries, order) <==> e in entries && e.section in order
  {
    if order != [] {
      var m := |order| - 1;
      PickedIn(entries, order[..m], e);
      MembersIn(entries, order[m], e);
      assert order == order[..m] + [order[m]];
    }
  }

  function AllMembers(sections: seq<Section>): seq<Entry> {
    if sections == [] then [] else AllMembers(sections[..|sections| - 1]) + sections[|sections| - 1].members
  }

  lemma {:induction false} AllMembersPicked(entries: seq<Entry>, k: nat)
    requires k <= |Sections(entries)|
    ensures AllMembers(Sections(entries)[..k]) == Picked(entries, SectionOrder(entries)[..k])
  {
    if k > 0 {
      AllMembersPicked(entries, k - 1);
      assert Sections(entries)[..k][..k - 1] == Sections(entries)[..k - 1];
      assert SectionOrder(entries)[..k][..k - 1] == SectionOrder(entries)[..k - 1];
    }
  }

  /** Grouping by section loses no entry and repeats none. */
  lemma SectionsComplete(entries: seq<Entry>)
    ensures |AllMembers(Sections(entries))| == |entries|
    ensures forall e :: e in AllMembers(Sections(entries)) <==> e in entries
  {
    var n := |Sections(entries)|;
    AllMembersPicked(entries, n);
    assert Sections(entries)[..n] == Sections(entries) && SectionOrder(entries)[..n] == SectionOrder(entries);
    PickedAll(entries);
    forall e: Entry
      ensures e in Picked(entries, SectionOrder(entries)) <==> e in entries
    {
      PickedIn(entries, SectionOrder(entries), e);
    }
  }

  // ---- table rows

  lemma NamedHas(t: string, prefix: string, suffix: string, i: nat, wide: char -> bool)
    requires Named(t, prefix, suffix, wide).Some? && i < |suffix|
    ensures suffix[i] in t
  {
    var u := t[|prefix|..];
    var n := WordRun(u, wide);
    assert suffix[i] == u[n..][i] == t[|prefix| + n + i];
  }

  lemma {:induction false} MarksNoAmp(t: string, wide: char -> bool)
    requires '&' !in t
    ensures MarksIn(t, wide) == 0
  {
    if t != "" {
      NoAmpNoMark(t, wide);
      MarksNoAmp(t[1..], wide);
    }
  }

  lemma NoAmpNoMark(t: string, wide: char -> bool)
    requires '&' !in t
    ensures RowMark(t, wide).None?
  {
    if Named(t, DEF_PREFIX, ROW_SUFFIX, wide).Some? {
      SuffixAmp();
      NamedHas(t, DEF_PREFIX, ROW_SUFFIX, 2, wide);
    }
  }

  lemma SuffixAmp()
    ensures |ROW_SUFFIX| > 2 && ROW_SUFFIX[2] == '&'
  {
  }

  // ---- names in the header

  lemma {:induction false} NamesAppend(a: Lines, b: Lines, prefix: string, suffix: string, wide: char -> bool)
    ensures Names(a + b, prefix, suffix, wide) == Names(a, prefix, suffix, wide) + Names(b, prefix, suffix, wide)
  {
    if a == [] {
      assert a + b == b;
    } else {
      assert (a + b)[1..] == a[1..] + b;
      NamesAppend(a[1..], b, prefix, suffix, wide);
    }
  }

  function Externs(lines: Lines, wide: char -> bool): seq<string> {
    Names(lines, EXTERN_PREFIX, ";", wide)
  }

  function Decls(lines: Lines, wide: char -> bool): seq<string> {
    Names(lines, DECL_PREFIX, DECL_SUFFIX, wide)
  }

  /** Lines that declare nothing. */
  ghost predicate Silent(lines: Lines, wide: char -> bool) {
    Externs(lines, wide) == [] && Decls(lines, wide) == []
  }

  lemma HeaderAppend(a: Lines, b: Lines, wide: char -> bool)
    ensures Externs(a + b, wide) == Externs(a, wide) + Externs(b, wide)
    ensures Decls(a + b, wide) == Decls(a, wide) + Decls(b, wide)
  {
    NamesAppend(a, b, EXTERN_PREFIX, ";", wide);
    NamesAppend(a, b, DECL_PREFIX, DECL_SUFFIX, wide);
  }

  lemma OtherStart(line: string, wide: char -> bool)
    ensures line == "" || line[0] != 'e' ==> Externs([line], wide) == []
    ensures line == "" || line[0] != 'v' ==> Decls([line], wide) == []
  {
    assert EXTERN_PREFIX[0] == 'e' && DECL_PREFIX[0] == 'v';
    NamesOne(line, EXTERN_PREFIX, ";", wide);
    NamesOne(line, DECL_PREFIX, DECL_SUFFIX, wide);
  }

  lemma NamesOne(line: string, prefix: string, suffix: string, wide: char -> bool)
    ensures var m := Named(line, prefix, suffix, wide);
      Names([line], prefix, suffix, wide) == if m.Some? then [m.value.0] else []
  {
    assert [line][1..] == [];
    assert Names([line][1..], prefix, suffix, wide) == [];
  }

  lemma ExternNamed(cid: string, wide: char -> bool)
    requires IsCid(cid, wide)
    ensures Externs([ExternLine(cid)], wide) == [cid] && Decls([ExternLine(cid)], wide) == []
  {
    NamedIs(EXTERN_PREFIX, cid, ";", "", wide);
    NamesOne(ExternLine(cid), EXTERN_PREFIX, ";", wide);
    assert ExternLine(cid)[0] == EXTERN_PREFIX[0] == 'e';
    OtherStart(ExternLine(cid), wide);
  }

  lemma DeclNamed(cid: string, more: string, wide: char -> bool)
    requires IsCid(cid, wide) && more != "" && more[0] == ' '
    ensures Decls([DeclLine(cid), more], wide) == [cid] && Externs([DeclLine(cid), more], wide) == []
  {
    NamedIs(DECL_PREFIX, cid, DECL_SUFFIX, " *action,", wide);
    NamesOne(DeclLine(cid), DECL_PREFIX, DECL_SUFFIX, wide);
    assert DeclLine(cid)[0] == DECL_PREFIX[0] == 'v';
    OtherStart(DeclLine(cid), wide);
    OtherStart(more, wide);
    HeaderAppend([DeclLine(cid)], [more], wide);
  }

  lemma ExternStep(a: Lines, cids: seq<string>, cid: string, wide: char -> bool)
    requires Externs(a, wide) == cids && Decls(a, wide) == [] && IsCid(cid, wide)
    ensures Externs(a + [ExternLine(cid)], wide) == cids + [cid] && Decls(a + [ExternLine(cid)], wide) == []
  {
    ExternNamed(cid, wide);
    HeaderAppend(a, [ExternLine(cid)], wide);
  }

  lemma CidsSnoc(members: seq<Entry>)
    requires members != []
    ensures Cids(members) == Cids(members[..|members| - 1]) + [members[|members| - 1].cid]
  {
  }

  lemma {:induction false} ExternNames(members: seq<Entry>, wide: char -> bool)
    requires forall i :: 0 <= i < |members| ==> IsCid(members[i].cid, wide)
    ensures Externs(ExternLines(members), wide) == Cids(members) && Decls(ExternLines(members), wide) == []
  {
    if members != [] {
      var m := |members| - 1;
      ExternNames(members[..m], wide);
      CidsSnoc(members);
      ExternStep(ExternLines(members[..m]), Cids(members[..m]), members[m].cid, wide);
    }
  }

  lemma DeclStep(a: Lines, cids: seq<string>, cid: string, wide: char -> bool)
    requires Decls(a, wide) == cids && Externs(a, wide) == [] && IsCid(cid, wide)
    ensures var more := a + DeclPair(cid); Decls(more, wide) == cids + [cid] && Externs(more, wide) == []
  {
    PadStart(cid);
    DeclNamed(cid, DeclPair(cid)[1], wide);
    HeaderAppend(a, DeclPair(cid), wide);
  }

  lemma PadStart(cid: string)
    ensures var more := DeclPair(cid)[1]; more != "" && more[0] == ' '
  {
  }

  lemma {:induction false} DeclNames(members: seq<Entry>, wide: char -> bool)
    requires forall i :: 0 <= i < |members| ==> IsCid(members[i].cid, wide)
    ensures Decls(DeclLines(members), wide) == Cids(members) && Externs(DeclLines(members), wide) == []
  {
    if members != [] {
      var m := |members| - 1;
      DeclNames(members[..m], wide);
      CidsSnoc(members);
      DeclStep(DeclLines(members[..m]), Cids(members[..m]), members[m].cid, wide);
    }
  }

  lemma SectionNames(s: Section, wide: char -> bool)
    requires Silent(HeadingLines(s.title), wide)
    requires forall i :: 0 <= i < |s.members| ==> IsCid(s.members[i].cid, wide)
    ensures Externs(HeaderSection(s), wide) == Cids(s.members) && Decls(HeaderSection(s), wide) == Cids(s.members)
  {
    var a, b := HeadingLines(s.title), ExternLines(s.members);
    ExternNames(s.members, wide);
    DeclNames(s.members, wide);
    OtherStart("", wide);
    HeaderAppend(a, b, wide);
    HeaderAppend(a + b, [""], wide);
    HeaderAppend(a + b + [""], DeclLines(s.members), wide);
  }

  lemma {:induction false} SectionsNames(sections: seq<Section>, wide: char -> bool)
    requires forall i :: 0 <= i < |sections| ==> Silent(HeadingLines(sections[i].title), wide)
    requires forall e :: e in AllMembers(sections) ==> IsCid(e.cid, wide)
    ensures Externs(HeaderSections(sections), wide) == Cids(AllMembers(sections))
    ensures Decls(HeaderSections(sections), wide) == Cids(AllMembers(sections))
  {
    if sections != [] {
      var m := |sections| - 1;
      var last := sections[m];
      assert forall e :: e in AllMembers(sections[..m]) ==> e in AllMembers(sections);
      assert forall i :: 0 <= i < |last.members| ==> last.members[i] in AllMembers(sections);
      SectionsNames(sections[..m], wide);
      SectionNames(last, wide);
      HeaderAppend(HeaderSections(sections[..m]), HeaderSection(last), wide);
      CidsAppend(AllMembers(sections[..m]), last.members);
    }
  }

  lemma CidsAppend(a: seq<Entry>, b: seq<Entry>)
    ensures Cids(a + b) == Cids(a) + Cids(b)
  {
  }

  lemma CidsSame(a: seq<Entry>, b: seq<Entry>)
    requires forall e :: e in a <==> e in b
    ensures ToSet(Cids(a)) == ToSet(Cids(b))
  {
    forall n
      ensures n in Cids(a) <==> n in Cids(b)
    {
      if n in Cids(a) {
        var i :| 0 <= i < |a| && Cids(a)[i] == n;
        assert a[i] in b;
        var j :| 0 <= j < |b| && b[j] == a[i];
        assert Cids(b)[j] == n;
      }
      if n in Cids(b) {
        var i :| 0 <= i < |b| && Cids(b)[i] == n;
        assert b[i] in a;
        var j :| 0 <= j < |a| && a[j] == b[i];
        assert Cids(a)[j] == n;
      }
    }
  }

  /** The headings of the header's sections. */
  function Headings(sections: seq<Section>): Lines {
    if sections == [] then []
    else Headings(sections[..|sections| - 1]) + HeadingLines(sections[|sections| - 1].title)
  }

  /** The free text of the header: all but the declarations. */
  function HeaderFree(frame: Frame, entries: seq<Entry>): Lines {
    frame.top + Headings(Sections(entries)) + frame.bottom
  }

  ghost predicate AllCids(entries: seq<Entry>, wide: char -> bool) {
    forall i :: 0 <= i < |entries| ==> IsCid(entries[i].cid, wide)
  }

  lemma SectionCounts(s: Section, wide: char -> bool)
    requires AllCids(s.members, wide)
    ensures |Externs(HeaderSection(s), wide)| == |Externs(HeadingLines(s.title), wide)| + |s.members|
    ensures |Decls(HeaderSection(s), wide)| == |Decls(HeadingLines(s.title), wide)| + |s.members|
  {
    var a, b := HeadingLines(s.title), ExternLines(s.members);
    ExternNames(s.members, wide);
    DeclNames(s.members, wide);
    OtherStart("", wide);
    HeaderAppend(a, b, wide);
    HeaderAppend(a + b, [""], wide);
    HeaderAppend(a + b + [""], DeclLines(s.members), wide);
  }

  lemma {:induction false} SectionsCounts(sections: seq<Section>, wide: char -> bool)
    requires forall e :: e in AllMembers(sections) ==> IsCid(e.cid, wide)
    ensures |Externs(HeaderSections(sections), wide)| == |Externs(Headings(sections), wide)| + |AllMembers(sections)|
    ensures |Decls(HeaderSections(sections), wide)| == |Decls(Headings(sections), wide)| + |AllMembers(sections)|
  {
    if sections != [] {
      var m := |sections| - 1;
      var last := sections[m];
      assert forall e :: e in AllMembers(sections[..m]) ==> e in AllMembers(sections);
      assert forall i :: 0 <= i < |last.members| ==> last.members[i] in AllMembers(sections);
      SectionsCounts(sections[..m], wide);
      SectionCounts(last, wide);
      HeaderAppend(HeaderSections(sections[..m]), HeaderSection(last), wide);
      HeaderAppend(Headings(sections[..m]), HeadingLines(last.title), wide);
    }
  }

  lemma {:induction false} SilentHeadings(sections: seq<Section>, wide: char -> bool)
    requires Silent(Headings(sections), wide)
    ensures forall i :: 0 <= i < |sections| ==> Silent(HeadingLines(sections[i].title), wide)
  {
    if sections != [] {
      var m := |sections| - 1;
      HeaderAppend(Headings(sections[..m]), HeadingLines(sections[m].title), wide);
      SilentHeadings(sections[..m], wide);
      forall i | 0 <= i < |sections|
        ensures Silent(HeadingLines(sections[i].title), wide)
      {
        assert i < m ==> sections[..m][i] == sections[i];
      }
    }
  }

  lemma MembersCids(entries: seq<Entry>, wide: char -> bool)
    requires AllCids(entries, wide)
    ensures forall e :: e in AllMembers(Sections(entries)) ==> IsCid(e.cid, wide)
  {
    SectionsComplete(entries);
  }

  /** The header declares every entry, and whatever its free text declares. */
  lemma HeaderCounts(frame: Frame, entries: seq<Entry>, wide: char -> bool)
    requires AllCids(entries, wide)
    ensures |Externs(Header(frame, entries), wide)| == |entries| + |Externs(HeaderFree(frame, entries), wide)|
    ensures |Decls(Header(frame, entries), wide)| == |entries| + |Decls(HeaderFree(frame, entries), wide)|
  {
    var sections := Sections(entries);
    SectionsComplete(entries);
    MembersCids(entries, wide);
    SectionsCounts(sections, wide);
    HeaderAppend(frame.top, HeaderSections(sections), wide);
    HeaderAppend(frame.top + HeaderSections(sections), frame.bottom, wide);
    HeaderAppend(frame.top, Headings(sections), wide);
    HeaderAppend(frame.top + Headings(sections), frame.bottom, wide);
  }

  /** With free text that declares nothing, the header declares every entry once and nothing else. */
  lemma HeaderNames(frame: Frame, entries: seq<Entry>, wide: char -> bool)
    requires AllCids(entries, wide) && Silent(HeaderFree(frame, entries), wide)
    ensures |Externs(Header(frame, entries), wide)| == |entries| == |Decls(Header(frame, entries), wide)|
    ensures ToSet(Externs(Header(frame, entries), wide)) == ToSet(Cids(entries)) ==
      ToSet(Decls(Header(frame, entries), wide))
  {
    var sections := Sections(entries);
    SectionsComplete(entries);
    MembersCids(entries, wide);
    CidsSame(AllMembers(sections), entries);
    HeaderAppend(frame.top, Headings(sections), wide);
    HeaderAppend(frame.top + Headings(sections), frame.bottom, wide);
    SilentHeadings(sections, wide);
    SectionsNames(sections, wide);
    HeaderAppend(frame.top, HeaderSections(sections), wide);
    HeaderAppend(frame.top + HeaderSections(sections), frame.bottom, wide);
    assert Externs(Header(frame, entries), wide) == Cids(AllMembers(sections)) == Decls(Header(frame, entries), wide);
  }
}
