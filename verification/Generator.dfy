/** Rendering actions.c and actions.h from the inventory. */
module Generator {
  import opened Wrappers
  import opened PyText
  import opened BodyText
  import opened VoidCalls
  import opened ActionText
  import opened Sequences

  datatype Entry = Entry(cid: string, id: string, icon: string, name: string, text: string, menu: string,
                         tooltip: string, kind: string, section: string, title: string, comment: string, body: string)

  /** The fixed parts of the two files: before the storage lines, before the table, after it; the head of
      the header and its end. */
  datatype Frame = Frame(head: Lines, table: Lines, middle: Lines, top: Lines, bottom: Lines)

  // ---- table rows

  /** An oracle argument for a static initialiser: translation is marked, not done. */
  function CExpr(raw: string): string {
    var e := Strip(raw);
    if "_(" <= e then "N" + e else e
  }

  /** Each argument and a comma, with spaces between. */
  function Commas(raw: seq<string>): string {
    if raw == [] then "" else " " + CExpr(raw[0]) + "," + Commas(raw[1..])
  }

  function RowFront(e: Entry): string {
    "  {" + Commas([e.id, e.icon, e.name, e.text, e.menu, e.tooltip]) + " " + e.kind + ","
  }

  /** _spec_row, as lines. */
  function RowLines(e: Entry): Lines {
    NlSplit(RowFront(e)) + [RowEnd(e.cid)]
  }

  // ---- sections

  function Members(entries: seq<Entry>, section: string): seq<Entry> {
    if entries == [] then []
    else
      var front := Members(entries[..|entries| - 1], section);
      var e := entries[|entries| - 1];
      if e.section == section then front + [e] else front
  }

  /** Section names in order of first appearance. */
  function SectionOrder(entries: seq<Entry>): (order: seq<string>)
    ensures forall i, j :: 0 <= i < j < |order| ==> order[i] != order[j]
    ensures forall i :: 0 <= i < |entries| ==> entries[i].section in order
  {
    if entries == [] then []
    else
      var front := SectionOrder(entries[..|entries| - 1]);
      var s := entries[|entries| - 1].section;
      if s in front then front else front + [s]
  }

  lemma {:induction false} MembersNonempty(entries: seq<Entry>, section: string)
    ensures Members(entries, section) != [] <==> section in SectionOrder(entries)
  {
    if entries != [] {
      MembersNonempty(entries[..|entries| - 1], section);
    }
  }

  datatype Section = Section(title: string, members: seq<Entry>)

  /** _sections: entries grouped by section. */
  function Sections(entries: seq<Entry>): seq<Section> {
    var order := SectionOrder(entries);
    seq(|order|, i requires 0 <= i < |order| =>
      MembersNonempty(entries, order[i]);
      Section(Members(entries, order[i])[0].title, Members(entries, order[i])))
  }

  type Groups = map<string, Section>

  /** What the dictionary holds under one section name. */
  ghost predicate GroupedAt(entries: seq<Entry>, groups: Groups, s: string) {
    && (s in groups <==> Members(entries, s) != [])
    && (s in groups ==> groups[s].members == Members(entries, s) && groups[s].title == Members(entries, s)[0].title)
  }

  /** What the dictionary and its key order hold after these entries. */
  ghost predicate Grouped(entries: seq<Entry>, order: seq<string>, groups: Groups) {
    order == SectionOrder(entries) && forall s :: GroupedAt(entries, groups, s)
  }

  lemma OrderNext(entries: seq<Entry>, e: Entry)
    ensures SectionOrder(entries + [e]) ==
      if e.section in SectionOrder(entries) then SectionOrder(entries) else SectionOrder(entries) + [e.section]
  {
    assert (entries + [e])[..|entries|] == entries;
  }

  lemma MembersNext(entries: seq<Entry>, e: Entry, s: string)
    ensures Members(entries + [e], s) == if e.section == s then Members(entries, s) + [e] else Members(entries, s)
  {
    assert (entries + [e])[..|entries|] == entries;
  }

  lemma GroupedNext(entries: seq<Entry>, e: Entry, groups: Groups, section: Section, s: string)
    requires GroupedAt(entries, groups, s) && section.members == Members(entries, e.section) + [e]
    requires section.title == section.members[0].title
    ensures GroupedAt(entries + [e], groups[e.section := section], s)
  {
    MembersNext(entries, e, s);
  }

  method AddToGroup(ghost entries: seq<Entry>, e: Entry, order: seq<string>, groups: Groups)
    returns (order': seq<string>, groups': Groups)
    requires Grouped(entries, order, groups)
    ensures Grouped(entries + [e], order', groups')
  {
    assert GroupedAt(entries, groups, e.section);
    MembersNonempty(entries, e.section);
    OrderNext(entries, e);
    order', groups' := order, groups;
    if e.section !in groups' {
      groups' := groups'[e.section := Section(e.title, [])];
      order' := order' + [e.section];
    }
    var section := groups'[e.section].(members := groups'[e.section].members + [e]);
    groups' := groups'[e.section := section];
    forall s
      ensures GroupedAt(entries + [e], groups', s)
    {
      GroupedNext(entries, e, groups, section, s);
      assert groups' == groups[e.section := section];
    }
  }

  method GroupSections(entries: seq<Entry>) returns (sections: seq<Section>)
    ensures sections == Sections(entries)
  {
    var order: seq<string> := [];
    var groups: Groups := map[];
    for i := 0 to |entries|
      invariant Grouped(entries[..i], order, groups)
    {
      assert entries[..i] + [entries[i]] == entries[..i + 1];
      order, groups := AddToGroup(entries[..i], entries[i], order, groups);
    }
    assert entries[..|entries|] == entries;
    sections := [];
    for i := 0 to |order|
      invariant sections == Sections(entries)[..i]
    {
      MembersNonempty(entries, order[i]);
      assert GroupedAt(entries, groups, order[i]);
      sections := sections + [groups[order[i]]];
    }
  }

  // ---- actions.c

  function StorageLines(entries: seq<Entry>): Lines {
    seq(|entries|, i requires 0 <= i < |entries| => "GschemAction *action_" + entries[i].cid + " = NULL;")
  }

  function MemberRows(members: seq<Entry>): Lines {
    if members == [] then [] else MemberRows(members[..|members| - 1]) + RowLines(members[|members| - 1])
  }

  function TitleLines(title: string): Lines {
    NlSplit("\n  /* " + title + " */")
  }

  function SectionLines(s: Section): Lines {
    TitleLines(s.title) + MemberRows(s.members)
  }

  function TableLines(sections: seq<Section>): Lines {
    if sections == [] then []
    else TableLines(sections[..|sections| - 1]) + SectionLines(sections[|sections| - 1])
  }

  const NO_OP: string := "  /* no-op */"

  /** The body as rendered: rewritten, or a comment when nothing is left to render. */
  function ShownBody(e: Entry, wide: char -> bool): string {
    var body := Rewrite(e.body, wide);
    if Strip(body) == "" then NO_OP else body
  }

  function Pad(cid: string): string {
    seq(|DEF_PREFIX| + |cid| + 1, i => ' ')
  }

  /** A definition: the lines before it, the cid, the indentation of its second line, and its body. */
  datatype Block = Block(pre: Lines, cid: string, pad: string, body: Lines)

  function BlockLines(b: Block): Lines {
    b.pre + [DefLine(b.cid), b.pad + PARAMS, "{"] + b.body + ["}"]
  }

  function CommentLines(comment: string): Lines {
    if comment == "" then [] else [""] + NlSplit(comment) + [""]
  }

  /** What is rendered of an entry: its comment with blank lines around it, and its body. */
  datatype Callback = Callback(cid: string, comment: Lines, body: Lines)

  function CallbackOf(e: Entry, wide: char -> bool): Callback {
    Callback(e.cid, CommentLines(e.comment), NlSplit(ShownBody(e, wide)))
  }

  function Callbacks(entries: seq<Entry>, wide: char -> bool): seq<Callback> {
    seq(|entries|, i requires 0 <= i < |entries| => CallbackOf(entries[i], wide))
  }

  /** A callback as rendered; a blank line separates it from one before it. */
  function BlockOf(c: Callback, first: bool): Block {
    Block((if first then [] else [""]) + c.comment + ["", "void"], c.cid, Pad(c.cid), c.body)
  }

  function BlocksOf(callbacks: seq<Callback>): (blocks: seq<Block>)
    ensures |blocks| == |callbacks|
  {
    if callbacks == [] then []
    else
      var m := |callbacks| - 1;
      BlocksOf(callbacks[..m]) + [BlockOf(callbacks[m], m == 0)]
  }

  lemma {:induction false} BlocksAt(callbacks: seq<Callback>, i: nat)
    requires i < |callbacks|
    ensures BlocksOf(callbacks)[i] == BlockOf(callbacks[i], i == 0)
  {
    var m := |callbacks| - 1;
    if i < m {
      BlocksAt(callbacks[..m], i);
    }
  }

  function Flatten(blocks: seq<Block>): Lines {
    if blocks == [] then [] else Flatten(blocks[..|blocks| - 1]) + BlockLines(blocks[|blocks| - 1])
  }

  /** Everything before the first callback. */
  function FrontLines(frame: Frame, entries: seq<Entry>): Lines {
    frame.head + StorageLines(entries) + frame.table + TableLines(Sections(entries)) + frame.middle
  }

  /** actions.c. */
  function Source(frame: Frame, entries: seq<Entry>, wide: char -> bool): Lines {
    FrontLines(frame, entries) + Flatten(BlocksOf(Callbacks(entries, wide)))
  }

  lemma FlattenLast(front: seq<Block>, last: Block)
    ensures Flatten(front + [last]) == Flatten(front) + BlockLines(last)
  {
    assert (front + [last])[..|front|] == front;
  }

  lemma FlattenNext(callbacks: seq<Callback>, i: nat)
    requires i < |callbacks|
    ensures Flatten(BlocksOf(callbacks[..i + 1])) ==
      Flatten(BlocksOf(callbacks[..i])) + BlockLines(BlockOf(callbacks[i], i == 0))
  {
    assert callbacks[..i + 1][..i] == callbacks[..i];
    FlattenLast(BlocksOf(callbacks[..i]), BlockOf(callbacks[i], i == 0));
  }

  lemma MemberRowsNext(members: seq<Entry>, k: nat)
    requires k < |members|
    ensures MemberRows(members[..k + 1]) == MemberRows(members[..k]) + RowLines(members[k])
  {
    assert members[..k + 1][..k] == members[..k];
  }

  method RenderMembers(members: seq<Entry>) returns (lines: Lines)
    ensures lines == MemberRows(members)
  {
    lines := [];
    for k := 0 to |members|
      invariant lines == MemberRows(members[..k])
    {
      MemberRowsNext(members, k);
      lines := lines + RowLines(members[k]);
    }
    assert members[..|members|] == members;
  }

  lemma TableLinesNext(sections: seq<Section>, i: nat)
    requires i < |sections|
    ensures TableLines(sections[..i + 1]) == TableLines(sections[..i]) + SectionLines(sections[i])
  {
    assert sections[..i + 1][..i] == sections[..i];
  }

  method RenderTable(sections: seq<Section>) returns (lines: Lines)
    ensures lines == TableLines(sections)
  {
    lines := [];
    for i := 0 to |sections|
      invariant lines == TableLines(sections[..i])
    {
      TableLinesNext(sections, i);
      var rows := RenderMembers(sections[i].members);
      lines := lines + (TitleLines(sections[i].title) + rows);
    }
    assert sections[..|sections|] == sections;
  }

  method RenderStorage(entries: seq<Entry>) returns (lines: Lines)
    ensures lines == StorageLines(entries)
  {
    lines := [];
    for i := 0 to |entries|
      invariant lines == StorageLines(entries)[..i]
    {
      lines := lines + ["GschemAction *action_" + entries[i].cid + " = NULL;"];
    }
  }

  method RenderFront(frame: Frame, entries: seq<Entry>) returns (lines: Lines)
    ensures lines == FrontLines(frame, entries)
  {
    var storage := RenderStorage(entries);
    var sections := GroupSections(entries);
    var table := RenderTable(sections);
    lines := frame.head + storage + frame.table + table + frame.middle;
  }

  method RenderBlock(e: Entry, first: bool, wide: char -> bool) returns (lines: Lines)
    ensures lines == BlockLines(BlockOf(CallbackOf(e, wide), first))
  {
    var body := Rewrite(e.body, wide);
    if Strip(body) == "" {
      body := NO_OP;
    }
    var pre := (if first then [] else [""]) + CommentLines(e.comment) + ["", "void"];
    lines := pre + [DefLine(e.cid), Pad(e.cid) + PARAMS, "{"] + NlSplit(body) + ["}"];
  }

  /** render_source; the blank line after the last definition only ends the file. */
  method RenderSource(frame: Frame, entries: seq<Entry>, wide: char -> bool) returns (lines: Lines)
    ensures lines == Source(frame, entries, wide)
  {
    lines := RenderFront(frame, entries);
    ghost var front, callbacks := lines, Callbacks(entries, wide);
    for i := 0 to |entries|
      invariant lines == front + Flatten(BlocksOf(callbacks[..i]))
    {
      var block := RenderBlock(entries[i], i == 0, wide);
      FlattenNext(callbacks, i);
      Associative(front, Flatten(BlocksOf(callbacks[..i])), block);
      lines := lines + block;
    }
    assert callbacks[..|entries|] == callbacks;
  }

  // ---- actions.h

  const EXTERN_PREFIX: string := "extern GschemAction *action_"

  const DECL_PREFIX: string := "void action_callback_"

  const DECL_SUFFIX: string := " (GschemAction"

  function ExternLine(cid: string): string {
    EXTERN_PREFIX + (cid + (";" + ""))
  }

  function DeclLine(cid: string): string {
    DECL_PREFIX + (cid + (DECL_SUFFIX + " *action,"))
  }

  function ExternLines(members: seq<Entry>): Lines {
    if members == [] then [] else ExternLines(members[..|members| - 1]) + [ExternLine(members[|members| - 1].cid)]
  }

  /** The two lines of a declaration. */
  function DeclPair(cid: string): Lines {
    [DeclLine(cid), seq(|DECL_PREFIX| + |cid| + 1, i => ' ') + PARAMS + ";"]
  }

  function DeclLines(members: seq<Entry>): Lines {
    if members == [] then [] else DeclLines(members[..|members| - 1]) + DeclPair(members[|members| - 1].cid)
  }

  function HeadingLines(title: string): Lines {
    NlSplit("\n/* " + title + " */\n")
  }

  function HeaderSection(s: Section): Lines {
    HeadingLines(s.title) + ExternLines(s.members) + [""] + DeclLines(s.members)
  }

  function HeaderSections(sections: seq<Section>): Lines {
    if sections == [] then []
    else HeaderSections(sections[..|sections| - 1]) + HeaderSection(sections[|sections| - 1])
  }

  /** actions.h. */
  function Header(frame: Frame, entries: seq<Entry>): Lines {
    frame.top + HeaderSections(Sections(entries)) + frame.bottom
  }

  lemma ExternLinesNext(members: seq<Entry>, k: nat)
    requires k < |members|
    ensures ExternLines(members[..k + 1]) == ExternLines(members[..k]) + [ExternLine(members[k].cid)]
    ensures DeclLines(members[..k + 1]) == DeclLines(members[..k]) + DeclPair(members[k].cid)
  {
    assert members[..k + 1][..k] == members[..k];
  }

  method RenderHeaderSection(s: Section) returns (lines: Lines)
    ensures lines == HeaderSection(s)
  {
    var externs: Lines := [];
    for k := 0 to |s.members|
      invariant externs == ExternLines(s.members[..k])
    {
      ExternLinesNext(s.members, k);
      externs := externs + [ExternLine(s.members[k].cid)];
    }
    var decls: Lines := [];
    for k := 0 to |s.members|
      invariant decls == DeclLines(s.members[..k])
    {
      ExternLinesNext(s.members, k);
      decls := decls + DeclPair(s.members[k].cid);
    }
    assert s.members[..|s.members|] == s.members;
    lines := HeadingLines(s.title) + externs + [""] + decls;
  }

  lemma HeaderSectionsNext(sections: seq<Section>, i: nat)
    requires i < |sections|
    ensures HeaderSections(sections[..i + 1]) == HeaderSections(sections[..i]) + HeaderSection(sections[i])
  {
    assert sections[..i + 1][..i] == sections[..i];
  }

  method RenderHeader(frame: Frame, entries: seq<Entry>) returns (lines: Lines)
    ensures lines == Header(frame, entries)
  {
    var sections := GroupSections(entries);
    var middle: Lines := [];
    for i := 0 to |sections|
      invariant middle == HeaderSections(sections[..i])
    {
      HeaderSectionsNext(sections, i);
      var section := RenderHeaderSection(sections[i]);
      middle := middle + section;
    }
    assert sections[..|sections|] == sections;
    lines := frame.top + middle + frame.bottom;
  }
}
