/** From the components of a design to its master lists, and the whole cycle of loading and saving. */
module MasterLists {
  import opened CStrings
  import opened AttribText
  import opened SaveSpec
  import opened SaveTwice
  import opened SaveInert
  import opened SheetLoad
  import opened SheetSave
  import opened NaturalOrder
  import opened MergeSpec
  import opened Sequences
  import opened Wrappers
  import Lists = StringLists

  // ---- what the lists hold before they are sorted

  /** Row names: of the components that have attributes attached, each name once. */
  function RowNames(parts: seq<Part>): seq<CString> {
    if parts == [] then []
    else
      var front, last := RowNames(parts[..|parts| - 1]), parts[|parts| - 1];
      var r := RefdesOf(last.attribs, last.inherited);
      if last.attribs == [] || r.None? then front else AddUnique(front, r.value)
  }

  /** Names added for one component's attributes, the reserved ones left out. */
  function WithNames(names: seq<CString>, attribs: seq<Attr>): seq<CString> {
    if attribs == [] then names
    else
      var front, n := WithNames(names, attribs[..|attribs| - 1]), NameOf(attribs[|attribs| - 1]);
      if Reserved(n) then front else AddUnique(front, n)
  }

  /** Column names, of all attributes attached. */
  function ColumnNames(parts: seq<Part>): seq<CString> {
    if parts == [] then [] else WithNames(ColumnNames(parts[..|parts| - 1]), parts[|parts| - 1].attribs)
  }

  lemma AddUniqueFacts(list: seq<CString>, x: CString)
    requires NoDup(list)
    ensures NoDup(AddUnique(list, x)) && forall y :: y in AddUnique(list, x) <==> y in list || y == x
  {
  }

  lemma {:induction false} RowNamesFacts(parts: seq<Part>)
    ensures NoDup(RowNames(parts))
    ensures forall r :: r in RowNames(parts) <==> exists k :: 0 <= k < |parts| && HasRow(parts[k], r)
  {
    if parts != [] {
      var m := |parts| - 1;
      var front, last := RowNames(parts[..m]), parts[m];
      RowNamesFacts(parts[..m]);
      var r := RefdesOf(last.attribs, last.inherited);
      if last.attribs != [] && r.Some? {
        AddUniqueFacts(front, r.value);
      }
      forall x
        ensures x in RowNames(parts) <==> exists k :: 0 <= k < |parts| && HasRow(parts[k], x)
      {
        RowSplit(parts, x);
      }
    }
  }

  /** This component gives its name to a row. */
  ghost predicate HasRow(part: Part, r: CString) {
    part.attribs != [] && RefdesOf(part.attribs, part.inherited) == Some(r)
  }

  lemma RowSplit(parts: seq<Part>, r: CString)
    requires parts != []
    ensures var m := |parts| - 1;
      (exists k :: 0 <= k < |parts| && HasRow(parts[k], r)) <==>
      (exists k :: 0 <= k < m && HasRow(parts[..m][k], r)) || HasRow(parts[m], r)
  {
    var m := |parts| - 1;
    if k :| 0 <= k < |parts| && HasRow(parts[k], r) {
      assert k < m ==> HasRow(parts[..m][k], r);
    }
    if k :| 0 <= k < m && HasRow(parts[..m][k], r) {
      assert HasRow(parts[k], r);
    }
  }

  /** Names a column may have. */
  ghost predicate GoodColumns(names: seq<CString>) {
    NoDup(names) && forall n :: n in names ==> GoodName(n) && !Reserved(n)
  }

  lemma {:induction false} WithNamesFacts(names: seq<CString>, attribs: seq<Attr>)
    requires GoodColumns(names) && forall i :: 0 <= i < |attribs| ==> Proper(attribs[i].text)
    ensures GoodColumns(WithNames(names, attribs)) && Covered(attribs, WithNames(names, attribs))
    ensures forall n :: n in names ==> n in WithNames(names, attribs)
  {
    if attribs != [] {
      var m := |attribs| - 1;
      var front, n := WithNames(names, attribs[..m]), NameOf(attribs[m]);
      WithNamesFacts(names, attribs[..m]);
      ProperParts(attribs[m].text);
      AddUniqueFacts(front, n);
      CoveredMore(attribs[..m], front, WithNames(names, attribs));
      CoveredLast(attribs, WithNames(names, attribs));
    }
  }

  lemma CoveredMore(attribs: seq<Attr>, cols: seq<CString>, more: seq<CString>)
    requires Covered(attribs, cols) && forall n :: n in cols ==> n in more
    ensures Covered(attribs, more)
  {
  }

  lemma CoveredLast(attribs: seq<Attr>, cols: seq<CString>)
    requires attribs != [] && Covered(attribs[..|attribs| - 1], cols)
    requires Reserved(NameOf(attribs[|attribs| - 1])) || NameOf(attribs[|attribs| - 1]) in cols
    ensures Covered(attribs, cols)
  {
    forall i | 0 <= i < |attribs|
      ensures Reserved(NameOf(attribs[i])) || NameOf(attribs[i]) in cols
    {
      assert i < |attribs| - 1 ==> attribs[..|attribs| - 1][i] == attribs[i];
    }
  }

  ghost predicate WfParts(parts: seq<Part>) {
    forall k :: 0 <= k < |parts| ==> WfAttribs(parts[k].attribs)
  }

  lemma {:induction false} ColumnNamesFacts(parts: seq<Part>)
    requires WfParts(parts)
    ensures GoodColumns(ColumnNames(parts))
    ensures forall k :: 0 <= k < |parts| ==> Covered(parts[k].attribs, ColumnNames(parts))
  {
    if parts != [] {
      var m := |parts| - 1;
      assert forall k :: 0 <= k < m ==> parts[..m][k] == parts[k];
      ColumnNamesFacts(parts[..m]);
      WithNamesFacts(ColumnNames(parts[..m]), parts[m].attribs);
      forall k | 0 <= k < |parts|
        ensures Covered(parts[k].attribs, ColumnNames(parts))
      {
        if k < m {
          assert Covered(parts[..m][k].attribs, ColumnNames(parts[..m]));
        }
      }
    }
  }

  // ---- after sorting

  /** The master lists of a design: sorted by natural order, the columns with the usual names first. */
  ghost predicate MasterOf(parts: seq<Part>, rows: seq<CString>, cols: seq<CString>) {
    && StablySorted(Lists.ComponentKey, RowNames(parts), rows)
    && StablySorted(Lists.AttribKey, ColumnNames(parts), cols)
  }

  lemma SortedSame(key: CString -> SortKey, names: seq<CString>, sorted: seq<CString>)
    requires NoDup(names) && StablySorted(key, names, sorted)
    ensures NoDup(sorted) && forall x :: x in sorted <==> x in names
  {
    SameElements(sorted, names);
    NoDupMultiset(names, sorted);
  }

  lemma NoDupMultiset(names: seq<CString>, sorted: seq<CString>)
    requires NoDup(names) && multiset(sorted) == multiset(names)
    ensures NoDup(sorted)
  {
    forall i, j | 0 <= i < j < |sorted|
      ensures sorted[i] != sorted[j]
    {
      NoDupCount(names, sorted[i]);
      if sorted[i] == sorted[j] {
        TwiceCount(sorted, i, j);
      }
    }
  }

  lemma {:induction false} NoDupCount(names: seq<CString>, x: CString)
    requires NoDup(names)
    ensures multiset(names)[x] <= 1
  {
    if names != [] {
      var m := |names| - 1;
      NoDupCount(names[..m], x);
      assert names == names[..m] + [names[m]];
    }
  }

  lemma TwiceCount(s: seq<CString>, i: nat, j: nat)
    requires i < j < |s| && s[i] == s[j]
    ensures multiset(s)[s[i]] >= 2
  {
    var a, b := s[..j], s[j..];
    assert s == a + b && a[i] in a && b[0] in b;
    assert multiset(a)[s[i]] >= 1 && multiset(b)[s[i]] >= 1;
  }

  lemma MasterTitles(parts: seq<Part>, rows: seq<CString>, cols: seq<CString>)
    requires WfParts(parts) && MasterOf(parts, rows, cols)
    ensures WfTitles(rows, cols)
    ensures forall r :: r in rows <==> exists k :: 0 <= k < |parts| && HasRow(parts[k], r)
    ensures forall k :: 0 <= k < |parts| ==> Covered(parts[k].attribs, cols)
  {
    RowNamesFacts(parts);
    ColumnNamesFacts(parts);
    SortedSame(Lists.ComponentKey, RowNames(parts), rows);
    SortedSame(Lists.AttribKey, ColumnNames(parts), cols);
    forall k | 0 <= k < |parts|
      ensures Covered(parts[k].attribs, cols)
    {
      assert Covered(parts[k].attribs, ColumnNames(parts));
    }
  }

  /** No two components have the same row name. */
  ghost predicate UniqueRows(parts: seq<Part>) {
    forall i, j :: 0 <= i < j < |parts| && RowOf(parts[i]).Some? ==> RowOf(parts[i]) != RowOf(parts[j])
  }

  function RowOf(part: Part): Option<CString> {
    RefdesOf(part.attribs, part.inherited)
  }

  lemma {:induction false} UniqueAlone(parts: seq<Part>, k: nat, r: CString)
    requires UniqueRows(parts) && k < |parts| && RowOf(parts[k]) == Some(r)
    ensures Alone(parts, k, r)
  {
    forall i | 0 <= i < |parts| && i != k
      ensures RefdesOf(parts[i].attribs, parts[i].inherited) != Some(r)
    {
      assert i < k ==> RowOf(parts[i]).None? || RowOf(parts[i]) != RowOf(parts[k]);
      assert k < i ==> RowOf(parts[k]) != RowOf(parts[i]);
    }
  }

  /** Saving an unedited sheet leaves every component as it was, whether it has a row or not. */
  lemma DesignIdentity(parts: seq<Part>, rows: seq<CString>, cols: seq<CString>, k: nat)
    requires WfParts(parts) && UniqueRows(parts) && MasterOf(parts, rows, cols) && k < |parts|
    ensures WfSheet(LoadedSheet(parts, rows, cols))
    ensures Save(parts[k].attribs, parts[k].inherited, LoadedSheet(parts, rows, cols)) == parts[k].attribs
  {
    MasterTitles(parts, rows, cols);
    LoadedWf(parts, rows, cols);
    var part := parts[k];
    var r := RowOf(part);
    if r.Some? {
      UniqueAlone(parts, k, r.value);
      if part.attribs != [] {
        assert HasRow(part, r.value);
        LoadSaveIdentity(parts, rows, cols, k, GetIndex(rows, r.value));
      } else {
        NoRow(parts, rows, k, r.value);
        SaveUnlisted(part.attribs, part.inherited, LoadedSheet(parts, rows, cols));
      }
    }
  }

  /** A component without attached attributes has no row, even if its symbol brings a name along. */
  lemma NoRow(parts: seq<Part>, rows: seq<CString>, k: nat, r: CString)
    requires k < |parts| && parts[k].attribs == [] && Alone(parts, k, r)
    requires forall x :: x in rows <==> exists i :: 0 <= i < |parts| && HasRow(parts[i], x)
    ensures r !in rows
  {
    forall i | 0 <= i < |parts|
      ensures !HasRow(parts[i], r)
    {
    }
  }

  lemma LoadedWf(parts: seq<Part>, rows: seq<CString>, cols: seq<CString>)
    requires WfTitles(rows, cols)
    ensures WfSheet(LoadedSheet(parts, rows, cols))
  {
  }

  // ---- building the lists

  lemma RowNamesNext(parts: seq<Part>, k: nat)
    requires k < |parts|
    ensures RowNames(parts[..k + 1]) ==
      if parts[k].attribs == [] || RowOf(parts[k]).None? then RowNames(parts[..k])
      else AddUnique(RowNames(parts[..k]), RowOf(parts[k]).value)
  {
    assert parts[..k + 1][..k] == parts[..k];
  }

  /** s_string_list_add_item on a list that is in use. */
  method AddName(list: Lists.StringList, name: CString)
    requires list.Valid() && list.head != null
    modifies list, list.nodes
    ensures list.Valid() && list.head != null && list.items == AddUnique(old(list.items), name)
    ensures old(list.nodes) <= list.nodes && forall i :: |old(list.nodes)| <= i < |list.nodes| ==> fresh(list.nodes[i])
  {
    list.AddItem(name);
  }

  /** One turn of s_sheet_data_add_master_comp_list_items. */
  method AddRow(list: Lists.StringList, components: seq<Component>, ghost parts: seq<Part>, k: nat)
    requires list.Valid() && list.head != null && parts == Parts(components) && k < |components|
    requires list.items == RowNames(parts[..k])
    modifies list, list.nodes
    ensures list.Valid() && list.head != null && list.items == RowNames(parts[..k + 1])
    ensures old(list.nodes) <= list.nodes && forall i :: |old(list.nodes)| <= i < |list.nodes| ==> fresh(list.nodes[i])
  {
    RowNamesNext(parts, k);
    var c := components[k];
    assert parts[k] == c.Value();
    if c.attribs != [] {
      var refdes := RefdesOf(c.attribs, c.inherited);
      if refdes.Some? {
        AddName(list, refdes.value);
      }
    }
  }

  /** s_sheet_data_add_master_comp_list_items. */
  method AddRows(list: Lists.StringList, components: seq<Component>, ghost parts: seq<Part>)
    requires list.Valid() && list.head != null && list.items == [] && parts == Parts(components)
    modifies list, list.nodes
    ensures list.Valid() && list.head != null && list.items == RowNames(parts)
    ensures old(list.nodes) <= list.nodes && forall i :: |old(list.nodes)| <= i < |list.nodes| ==> fresh(list.nodes[i])
  {
    for k := 0 to |components|
      invariant list.Valid() && list.head != null && list.items == RowNames(parts[..k])
      invariant old(list.nodes) <= list.nodes
      invariant forall i :: |old(list.nodes)| <= i < |list.nodes| ==> fresh(list.nodes[i])
    {
      AddRow(list, components, parts, k);
    }
    assert parts[..|components|] == parts;
  }

  /** The list of row names, sorted. */
  method MasterRows(components: seq<Component>, ghost parts: seq<Part>) returns (rows: seq<CString>)
    requires parts == Parts(components)
    ensures StablySorted(Lists.ComponentKey, RowNames(parts), rows)
  {
    var list := new Lists.StringList();
    AddRows(list, components, parts);
    list.SortComponents();
    rows := list.Labels();
  }

  lemma ColumnNamesNext(parts: seq<Part>, k: nat)
    requires k < |parts|
    ensures ColumnNames(parts[..k + 1]) == WithNames(ColumnNames(parts[..k]), parts[k].attribs)
  {
    assert parts[..k + 1][..k] == parts[..k];
  }

  lemma WithNamesNext(names: seq<CString>, attribs: seq<Attr>, a: nat)
    requires a < |attribs|
    ensures WithNames(names, attribs[..a + 1]) ==
      if Reserved(NameOf(attribs[a])) then WithNames(names, attribs[..a])
      else AddUnique(WithNames(names, attribs[..a]), NameOf(attribs[a]))
  {
    assert attribs[..a + 1][..a] == attribs[..a];
  }

  method AddAttribName(list: Lists.StringList, attrib: Attr)
    requires list.Valid() && list.head != null
    modifies list, list.nodes
    ensures list.Valid() && list.head != null
    ensures list.items == if Reserved(NameOf(attrib)) then old(list.items)
      else AddUnique(old(list.items), NameOf(attrib))
    ensures old(list.nodes) <= list.nodes && forall i :: |old(list.nodes)| <= i < |list.nodes| ==> fresh(list.nodes[i])
  {
    var name := BreakupString(attrib.text);
    if name != REFDES && name != NET && name != SLOT {
      AddName(list, name);
    }
  }

  /** The inner loop of s_sheet_data_add_master_comp_attrib_list_items. */
  method AddNames(list: Lists.StringList, attribs: seq<Attr>)
    requires list.Valid() && list.head != null
    modifies list, list.nodes
    ensures list.Valid() && list.head != null && list.items == WithNames(old(list.items), attribs)
    ensures old(list.nodes) <= list.nodes && forall i :: |old(list.nodes)| <= i < |list.nodes| ==> fresh(list.nodes[i])
  {
    ghost var names := list.items;
    for a := 0 to |attribs|
      invariant list.Valid() && list.head != null && list.items == WithNames(names, attribs[..a])
      invariant old(list.nodes) <= list.nodes
      invariant forall i :: |old(list.nodes)| <= i < |list.nodes| ==> fresh(list.nodes[i])
    {
      WithNamesNext(names, attribs, a);
      AddAttribName(list, attribs[a]);
    }
    assert attribs[..|attribs|] == attribs;
  }

  /** s_sheet_data_add_master_comp_attrib_list_items. */
  method AddColumns(list: Lists.StringList, components: seq<Component>, ghost parts: seq<Part>)
    requires list.Valid() && list.head != null && list.items == [] && parts == Parts(components)
    modifies list, list.nodes
    ensures list.Valid() && list.head != null && list.items == ColumnNames(parts)
    ensures old(list.nodes) <= list.nodes && forall i :: |old(list.nodes)| <= i < |list.nodes| ==> fresh(list.nodes[i])
  {
    for k := 0 to |components|
      invariant list.Valid() && list.head != null && list.items == ColumnNames(parts[..k])
      invariant old(list.nodes) <= list.nodes
      invariant forall i :: |old(list.nodes)| <= i < |list.nodes| ==> fresh(list.nodes[i])
    {
      ColumnNamesNext(parts, k);
      assert parts[k] == components[k].Value();
      AddNames(list, components[k].attribs);
    }
    assert parts[..|components|] == parts;
  }

  /** The list of column names, sorted. */
  method MasterColumns(components: seq<Component>, ghost parts: seq<Part>) returns (cols: seq<CString>)
    requires parts == Parts(components)
    ensures StablySorted(Lists.AttribKey, ColumnNames(parts), cols)
  {
    var list := new Lists.StringList();
    AddColumns(list, components, parts);
    list.SortAttribs();
    cols := list.Labels();
  }

  /** x_fileselect_load_files: the master lists, the table, and the sheet filled from it and read back. */
  method LoadDesign(components: seq<Component>) returns (data: SheetData)
    requires WfParts(Parts(components))
    ensures fresh(data) && fresh(data.table) && data.Mirrored()
    ensures MasterOf(Parts(components), data.rows, data.cols)
    ensures data.AsSheet() == LoadedSheet(Parts(components), data.rows, data.cols)
  {
    ghost var parts := Parts(components);
    var rows := MasterRows(components, parts);
    var cols := MasterColumns(components, parts);
    MasterTitles(parts, rows, cols);
    data := Load(components, rows, cols);
  }

  lemma AllUnchanged(parts: seq<Part>, rows: seq<CString>, cols: seq<CString>)
    requires WfParts(parts) && UniqueRows(parts) && MasterOf(parts, rows, cols)
    ensures WfSheet(LoadedSheet(parts, rows, cols)) && Unchanging(parts, LoadedSheet(parts, rows, cols))
  {
    MasterTitles(parts, rows, cols);
    LoadedWf(parts, rows, cols);
    forall i | 0 <= i < |parts|
      ensures Save(parts[i].attribs, parts[i].inherited, LoadedSheet(parts, rows, cols)) == parts[i].attribs
    {
      DesignIdentity(parts, rows, cols, i);
    }
  }

  /** Saving this sheet changes none of these components. */
  ghost predicate Unchanging(parts: seq<Part>, sheet: Sheet)
    requires WfSheet(sheet)
  {
    forall i :: 0 <= i < |parts| ==> Save(parts[i].attribs, parts[i].inherited, sheet) == parts[i].attribs
  }

  lemma SameSaves(parts: seq<Part>, sheet: Sheet)
    requires WfSheet(sheet) && WfParts(parts) && Unchanging(parts, sheet)
    ensures forall i :: 0 <= i < |parts| ==> SaveTexts(parts[i].attribs, parts[i].inherited, sheet) == parts[i].attribs
  {
    forall i | 0 <= i < |parts|
      ensures SaveTexts(parts[i].attribs, parts[i].inherited, sheet) == parts[i].attribs
    {
      SaveSame(parts[i].attribs, parts[i].inherited, sheet);
    }
  }

  method SaveUnchanged(data: SheetData, components: seq<Component>, ghost parts: seq<Part>)
    requires data.Valid() && NoDup(components) && parts == Parts(components) && WfParts(parts)
    requires Unchanging(parts, data.AsSheet())
    modifies components`attribs
    ensures forall i :: 0 <= i < |components| ==> components[i].attribs == old(components[i].attribs)
  {
    SameSaves(parts, data.AsSheet());
    data.SaveComponents(components);
  }

  /** A design whose row names are unique, loaded: saving it as it is would change nothing. */
  method LoadReady(components: seq<Component>, ghost parts: seq<Part>) returns (data: SheetData)
    requires parts == Parts(components) && WfParts(parts) && UniqueRows(parts)
    ensures data.Valid() && Unchanging(parts, data.AsSheet()) && fresh(data) && fresh(data.table)
  {
    data := LoadDesign(components);
    AllUnchanged(parts, data.rows, data.cols);
  }

  /** Loading a design and saving it without edits leaves every component as it was. */
  method LoadAndSave(components: seq<Component>)
    requires NoDup(components) && WfParts(Parts(components)) && UniqueRows(Parts(components))
    modifies components`attribs
    ensures forall i :: 0 <= i < |components| ==> components[i].attribs == old(components[i].attribs)
  {
    ghost var parts := Parts(components);
    var data := LoadReady(components, parts);
    SaveUnchanged(data, components, parts);
  }
}
