/** The objects the save path works on, updated in place: components and the table behind the sheet. */
module SheetSave {
  import opened CStrings
  import opened AttribText
  import opened SaveSpec
  import opened SaveProofs
  import opened SaveExact
  import opened SaveInert
  import opened SheetLoad
  import opened Sequences
  import opened Wrappers

  class Component {
    var attribs: seq<Attr>

    const inherited: seq<Attr>

    constructor (attribs: seq<Attr>, inherited: seq<Attr>)
      ensures this.attribs == attribs && this.inherited == inherited
    {
      this.attribs, this.inherited := attribs, inherited;
    }

    ghost function Value(): Part
      reads this`attribs
    {
      Part(attribs, inherited)
    }

    /** Position of the first attribute of that name. */
    method Find(n: CString) returns (i: nat)
      ensures i == IndexOf(attribs, n)
    {
      i := 0;
      while i < |attribs|
        invariant i <= |attribs| && IndexOf(attribs, n) == i + IndexOf(attribs[i..], n)
      {
        var name := BreakupString(attribs[i].text);
        assert attribs[i..][1..] == attribs[i + 1..];
        if name == n {
          return;
        }
        i := i + 1;
      }
    }

    method ReplaceAttrib(n: CString, v: CString, visible: bool, show: int) returns (found: bool)
      modifies this`attribs
      ensures found <==> IndexOf(old(attribs), n) < |old(attribs)|
      ensures attribs == if found then old(attribs)[IndexOf(old(attribs), n) := Attr(Pair(n, v), visible, show)]
        else old(attribs)
    {
      var i := Find(n);
      found := i < |attribs|;
      if found {
        attribs := attribs[i := Attr(Pair(n, v), visible, show)];
      }
    }

    method RemoveAttrib(n: CString) returns (found: bool)
      modifies this`attribs
      ensures found <==> IndexOf(old(attribs), n) < |old(attribs)|
      ensures attribs == if found then Without(old(attribs), IndexOf(old(attribs), n)) else old(attribs)
    {
      var i := Find(n);
      found := i < |attribs|;
      if found {
        attribs := attribs[..i] + attribs[i + 1..];
      }
    }

    method AddAttrib(n: CString, v: CString, visible: bool, show: int)
      modifies this`attribs
      ensures attribs == if v == [] then old(attribs) else old(attribs) + [Attr(Pair(n, v), visible, show)]
    {
      if v != [] {
        attribs := attribs + [Attr(Pair(n, v), visible, show)];
      }
    }

    /** The union of the new pairs and the attributes they do not mention. */
    method CompleteList(pairs: seq<CString>) returns (complete: seq<CString>)
      ensures complete == Complete(pairs, attribs)
    {
      complete := pairs;
      var i := 0;
      while i < |attribs|
        invariant i <= |attribs| && complete == Complete(pairs, attribs[..i])
      {
        var name := BreakupString(attribs[i].text);
        var listed := ListsName(pairs, name);
        if name != REFDES && name != NET && name != SLOT && !listed {
          complete := AddUnique(complete, attribs[i].text);
        }
        assert attribs[..i + 1][..i] == attribs[..i];
        i := i + 1;
      }
      assert attribs[..i] == attribs;
    }

    /** One turn of the main loop. */
    method HandleEntry(data: SheetData, pairs: seq<CString>, entry: CString)
      requires data.Valid() && RefdesOf(attribs, inherited).Some?
      modifies this`attribs
      ensures attribs == ActEntry(old(attribs), inherited, data.AsSheet(), pairs, entry)
    {
      var n := BreakupString(entry);
      var oldValue := Search(attribs, n);
      BreakupStart(entry);
      SearchIndex(attribs, n);
      var newValue: Option<CString> := None;
      if entry in pairs {
        newValue := RemainingString(entry);
      }
      var refdes := RefdesOf(attribs, inherited);
      var row := GetIndex(data.rows, refdes.value);
      var col := GetIndex(data.cols, n);
      var visible, show := false, 0;
      if row == -1 || col == -1 {
        newValue := None;
      } else {
        visible, show := data.table[row, col].visible, data.table[row, col].show;
      }
      ghost var w := Want(data.AsSheet(), pairs, entry, refdes.value);
      assert w == if newValue.None? then None else Some(Wanted(newValue.value, visible, show));
      assert newValue.Some? ==> newValue.value != [];
      var found := true;
      if oldValue.Some? && newValue.Some? && newValue.value != [] {
        found := ReplaceAttrib(n, newValue.value, visible, show);
      } else if oldValue.Some? && newValue.None? {
        found := RemoveAttrib(n);
      } else if oldValue.None? && newValue.Some? {
        AddAttrib(n, newValue.value, visible, show);
      }
      assert found;
    }

    method Update(data: SheetData, pairs: seq<CString>)
      requires data.Valid() && RefdesOf(attribs, inherited).Some? && NotRefdes(pairs)
      modifies this`attribs
      ensures attribs == ActAll(old(attribs), inherited, data.AsSheet(), pairs, Complete(pairs, old(attribs)))
    {
      var complete := CompleteList(pairs);
      ghost var was, sheet := attribs, data.AsSheet();
      CompleteNotRefdes(pairs, attribs);
      var i := 0;
      while i < |complete|
        invariant i <= |complete| && attribs == ActAll(was, inherited, sheet, pairs, complete[..i])
      {
        RefdesStays(was, inherited, sheet, pairs, complete[..i]);
        TakeTake(complete, i + 1, i);
        HandleEntry(data, pairs, complete[i]);
        i := i + 1;
      }
      assert complete[..i] == complete;
    }
  }

  /** s_attrib_name_in_list. */
  method ListsName(list: seq<CString>, n: CString) returns (found: bool)
    ensures found == NameInList(list, n)
  {
    for i := 0 to |list|
      invariant forall k :: 0 <= k < i ==> BreakupName(list[k]) != n
    {
      var name := BreakupString(list[i]);
      if name == n {
        return true;
      }
    }
    return false;
  }

  class SheetData {
    const rows: seq<CString>

    const cols: seq<CString>

    const table: array2<Cell>

    /** What the array holds, row by row. */
    ghost var cells: seq<seq<Cell>>

    ghost predicate Mirrored()
      reads this, table
    {
      && table.Length0 == |rows| == |cells| && table.Length1 == |cols|
      && (forall i :: 0 <= i < |rows| ==> |cells[i]| == |cols|)
      && (forall i, j :: 0 <= i < |rows| && 0 <= j < |cols| ==> table[i, j] == cells[i][j])
    }

    ghost function AsSheet(): Sheet
      reads this
    {
      Sheet(rows, cols, cells)
    }

    ghost predicate Valid()
      reads this, table
    {
      Mirrored() && WfSheet(AsSheet())
    }

    /** s_table_new. */
    constructor (rows: seq<CString>, cols: seq<CString>)
      ensures this.rows == rows && this.cols == cols && fresh(table) && Mirrored()
      ensures cells == seq(|rows|, i requires 0 <= i < |rows| => seq(|cols|, j requires 0 <= j < |cols| => BLANK))
    {
      this.rows, this.cols := rows, cols;
      table := new Cell[|rows|, |cols|]((i, j) => BLANK);
      cells := seq(|rows|, i requires 0 <= i < |rows| => seq(|cols|, j requires 0 <= j < |cols| => BLANK));
    }

    /** The array holds what these components have put into it. */
    ghost predicate Loaded(parts: seq<Part>)
      reads this, table
    {
      && table.Length0 == |rows| && table.Length1 == |cols| && WfTitles(rows, cols)
      && forall i, j :: 0 <= i < |rows| && 0 <= j < |cols| ==> table[i, j] == FromParts(parts, rows[i], cols[j])
    }

    /** Inner loop of s_table_add_toplevel_comp_items_to_comp_table: one component's attributes. */
    method AddAttribs(c: Component, refdes: CString, ghost parts: seq<Part>)
      requires Loaded(parts) && RefdesOf(c.attribs, c.inherited) == Some(refdes)
      modifies table
      ensures forall i, j :: 0 <= i < |rows| && 0 <= j < |cols| ==>
        table[i, j] == WithAttribs(parts, refdes, c.attribs, rows[i], cols[j])
    {
      var a := 0;
      while a < |c.attribs|
        invariant a <= |c.attribs|
        invariant forall i, j :: 0 <= i < |rows| && 0 <= j < |cols| ==>
          table[i, j] == WithAttribs(parts, refdes, c.attribs[..a], rows[i], cols[j])
      {
        var name := BreakupString(c.attribs[a].text);
        var value := RemainingString(c.attribs[a].text);
        assert c.attribs[..a + 1][..a] == c.attribs[..a];
        if name != REFDES && name != NET && name != SLOT {
          var row := GetIndex(rows, refdes);
          var col := GetIndex(cols, name);
          if row != -1 && col != -1 {
            table[row, col] := Cell(name, value, c.attribs[a].visible, c.attribs[a].show);
          }
        }
        a := a + 1;
      }
      assert c.attribs[..a] == c.attribs;
    }

    method AddComponent(c: Component, ghost parts: seq<Part>)
      requires Loaded(parts)
      modifies table
      ensures Loaded(parts + [c.Value()])
    {
      ghost var more := parts + [c.Value()];
      assert more[..|parts|] == parts;
      if c.attribs != [] {
        var refdes := RefdesOf(c.attribs, c.inherited);
        if refdes.Some? {
          AddAttribs(c, refdes.value, parts);
        }
      }
    }

    /** s_table_add_toplevel_comp_items_to_comp_table. */
    method AddComponents(components: seq<Component>)
      requires Loaded([])
      modifies table
      ensures Loaded(Parts(components))
    {
      ghost var parts := Parts(components);
      var k := 0;
      while k < |components|
        invariant k <= |components| && parts == Parts(components) && Loaded(parts[..k])
      {
        AddComponent(components[k], parts[..k]);
        assert parts[..k] + [components[k].Value()] == parts[..k + 1];
        k := k + 1;
      }
      assert parts[..k] == parts;
    }

    /** The table filled, and its cells noted. */
    method FillTable(components: seq<Component>)
      requires Loaded([])
      modifies this`cells, table
      ensures Mirrored()
      ensures forall i, j :: 0 <= i < |rows| && 0 <= j < |cols| ==>
        cells[i][j] == FromParts(Parts(components), rows[i], cols[j])
    {
      AddComponents(components);
      cells := Rows(table);
    }

    /** The cells of x_window_add_items: the view shows the values, and nothing where there is none. */
    method ShowTable(view: array2<CString>)
      requires Mirrored() && view.Length0 == |rows| && view.Length1 == |cols|
      requires forall i, j :: 0 <= i < |rows| && 0 <= j < |cols| ==> view[i, j] == []
      modifies view
      ensures forall i, j :: 0 <= i < |rows| && 0 <= j < |cols| ==>
        view[i, j] == if cells[i][j].value.Some? then cells[i][j].value.value else []
    {
      for i := 0 to |rows|
        invariant forall p, q :: 0 <= p < |rows| && 0 <= q < |cols| ==>
          view[p, q] == if p < i && cells[p][q].value.Some? then cells[p][q].value.value else []
      {
        for j := 0 to |cols|
          invariant forall p, q :: 0 <= p < |rows| && 0 <= q < |cols| ==>
            view[p, q] ==
              if (p < i || (p == i && q < j)) && cells[p][q].value.Some? then cells[p][q].value.value else []
        {
          if table[i, j].value.Some? {
            view[i, j] := table[i, j].value.value;
          }
        }
      }
    }

    /** s_table_gtksheet_to_table: value and title of every cell from the view, display settings kept. */
    method ReadView(view: array2<CString>)
      requires Mirrored() && view.Length0 == |rows| && view.Length1 == |cols|
      modifies this`cells, table
      ensures Mirrored()
      ensures forall i, j :: 0 <= i < |rows| && 0 <= j < |cols| ==>
        cells[i][j] == FromView(view[i, j], cols[j], old(cells[i][j]))
    {
      ghost var was := cells;
      for i := 0 to |rows|
        invariant cells == was
        invariant forall p, q :: 0 <= p < |rows| && 0 <= q < |cols| ==>
          table[p, q] == if p < i then FromView(view[p, q], cols[q], was[p][q]) else was[p][q]
      {
        for j := 0 to |cols|
          invariant cells == was
          invariant forall p, q :: 0 <= p < |rows| && 0 <= q < |cols| ==>
            table[p, q] == if p < i || (p == i && q < j) then FromView(view[p, q], cols[q], was[p][q]) else was[p][q]
        {
          var value := if view[i, j] == [] then None else Some(view[i, j]);
          table[i, j] := table[i, j].(value := value);
          table[i, j] := table[i, j].(colName := cols[j]);
        }
      }
      cells := Rows(table);
    }

    /** Filling a new view and reading it back. */
    method ShowAndRead()
      requires Mirrored()
      modifies this`cells, table
      ensures Mirrored()
      ensures forall i, j :: 0 <= i < |rows| && 0 <= j < |cols| ==> cells[i][j] == Refreshed(old(cells[i][j]), cols[j])
    {
      var view := new CString[|rows|, |cols|]((i, j) => []);
      ShowTable(view);
      ReadView(view);
    }

    /** s_table_create_attrib_pair. */
    method CreateAttribPair(rowName: CString) returns (pairs: seq<CString>)
      requires Valid()
      ensures pairs == if GetIndex(rows, rowName) == -1 then [] else Pairs(cells[GetIndex(rows, rowName)])
    {
      pairs := [];
      var row := GetIndex(rows, rowName);
      if row == -1 {
        return;
      }
      for col := 0 to |cols|
        invariant pairs == Pairs(cells[row][..col])
      {
        assert cells[row][..col + 1][..col] == cells[row][..col];
        if table[row, col].value.Some? {
          pairs := AddUnique(pairs, Pair(table[row, col].colName, table[row, col].value.value));
        }
      }
      assert cells[row][..|cols|] == cells[row];
    }

    /** s_toplevel_sheetdata_to_toplevel for one component. */
    method SaveComponent(c: Component)
      requires Valid()
      modifies c`attribs
      ensures c.attribs == SaveTexts(old(c.attribs), c.inherited, AsSheet())
    {
      var refdes := RefdesOf(c.attribs, c.inherited);
      if refdes.Some? {
        var pairs := CreateAttribPair(refdes.value);
        ghost var row := GetIndex(rows, refdes.value);
        if row != -1 {
          assert forall j :: 0 <= j < |cols| ==> cells[row][j].colName == cols[j];
          PairsWf(cells[row]);
          assert NotRefdes(pairs);
        }
        c.Update(this, pairs);
      }
    }

    /** One turn of the loop over components. */
    method SaveOne(components: seq<Component>, k: nat, ghost parts: seq<Part>, ghost saved: seq<seq<Attr>>)
      requires Valid() && NoDup(components) && |components| == |parts| && k < |parts| &&
        saved == Saved(parts, AsSheet())
      requires parts[k].inherited == components[k].inherited
      requires SavedFrom(components, parts, saved, k + 1)
      modifies components`attribs
      ensures SavedFrom(components, parts, saved, k)
    {
      SaveComponent(components[k]);
      forall i | 0 <= i < |components| && i != k
        ensures components[i].attribs == if i < k then parts[i].attribs else saved[i]
      {
        assert components[i] != components[k];
      }
    }

    /** s_toplevel_sheetdata_to_toplevel: the components from last to first. */
    method SaveComponents(components: seq<Component>)
      requires Valid() && NoDup(components)
      modifies components`attribs
      ensures forall i :: 0 <= i < |components| ==>
        components[i].attribs == SaveTexts(old(components[i].attribs), components[i].inherited, AsSheet())
    {
      ghost var parts := Parts(components);
      ghost var saved := Saved(parts, AsSheet());
      var k := |components|;
      while k > 0
        invariant 0 <= k <= |components| && unchanged(this) && unchanged(table)
        invariant SavedFrom(components, parts, saved, k)
      {
        k := k - 1;
        SaveOne(components, k, parts, saved);
      }
    }
  }

  /** The components from k on have been saved, the others not yet. */
  ghost predicate SavedFrom(components: seq<Component>, parts: seq<Part>, saved: seq<seq<Attr>>, k: nat)
    requires |components| == |parts| == |saved|
    reads components
  {
    forall i :: 0 <= i < |components| ==> components[i].attribs == if i < k then parts[i].attribs else saved[i]
  }

  ghost function Saved(parts: seq<Part>, sheet: Sheet): (saved: seq<seq<Attr>>)
    requires WfSheet(sheet)
    ensures |saved| == |parts|
    ensures forall i :: 0 <= i < |saved| ==> saved[i] == SaveTexts(parts[i].attribs, parts[i].inherited, sheet)
  {
    seq(|parts|, i requires 0 <= i < |parts| => SaveTexts(parts[i].attribs, parts[i].inherited, sheet))
  }

  /** A cell of row r once some attributes of the component called refdes have been read too. */
  function WithAttribs(parts: seq<Part>, refdes: CString, attribs: seq<Attr>, r: CString, n: CString): Cell {
    if r == refdes then FromAttribs(attribs, n, FromParts(parts, r, n)) else FromParts(parts, r, n)
  }

  ghost function Rows(table: array2<Cell>): (r: seq<seq<Cell>>)
    reads table
    ensures |r| == table.Length0 && forall i :: 0 <= i < |r| ==> |r[i]| == table.Length1
    ensures forall i, j :: 0 <= i < table.Length0 && 0 <= j < table.Length1 ==> r[i][j] == table[i, j]
  {
    seq(table.Length0, i requires 0 <= i < table.Length0 reads table =>
      seq(table.Length1, j requires 0 <= j < table.Length1 reads table => table[i, j]))
  }

  ghost function Parts(components: seq<Component>): (parts: seq<Part>)
    reads components
    ensures |parts| == |components| && forall i :: 0 <= i < |parts| ==> parts[i] == components[i].Value()
  {
    if components == [] then []
    else Parts(components[..|components| - 1]) + [components[|components| - 1].Value()]
  }

  /** A cell after its view has been read back. */
  function FromView(text: CString, title: CString, c: Cell): Cell {
    Cell(title, if text == [] then None else Some(text), c.visible, c.show)
  }

  /** Loading a design into a new table, showing it in the view and reading the view back. */
  method Load(components: seq<Component>, rows: seq<CString>, cols: seq<CString>) returns (data: SheetData)
    requires WfTitles(rows, cols)
    ensures fresh(data) && fresh(data.table) && data.Mirrored()
    ensures data.AsSheet() == LoadedSheet(Parts(components), rows, cols)
  {
    ghost var parts := Parts(components);
    data := new SheetData(rows, cols);
    data.FillTable(components);
    assert Parts(components) == parts;
    data.ShowAndRead();
    IsLoadedSheet(parts, rows, cols, data.cells);
  }

  lemma IsLoadedSheet(parts: seq<Part>, rows: seq<CString>, cols: seq<CString>, cells: seq<seq<Cell>>)
    requires |cells| == |rows| && forall i :: 0 <= i < |rows| ==> |cells[i]| == |cols|
    requires forall i, j :: 0 <= i < |rows| && 0 <= j < |cols| ==>
      cells[i][j] == Refreshed(FromParts(parts, rows[i], cols[j]), cols[j])
    ensures cells == LoadedSheet(parts, rows, cols).cells
  {
    forall i | 0 <= i < |rows|
      ensures cells[i] == LoadedSheet(parts, rows, cols).cells[i]
    {
    }
  }
}
