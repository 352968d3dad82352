/** What saving does to one component's attributes, as functions on values. */
module SaveSpec {
  import opened CStrings
  import opened AttribText
  import opened Sequences
  import opened Wrappers

  datatype Attr = Attr(text: CString, visible: bool, show: int)

  /** A table cell: title of its column, value if any, and how the attribute is displayed. */
  datatype Cell = Cell(colName: CString, value: Option<CString>, visible: bool, show: int)

  datatype Sheet = Sheet(rows: seq<CString>, cols: seq<CString>, cells: seq<seq<Cell>>)

  // ---- attribute lists

  function NameOf(a: Attr): CString {
    BreakupName(a.text)
  }

  ghost predicate WfAttribs(attribs: seq<Attr>) {
    && (forall i :: 0 <= i < |attribs| ==> Proper(attribs[i].text))
    && (forall i, j :: 0 <= i < j < |attribs| ==> NameOf(attribs[i]) != NameOf(attribs[j]))
  }

  /** Index of the first attribute of that name, or the length. */
  function IndexOf(attribs: seq<Attr>, n: CString): (i: nat)
    ensures i <= |attribs| && (i < |attribs| ==> NameOf(attribs[i]) == n)
    ensures forall k :: 0 <= k < i ==> NameOf(attribs[k]) != n
  {
    if attribs == [] || NameOf(attribs[0]) == n then 0 else 1 + IndexOf(attribs[1..], n)
  }

  /** The attribute the component carries under the name n. */
  function Carried(attribs: seq<Attr>, n: CString): Option<Attr> {
    var i := IndexOf(attribs, n);
    if i < |attribs| then Some(attribs[i]) else None
  }

  /** o_attrib_search_..._by_name: value of the first attribute that reads as name n. */
  function Search(attribs: seq<Attr>, n: CString): Option<CString> {
    if attribs == [] then None
    else
      var nv := NameValue(attribs[0].text);
      if nv.Some? && nv.value.0 == n then Some(nv.value.1) else Search(attribs[1..], n)
  }

  lemma {:induction false} SearchCarried(attribs: seq<Attr>, inherited: seq<Attr>, n: CString)
    requires WfAttribs(attribs)
    ensures Search(attribs + inherited, n) ==
      match Carried(attribs, n) case Some(a) => Some(NameValue(a.text).value.1) case None => Search(inherited, n)
    ensures Carried(attribs, n).Some? ==> NameValue(Carried(attribs, n).value.text).Some?
  {
    if attribs == [] {
      assert attribs + inherited == inherited;
    } else {
      ProperParts(attribs[0].text);
      assert (attribs + inherited)[1..] == attribs[1..] + inherited;
      SearchCarried(attribs[1..], inherited, n);
    }
  }

  /** The library reads this text as an attribute called n. */
  predicate ReadsAs(a: Attr, n: CString) {
    NameValue(a.text).Some? && NameValue(a.text).value.0 == n
  }

  lemma {:induction false} SearchHas(attribs: seq<Attr>, n: CString)
    ensures Search(attribs, n).Some? <==> exists i :: 0 <= i < |attribs| && ReadsAs(attribs[i], n)
  {
    if attribs != [] {
      SearchHas(attribs[1..], n);
      if ReadsAs(attribs[0], n) {
      } else if Search(attribs[1..], n).Some? {
        var i :| 0 <= i < |attribs[1..]| && ReadsAs(attribs[1..][i], n);
        assert ReadsAs(attribs[i + 1], n);
      } else {
        forall i | 0 <= i < |attribs|
          ensures !ReadsAs(attribs[i], n)
        {
          assert i > 0 ==> attribs[1..][i - 1] == attribs[i];
        }
      }
    }
  }

  lemma {:induction false} SearchAppend(a: seq<Attr>, b: seq<Attr>, n: CString)
    ensures Search(a + b, n) == if Search(a, n).Some? then Search(a, n) else Search(b, n)
  {
    if a == [] {
      assert a + b == b;
    } else {
      assert (a + b)[1..] == a[1..] + b;
      SearchAppend(a[1..], b, n);
    }
  }

  lemma ReadName(a: Attr, n: CString)
    requires ReadsAs(a, n) && n[0] != SPACE
    ensures NameOf(a) == n
  {
  }

  lemma {:induction false} SearchIndex(attribs: seq<Attr>, n: CString)
    requires n == [] || n[0] != SPACE
    ensures Search(attribs, n).Some? ==> IndexOf(attribs, n) < |attribs|
  {
    if attribs != [] {
      SearchIndex(attribs[1..], n);
      if ReadsAs(attribs[0], n) {
        ReadName(attribs[0], n);
      }
    }
  }

  lemma BreakupStart(s: CString)
    ensures BreakupName(s) == [] || BreakupName(s)[0] != SPACE
  {
  }

  // ---- the row a component is looked up under

  const DOT: CChar := 46

  /** s_attrib_get_refdes for a component that has a refdes: with the slot appended if it is slotted. */
  function RefdesOf(attribs: seq<Attr>, inherited: seq<Attr>): Option<CString> {
    var all := attribs + inherited;
    var base := Search(all, REFDES);
    if base.None? then None else Some(RowName(base.value, Search(all, NUMSLOTS).Some?, Search(all, SLOT)))
  }

  function RowName(base: CString, slotted: bool, slot: Option<CString>): CString {
    if slotted && slot.Some? && slot.value != [] then base + ([DOT] + slot.value) else base
  }

  // ---- sheets

  ghost predicate WfSheet(sheet: Sheet) {
    && |sheet.cells| == |sheet.rows|
    && (forall i :: 0 <= i < |sheet.cells| ==> |sheet.cells[i]| == |sheet.cols|)
    && (forall i, j :: 0 <= i < |sheet.cells| && 0 <= j < |sheet.cols| ==> sheet.cells[i][j].colName == sheet.cols[j])
    && NoDup(sheet.rows) && NoDup(sheet.cols)
    && (forall j :: 0 <= j < |sheet.cols| ==> GoodName(sheet.cols[j]) && !Reserved(sheet.cols[j]))
  }

  /** s_table_get_index. */
  function GetIndex(list: seq<CString>, s: CString): (i: int)
    ensures i == -1 <==> s !in list
    ensures i != -1 ==> 0 <= i < |list| && list[i] == s
  {
    if list == [] then -1
    else if list[0] == s then 0
    else
      var i := GetIndex(list[1..], s);
      assert list == [list[0]] + list[1..];
      if i == -1 then -1 else i + 1
  }

  /** The value a cell stands for: text less leading spaces, if anything is left. */
  function Content(c: Cell): Option<CString> {
    if c.value.None? || SkipSpaces(c.value.value) == [] then None else Some(SkipSpaces(c.value.value))
  }

  /** What a row says a component should carry under the name n. */
  function Desired(sheet: Sheet, row: nat, n: CString): Option<Attr>
    requires row < |sheet.cells| && |sheet.cells[row]| == |sheet.cols|
  {
    var j := GetIndex(sheet.cols, n);
    if j == -1 || Content(sheet.cells[row][j]).None? then None
    else
      var c := sheet.cells[row][j];
      Some(Attr(Pair(n, Content(c).value), c.visible, c.show))
  }

  // ---- the algorithm

  function AddUnique(list: seq<CString>, x: CString): seq<CString> {
    if x in list then list else list + [x]
  }

  /** s_table_create_attrib_pair: name=value for the cells of the row that hold something. */
  function Pairs(cells: seq<Cell>): seq<CString> {
    if cells == [] then []
    else
      var c := cells[|cells| - 1];
      var front := Pairs(cells[..|cells| - 1]);
      if c.value.Some? then AddUnique(front, Pair(c.colName, c.value.value)) else front
  }

  /** s_attrib_name_in_list. */
  predicate NameInList(list: seq<CString>, n: CString) {
    exists i :: 0 <= i < |list| && BreakupName(list[i]) == n
  }

  /** The new pairs, then the old attributes whose names are not among them. */
  function Complete(pairs: seq<CString>, attribs: seq<Attr>): seq<CString> {
    if attribs == [] then pairs
    else
      var a := attribs[|attribs| - 1];
      var front := Complete(pairs, attribs[..|attribs| - 1]);
      if Reserved(NameOf(a)) || NameInList(pairs, NameOf(a)) then front else AddUnique(front, a.text)
  }

  datatype Wanted = Wanted(value: CString, visible: bool, show: int)

  /** What one entry of the complete list asks for, with the component's row looked up now. */
  function Want(sheet: Sheet, pairs: seq<CString>, entry: CString, refdes: CString): Option<Wanted>
    requires WfSheet(sheet)
  {
    var row := GetIndex(sheet.rows, refdes);
    var col := GetIndex(sheet.cols, BreakupName(entry));
    if entry !in pairs || Remaining(entry).None? || row == -1 || col == -1 then None
    else Some(Wanted(Remaining(entry).value, sheet.cells[row][col].visible, sheet.cells[row][col].show))
  }

  function WantedAttr(n: CString, w: Option<Wanted>): Option<Attr> {
    if w.None? then None else Some(Attr(Pair(n, w.value.value), w.value.visible, w.value.show))
  }

  /** The four cases where every text is an attribute and no name comes twice: replace, remove, add, nothing. */
  function Step(attribs: seq<Attr>, n: CString, w: Option<Wanted>): seq<Attr> {
    var i := IndexOf(attribs, n);
    var a := WantedAttr(n, w);
    if i < |attribs| && a.Some? then attribs[i := a.value]
    else if i < |attribs| then Without(attribs, i)
    else if a.Some? then attribs + [a.value]
    else attribs
  }

  /** One entry: the row name is worked out afresh from the attributes as they now are. */
  function Handle(attribs: seq<Attr>, inherited: seq<Attr>, sheet: Sheet, pairs: seq<CString>,
                  entry: CString): seq<Attr>
    requires WfSheet(sheet)
  {
    var r := RefdesOf(attribs, inherited);
    if r.None? then attribs else Step(attribs, BreakupName(entry), Want(sheet, pairs, entry, r.value))
  }

  function Run(attribs: seq<Attr>, inherited: seq<Attr>, sheet: Sheet, pairs: seq<CString>,
               entries: seq<CString>): seq<Attr>
    requires WfSheet(sheet)
  {
    if entries == [] then attribs
    else
      Handle(Run(attribs, inherited, sheet, pairs, entries[..|entries| - 1]), inherited, sheet, pairs,
        entries[|entries| - 1])
  }

  /** Saving one component whose row name is found in the sheet. */
  function Save(attribs: seq<Attr>, inherited: seq<Attr>, sheet: Sheet): seq<Attr>
    requires WfSheet(sheet)
  {
    var r := RefdesOf(attribs, inherited);
    var row := if r.None? then -1 else GetIndex(sheet.rows, r.value);
    if r.None? then attribs
    else
      var pairs := if row == -1 then [] else Pairs(sheet.cells[row]);
      Run(attribs, inherited, sheet, pairs, Complete(pairs, attribs))
  }
}
