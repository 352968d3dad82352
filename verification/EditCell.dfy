/** Typing into one cell of a loaded design and saving: that attribute changes, and nothing else. */
module EditCell {
  import opened CStrings
  import opened AttribText
  import opened SaveSpec
  import opened SaveProofs
  import opened SaveExact
  import opened SaveTwice
  import opened SheetLoad
  import opened SavedTexts
  import opened MasterLists
  import opened Sequences
  import opened Wrappers

  /** The sheet with another text in one cell; an empty text is no value. */
  function Edited(sheet: Sheet, row: nat, j: nat, v: CString): Sheet
    requires row < |sheet.cells| && j < |sheet.cells[row]|
  {
    var cell := sheet.cells[row][j].(value := if v == [] then None else Some(v));
    sheet.(cells := sheet.cells[row := sheet.cells[row][j := cell]])
  }

  lemma EditedWf(sheet: Sheet, row: nat, j: nat, v: CString)
    requires WfSheet(sheet) && row < |sheet.cells| && j < |sheet.cols|
    ensures WfSheet(Edited(sheet, row, j, v))
  {
  }

  /** Every other cell says what it said. */
  lemma EditedOthers(sheet: Sheet, row: nat, j: nat, v: CString, i: nat, n: CString)
    requires WfSheet(sheet) && row < |sheet.cells| && j < |sheet.cols| && i < |sheet.cells|
    requires i != row || n != sheet.cols[j]
    ensures WfSheet(Edited(sheet, row, j, v)) && Desired(Edited(sheet, row, j, v), i, n) == Desired(sheet, i, n)
  {
    EditedWf(sheet, row, j, v);
    if GetIndex(sheet.cols, n) == j {
      assert n == sheet.cols[j];
    }
  }

  /** What is asked for in the edited cell: a text less its leading spaces, displayed as before. */
  lemma EditedHere(sheet: Sheet, row: nat, j: nat, v: CString)
    requires WfSheet(sheet) && row < |sheet.cells| && j < |sheet.cols|
    ensures WfSheet(Edited(sheet, row, j, v))
    ensures Desired(Edited(sheet, row, j, v), row, sheet.cols[j]) ==
      if SkipSpaces(v) == [] then None
      else Some(Attr(Pair(sheet.cols[j], SkipSpaces(v)), sheet.cells[row][j].visible, sheet.cells[row][j].show))
  {
    EditedWf(sheet, row, j, v);
    ColumnIndex(sheet, j);
  }

  /** How the loaded cell is displayed: as the attribute is, or visible with its value only. */
  lemma LoadedDisplay(parts: seq<Part>, rows: seq<CString>, cols: seq<CString>, k: nat, row: nat, j: nat)
    requires WfTitles(rows, cols) && row < |rows| && j < |cols| && k < |parts| && Alone(parts, k, rows[row])
    requires WfAttribs(parts[k].attribs)
    ensures var cell := LoadedSheet(parts, rows, cols).cells[row][j];
      match Carried(parts[k].attribs, cols[j])
      case None => cell.visible && cell.show == 1
      case Some(a) => cell.visible == a.visible && cell.show == a.show
  {
    FromPartsAlone(parts, k, rows[row], cols[j]);
    FromAttribsCarried(parts[k].attribs, cols[j], BLANK);
  }

  /** A component in another row, or in none, is left as it was. */
  lemma OthersKept(parts: seq<Part>, rows: seq<CString>, cols: seq<CString>, row: nat, j: nat, v: CString, i: nat)
    requires WfParts(parts) && UniqueRows(parts) && MasterOf(parts, rows, cols)
    requires row < |rows| && j < |cols| && i < |parts| && RowOf(parts[i]) != Some(rows[row])
    ensures var sheet := Edited(LoadedSheet(parts, rows, cols), row, j, v);
      WfSheet(sheet) && Save(parts[i].attribs, parts[i].inherited, sheet) == parts[i].attribs
  {
    MasterTitles(parts, rows, cols);
    LoadedWf(parts, rows, cols);
    var loaded, part := LoadedSheet(parts, rows, cols), parts[i];
    var sheet := Edited(loaded, row, j, v);
    EditedWf(loaded, row, j, v);
    var r := RowOf(part);
    if r.Some? {
      UniqueAlone(parts, i, r.value);
      if part.attribs != [] {
        assert HasRow(part, r.value);
        RowKept(parts, rows, cols, row, j, v, i, GetIndex(rows, r.value));
      } else {
        NoRow(parts, rows, i, r.value);
        SaveUnlisted(part.attribs, part.inherited, sheet);
      }
    }
  }

  lemma RowKept(parts: seq<Part>, rows: seq<CString>, cols: seq<CString>, row: nat, j: nat, v: CString, i: nat, at: nat)
    requires WfTitles(rows, cols) && row < |rows| && j < |cols| && i < |parts| && at < |rows| && at != row
    requires Alone(parts, i, rows[at]) && WfAttribs(parts[i].attribs) && Covered(parts[i].attribs, cols)
    ensures var sheet := Edited(LoadedSheet(parts, rows, cols), row, j, v);
      WfSheet(sheet) && Save(parts[i].attribs, parts[i].inherited, sheet) == parts[i].attribs
  {
    var loaded := LoadedSheet(parts, rows, cols);
    LoadedWf(parts, rows, cols);
    EditedWf(loaded, row, j, v);
    var sheet := Edited(loaded, row, j, v);
    forall n | !Reserved(n)
      ensures Carried(parts[i].attribs, n) == Desired(sheet, at, n)
    {
      LoadedDesired(parts, rows, cols, i, at, n);
      EditedOthers(loaded, row, j, v, at, n);
    }
    SaveFixed(parts[i].attribs, parts[i].inherited, sheet, at);
  }

  /** What the edited component carries afterwards under any name. */
  function AfterEdit(attribs: seq<Attr>, name: CString, v: CString, n: CString): Option<Attr> {
    var was := Carried(attribs, n);
    if n != name then was
    else if SkipSpaces(v) == [] then None
    else
      Some(Attr(name + (CText("=") + SkipSpaces(v)), if was.Some? then was.value.visible else true,
        if was.Some? then was.value.show else 1))
  }

  /** With numslots as it was, the component keeps its row name through the save. */
  lemma EditHolds(parts: seq<Part>, rows: seq<CString>, cols: seq<CString>, row: nat, j: nat, v: CString, k: nat)
    requires WfTitles(rows, cols) && row < |rows| && j < |cols| && k < |parts| && Alone(parts, k, rows[row])
    requires WfAttribs(parts[k].attribs) && Covered(parts[k].attribs, cols) && cols[j] != NUMSLOTS
    ensures var sheet := Edited(LoadedSheet(parts, rows, cols), row, j, v);
      && InRow(parts[k].attribs, parts[k].inherited, sheet, row)
      && RowHolds(parts[k].attribs, parts[k].inherited, sheet, row)
  {
    var loaded, part := LoadedSheet(parts, rows, cols), parts[k];
    LoadedWf(parts, rows, cols);
    EditedOthers(loaded, row, j, v, row, NUMSLOTS);
    SlotsNotReserved();
    LoadedDesired(parts, rows, cols, k, row, NUMSLOTS);
    SearchCarried(part.attribs, part.inherited, NUMSLOTS);
  }

  lemma SlotsNotReserved()
    ensures !Reserved(NUMSLOTS)
  {
    assert |NUMSLOTS| == 8 && |REFDES| == 6 && |NET| == 3 && |SLOT| == 4;
  }

  /** The edited component carries the new text under the edited name and what it carried under every other. */
  lemma EditOne(parts: seq<Part>, rows: seq<CString>, cols: seq<CString>, row: nat, j: nat, v: CString, k: nat,
                n: CString)
    requires WfTitles(rows, cols) && row < |rows| && j < |cols| && k < |parts| && Alone(parts, k, rows[row])
    requires WfAttribs(parts[k].attribs) && Covered(parts[k].attribs, cols) && cols[j] != NUMSLOTS
    ensures var sheet := Edited(LoadedSheet(parts, rows, cols), row, j, v);
      && WfSheet(sheet)
      && Carried(Save(parts[k].attribs, parts[k].inherited, sheet), n) == AfterEdit(parts[k].attribs, cols[j], v, n)
  {
    var loaded, part := LoadedSheet(parts, rows, cols), parts[k];
    var sheet := Edited(loaded, row, j, v);
    LoadedWf(parts, rows, cols);
    EditHolds(parts, rows, cols, row, j, v, k);
    SaveExactly(part.attribs, part.inherited, sheet, row);
    if !Reserved(n) {
      assert Carried(Save(part.attribs, part.inherited, sheet), n) == Desired(sheet, row, n);
      if n == cols[j] {
        EditedHere(loaded, row, j, v);
        LoadedDisplay(parts, rows, cols, k, row, j);
        assert CText("=") == [EQ];
      } else {
        EditedOthers(loaded, row, j, v, row, n);
        LoadedDesired(parts, rows, cols, k, row, n);
      }
    }
  }

  /** A design loaded, one cell edited, and saved: the component of that row has the new text under the column's name,
      shown as it was or, if it is new, visible with its value only, and everything else as before; no other component
      changes. A numslots cell is different: it can change the row name. */
  lemma EditDesign(parts: seq<Part>, rows: seq<CString>, cols: seq<CString>, k: nat, j: nat, v: CString)
    requires WfParts(parts) && UniqueRows(parts) && MasterOf(parts, rows, cols)
    requires k < |parts| && parts[k].attribs != [] && RowOf(parts[k]).Some? && j < |cols| && cols[j] != NUMSLOTS
    ensures GetIndex(rows, RowOf(parts[k]).value) != -1
    ensures var row := GetIndex(rows, RowOf(parts[k]).value);
      var sheet := Edited(LoadedSheet(parts, rows, cols), row, j, v);
      && WfSheet(sheet)
      && (forall n :: Carried(Save(parts[k].attribs, parts[k].inherited, sheet), n) ==
            AfterEdit(parts[k].attribs, cols[j], v, n))
      && forall i :: 0 <= i < |parts| && i != k ==>
           Save(parts[i].attribs, parts[i].inherited, sheet) == parts[i].attribs
  {
    var r := RowOf(parts[k]).value;
    MasterTitles(parts, rows, cols);
    assert HasRow(parts[k], r);
    UniqueAlone(parts, k, r);
    var row := GetIndex(rows, r);
    var sheet := Edited(LoadedSheet(parts, rows, cols), row, j, v);
    LoadedWf(parts, rows, cols);
    EditedWf(LoadedSheet(parts, rows, cols), row, j, v);
    forall n
      ensures Carried(Save(parts[k].attribs, parts[k].inherited, sheet), n) ==
        AfterEdit(parts[k].attribs, cols[j], v, n)
    {
      EditOne(parts, rows, cols, row, j, v, k, n);
    }
    forall i | 0 <= i < |parts| && i != k
      ensures Save(parts[i].attribs, parts[i].inherited, sheet) == parts[i].attribs
    {
      OthersKept(parts, rows, cols, row, j, v, i);
    }
  }
}
