/** What saving means in texts as they are typed: leading spaces, row names, and the order of columns. */
module SavedTexts {
  import opened CStrings
  import opened NaturalOrder
  import opened AttribText
  import opened SaveSpec
  import opened SaveProofs
  import opened SaveExact
  import opened Sequences
  import opened Wrappers
  import Lists = StringLists

  // ---- leading spaces

  /** k spaces and a text. */
  function Indented(k: nat, v: CString): CString {
    if k == 0 then v else CText(" ") + Indented(k - 1, v)
  }

  lemma {:induction false} SpacesSkipped(k: nat, v: CString)
    requires v == [] || v[0] != ' ' as int
    ensures SkipSpaces(Indented(k, v)) == v
  {
    if k > 0 {
      SpacesSkipped(k - 1, v);
      assert CText(" ") == [SPACE];
      assert Indented(k, v)[1..] == Indented(k - 1, v);
    }
  }

  /** A value is read without the spaces in front of it, and spaces alone are no value. */
  lemma IndentedValue(n: CString, k: nat, v: CString)
    requires GoodName(n) && (v == [] || v[0] != ' ' as int)
    ensures Remaining(n + (CText("=") + Indented(k, v))) == if v == [] then None else Some(v)
  {
    assert CText("=") == [EQ];
    PairParts(n, Indented(k, v));
    SpacesSkipped(k, v);
  }

  /** A cell of k spaces and a value leaves the attribute with that value, wherever saving works for the row; spaces
      alone leave none. */
  lemma IndentedCell(attribs: seq<Attr>, inherited: seq<Attr>, sheet: Sheet, row: nat, j: nat, k: nat, v: CString)
    requires InRow(attribs, inherited, sheet, row) && RowHolds(attribs, inherited, sheet, row) && j < |sheet.cols|
    requires sheet.cells[row][j].value == Some(Indented(k, v)) && (v == [] || v[0] != ' ' as int)
    ensures Carried(Save(attribs, inherited, sheet), sheet.cols[j]) ==
      if v == [] then None
      else Some(Attr(sheet.cols[j] + (CText("=") + v), sheet.cells[row][j].visible, sheet.cells[row][j].show))
  {
    SaveExactly(attribs, inherited, sheet, row);
    SpacesSkipped(k, v);
    ColumnIndex(sheet, j);
    assert CText("=") == [EQ];
    assert Carried(Save(attribs, inherited, sheet), sheet.cols[j]) == Desired(sheet, row, sheet.cols[j]);
  }

  // ---- row names

  /** The attribute name=value is attached. */
  ghost predicate Has(attribs: seq<Attr>, name: CString, value: CString) {
    GoodValue(value) && exists i :: 0 <= i < |attribs| && attribs[i].text == name + (CText("=") + value)
  }

  lemma NameTexts()
    ensures CText("refdes") == REFDES && CText("net") == NET && CText("slot") == SLOT && CText("numslots") == NUMSLOTS
  {
  }

  lemma HasCarried(attribs: seq<Attr>, inherited: seq<Attr>, name: CString, value: CString)
    requires WfAttribs(attribs) && GoodName(name) && Has(attribs, name, value)
    ensures Search(attribs + inherited, name) == Some(value)
  {
    var i :| 0 <= i < |attribs| && attribs[i].text == name + (CText("=") + value);
    assert CText("=") == [EQ];
    PairParts(name, value);
    CarriedAt(attribs, i);
    SearchCarried(attribs, inherited, name);
  }

  lemma SlotNames()
    ensures GoodName(REFDES) && GoodName(SLOT) && GoodName(NUMSLOTS)
  {
    assert REFDES[0] != SPACE && REFDES[5] != SPACE && |REFDES| == 6;
    assert SLOT[0] != SPACE && SLOT[3] != SPACE && |SLOT| == 4;
    assert NUMSLOTS[0] != SPACE && NUMSLOTS[7] != SPACE && |NUMSLOTS| == 8;
  }

  /** The row of a slotted component is named refdes.slot. */
  lemma SlottedName(attribs: seq<Attr>, inherited: seq<Attr>, r: CString, s: CString, n: CString)
    requires WfAttribs(attribs) && Has(attribs, REFDES, r) && Has(attribs, SLOT, s) && Has(attribs, NUMSLOTS, n)
    ensures RefdesOf(attribs, inherited) == Some(r + (CText(".") + s))
  {
    SlotNames();
    HasCarried(attribs, inherited, REFDES, r);
    HasCarried(attribs, inherited, SLOT, s);
    HasCarried(attribs, inherited, NUMSLOTS, n);
    assert CText(".") == [DOT];
  }

  /** Without numslots, or without a slot, the row has the name of the refdes. */
  lemma PlainName(attribs: seq<Attr>, inherited: seq<Attr>, r: CString)
    requires WfAttribs(attribs) && Has(attribs, REFDES, r)
    requires Search(attribs + inherited, NUMSLOTS).None? || Search(attribs + inherited, SLOT).None?
    ensures RefdesOf(attribs, inherited) == Some(r)
  {
    SlotNames();
    HasCarried(attribs, inherited, REFDES, r);
  }

  /** A component without a refdes, attached or inherited, has no row. */
  lemma Nameless(attribs: seq<Attr>, inherited: seq<Attr>)
    ensures RefdesOf(attribs, inherited).None? <==>
      forall i :: 0 <= i < |attribs + inherited| ==> !ReadsAs((attribs + inherited)[i], CText("refdes"))
  {
    NameTexts();
    SearchHas(attribs + inherited, REFDES);
  }

  /** These three names are never columns. */
  lemma ReservedNames(name: CString)
    ensures Reserved(name) <==> name == CText("refdes") || name == CText("net") || name == CText("slot")
  {
    NameTexts();
  }

  // ---- the order of columns

  const FIRST: seq<string> := ["device", "footprint", "value"]

  /** The three usual columns come first, in this order, before any other name. */
  lemma UsualFirst(i: nat, name: CString)
    requires i < 3 && IsAscii(FIRST[i]) && forall k :: 0 <= k <= i ==> IsAscii(FIRST[k]) && name != CText(FIRST[k])
    ensures CompareKeys(Lists.AttribKey(CText(FIRST[i])), Lists.AttribKey(name)) < 0
  {
    ColumnTexts();
    assert i == 1 ==> name != CText(FIRST[0]);
    assert i == 2 ==> name != CText(FIRST[0]) && name != CText(FIRST[1]);
  }

  lemma ColumnTexts()
    ensures CText("device") == Lists.DEVICE && CText("footprint") == Lists.FOOTPRINT
    ensures CText("value") == Lists.VALUE && CText("symversion") == Lists.SYMVERSION
    ensures |Lists.DEVICE| == 6 && |Lists.FOOTPRINT| == 9 && |Lists.VALUE| == 5 && |Lists.SYMVERSION| == 10
  {
  }

  /** symversion comes last. */
  lemma VersionLast(name: CString)
    requires name != CText("symversion")
    ensures CompareKeys(Lists.AttribKey(name), Lists.AttribKey(CText("symversion"))) < 0
  {
    ColumnTexts();
  }

  predicate Usual(name: CString) {
    name == CText("device") || name == CText("footprint") || name == CText("value") || name == CText("symversion")
  }

  /** All others are in natural order. */
  lemma OthersNatural(x: CString, y: CString)
    requires !Usual(x) && !Usual(y)
    ensures CompareKeys(Lists.AttribKey(x), Lists.AttribKey(y)) == CompareTokens(Tokens(x), Tokens(y))
  {
    ColumnTexts();
  }
}
