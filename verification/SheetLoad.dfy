/** What the table holds after loading, and why saving it unedited changes nothing. */
module SheetLoad {
  import opened CStrings
  import opened AttribText
  import opened SaveSpec
  import opened SaveProofs
  import opened SaveExact
  import opened SaveTwice
  import opened Sequences
  import opened Wrappers

  /** A component as a value: its own attributes, and those its symbol brings along. */
  datatype Part = Part(attribs: seq<Attr>, inherited: seq<Attr>)

  const SHOW_VALUE: int := 1

  /** A fresh cell; the missing title reads as the empty text. */
  const BLANK: Cell := Cell([], None, true, SHOW_VALUE)

  function LoadedCell(n: CString, a: Attr): Cell {
    Cell(n, Remaining(a.text), a.visible, a.show)
  }

  /** The cell of column n after its component's attributes have been read: the last one of that name wins. */
  function FromAttribs(attribs: seq<Attr>, n: CString, c: Cell): Cell {
    if attribs == [] then c
    else
      var last := attribs[|attribs| - 1];
      if NameOf(last) == n then LoadedCell(n, last) else FromAttribs(attribs[..|attribs| - 1], n, c)
  }

  /** The cell of row r and column n after all components have been read. */
  function FromParts(parts: seq<Part>, r: CString, n: CString): Cell {
    if parts == [] then BLANK
    else
      var last := parts[|parts| - 1];
      var front := FromParts(parts[..|parts| - 1], r, n);
      if RefdesOf(last.attribs, last.inherited) == Some(r) then FromAttribs(last.attribs, n, front) else front
  }

  /** What comes back from the view: an empty text reads as no value, and the title is filled in. */
  function Refreshed(c: Cell, title: CString): Cell {
    Cell(title, if c.value == Some([]) then None else c.value, c.visible, c.show)
  }

  function LoadedSheet(parts: seq<Part>, rows: seq<CString>, cols: seq<CString>): Sheet {
    Sheet(rows, cols, seq(|rows|, i requires 0 <= i < |rows| =>
      seq(|cols|, j requires 0 <= j < |cols| => Refreshed(FromParts(parts, rows[i], cols[j]), cols[j]))))
  }

  lemma {:induction false} FromAttribsCarried(attribs: seq<Attr>, n: CString, c: Cell)
    requires WfAttribs(attribs)
    ensures FromAttribs(attribs, n, c) == match Carried(attribs, n) case None => c case Some(a) => LoadedCell(n, a)
    decreases |attribs|
  {
    if attribs != [] {
      var m := |attribs| - 1;
      if NameOf(attribs[m]) == n {
        CarriedAt(attribs, m);
      } else {
        FromAttribsCarried(attribs[..m], n, c);
        CarriedFront(attribs, n);
      }
    }
  }

  lemma CarriedFront(attribs: seq<Attr>, n: CString)
    requires WfAttribs(attribs) && attribs != [] && NameOf(attribs[|attribs| - 1]) != n
    ensures Carried(attribs[..|attribs| - 1], n) == Carried(attribs, n)
  {
    var front := attribs[..|attribs| - 1];
    assert WfAttribs(front);
    forall k | 0 <= k < |attribs| && NameOf(attribs[k]) == n
      ensures attribs[k] in front
    {
      assert front[k] == attribs[k];
    }
    CarriedSame(front, attribs, n);
  }

  ghost predicate Alone(parts: seq<Part>, k: nat, r: CString)
    requires k < |parts|
  {
    && RefdesOf(parts[k].attribs, parts[k].inherited) == Some(r)
    && forall i :: 0 <= i < |parts| && i != k ==> RefdesOf(parts[i].attribs, parts[i].inherited) != Some(r)
  }

  lemma {:induction false} NobodyElse(parts: seq<Part>, r: CString, n: CString)
    requires forall i :: 0 <= i < |parts| ==> RefdesOf(parts[i].attribs, parts[i].inherited) != Some(r)
    ensures FromParts(parts, r, n) == BLANK
  {
    if parts != [] {
      NobodyElse(parts[..|parts| - 1], r, n);
    }
  }

  lemma {:induction false} FromPartsAlone(parts: seq<Part>, k: nat, r: CString, n: CString)
    requires k < |parts| && Alone(parts, k, r)
    ensures FromParts(parts, r, n) == FromAttribs(parts[k].attribs, n, BLANK)
    decreases |parts|
  {
    var m := |parts| - 1;
    if k == m {
      NobodyElse(parts[..m], r, n);
    } else {
      FromPartsAlone(parts[..m], k, r, n);
    }
  }

  /** Titles that loading can produce: good names, none reserved, none twice. */
  ghost predicate WfTitles(rows: seq<CString>, cols: seq<CString>) {
    && NoDup(rows) && NoDup(cols)
    && forall j :: 0 <= j < |cols| ==> GoodName(cols[j]) && !Reserved(cols[j])
  }

  /** Every attribute that gets a column has one. */
  ghost predicate Covered(attribs: seq<Attr>, cols: seq<CString>) {
    forall i :: 0 <= i < |attribs| ==> Reserved(NameOf(attribs[i])) || NameOf(attribs[i]) in cols
  }

  lemma LoadedDesired(parts: seq<Part>, rows: seq<CString>, cols: seq<CString>, k: nat, row: nat, n: CString)
    requires WfTitles(rows, cols) && row < |rows| && k < |parts| && Alone(parts, k, rows[row])
    requires WfAttribs(parts[k].attribs) && Covered(parts[k].attribs, cols) && !Reserved(n)
    ensures Desired(LoadedSheet(parts, rows, cols), row, n) == Carried(parts[k].attribs, n)
  {
    var j := GetIndex(cols, n);
    FromPartsAlone(parts, k, rows[row], n);
    FromAttribsCarried(parts[k].attribs, n, BLANK);
    match Carried(parts[k].attribs, n)
    case None =>
    case Some(a) =>
      ProperParts(a.text);
      assert NameOf(a) == n && n in cols;
  }

  /** Loading and saving without edits is the identity on every component whose row name is its own. */
  lemma LoadSaveIdentity(parts: seq<Part>, rows: seq<CString>, cols: seq<CString>, k: nat, row: nat)
    requires WfTitles(rows, cols) && row < |rows| && k < |parts| && Alone(parts, k, rows[row])
    requires WfAttribs(parts[k].attribs) && Covered(parts[k].attribs, cols)
    ensures WfSheet(LoadedSheet(parts, rows, cols))
    ensures Save(parts[k].attribs, parts[k].inherited, LoadedSheet(parts, rows, cols)) == parts[k].attribs
  {
    var sheet := LoadedSheet(parts, rows, cols);
    forall n | !Reserved(n)
      ensures Carried(parts[k].attribs, n) == Desired(sheet, row, n)
    {
      LoadedDesired(parts, rows, cols, k, row, n);
    }
    SaveFixed(parts[k].attribs, parts[k].inherited, sheet, row);
  }
}
