/** What saving leaves behind column by column, what it does to a component that has no row, and exactly
    when saving again changes nothing. */
module SaveTwice {
  import opened CStrings
  import opened AttribText
  import opened SaveSpec
  import opened SaveProofs
  import opened SaveExact
  import opened Wrappers

  // ---- fixed points

  lemma StepSame(attribs: seq<Attr>, n: CString, w: Option<Wanted>)
    requires WantedAttr(n, w) == Carried(attribs, n)
    ensures Step(attribs, n, w) == attribs
  {
  }

  lemma SameNext(job: Job, row: nat, k: nat)
    requires IsJob(job, row) && k < |job.entries| && Agrees(job.attribs, job.sheet, row)
    requires State(job, k) == job.attribs
    ensures State(job, k + 1) == job.attribs
  {
    JobWf(job.attribs, job.inherited, job.sheet, row);
    StateNext(job, k);
    EntryOutcome(job, row, k, job.sheet.rows[row]);
    RowIndex(job.sheet, row);
    StateKeeps(job, 0, REFDES);
    assert !Reserved(Name(job, k));
    StepSame(job.attribs, Name(job, k), Want(job.sheet, job.pairs, job.entries[k], job.sheet.rows[row]));
  }

  lemma {:induction false} StateSame(job: Job, row: nat, k: nat)
    requires IsJob(job, row) && k <= |job.entries| && Agrees(job.attribs, job.sheet, row)
    ensures State(job, k) == job.attribs
  {
    if k == 0 {
      assert job.entries[..0] == [];
    } else {
      StateSame(job, row, k - 1);
      SameNext(job, row, k - 1);
    }
  }

  /** The row name of a saved component. */
  lemma SavedRefdes(attribs: seq<Attr>, inherited: seq<Attr>, sheet: Sheet, row: nat)
    requires InRow(attribs, inherited, sheet, row)
    ensures RefdesOf(Save(attribs, inherited, sheet), inherited) == Some(RefdesAfter(attribs, inherited, sheet, row))
  {
    var job := JobOf(attribs, inherited, sheet, row);
    JobWf(attribs, inherited, sheet, row);
    if k :| 0 <= k < |job.entries| && Name(job, k) == NUMSLOTS {
      RefdesOnceHandled(job, row, k, |job.entries|);
    } else {
      NoEntry(job, row, NUMSLOTS);
      RefdesAt(job, |job.entries|);
    }
  }

  /** Saving changes nothing, not even the order of the attributes, if and only if the component already
      carries what its row says. */
  lemma SaveFixed(attribs: seq<Attr>, inherited: seq<Attr>, sheet: Sheet, row: nat)
    requires InRow(attribs, inherited, sheet, row)
    ensures Save(attribs, inherited, sheet) == attribs <==> Agrees(attribs, sheet, row)
  {
    var job := JobOf(attribs, inherited, sheet, row);
    JobWf(attribs, inherited, sheet, row);
    if Agrees(attribs, sheet, row) {
      StateSame(job, row, |job.entries|);
    } else if Save(attribs, inherited, sheet) == attribs {
      SavedRefdes(attribs, inherited, sheet, row);
      SaveExactly(attribs, inherited, sheet, row);
    }
  }

  // ---- the result, column by column

  /** What saving leaves under the title of column j: columns to the right of a numslots cell that is not
      empty are displayed as the row of the new name says, and lost if there is none. */
  ghost function Kept(attribs: seq<Attr>, inherited: seq<Attr>, sheet: Sheet, row: nat, j: nat): Option<Attr>
    requires InRow(attribs, inherited, sheet, row) && j < |sheet.cols|
  {
    var c := GetIndex(sheet.cols, NUMSLOTS);
    var late := c != -1 && c < j && sheet.cells[row][c].value.Some?;
    var shown := if late then GetIndex(sheet.rows, RefdesAfter(attribs, inherited, sheet, row)) else row;
    if shown == -1 || Content(sheet.cells[row][j]).None? then None
    else Some(Attr(Pair(sheet.cols[j], Content(sheet.cells[row][j]).value), sheet.cells[shown][j].visible,
      sheet.cells[shown][j].show))
  }

  lemma KeptLate(job: Job, row: nat, c: nat, j: nat)
    requires IsJob(job, row) && c < j < |job.sheet.cols| && job.sheet.cols[c] == NUMSLOTS
    requires job.sheet.cells[row][j].value.Some? && job.sheet.cells[row][c].value.Some?
    ensures Carried(State(job, |job.entries|), job.sheet.cols[j]) ==
      Kept(job.attribs, job.inherited, job.sheet, row, j)
  {
    JobWf(job.attribs, job.inherited, job.sheet, row);
    var cells := job.sheet.cells[row];
    var after := RefdesAfter(job.attribs, job.inherited, job.sheet, row);
    ColumnIndex(job.sheet, c);
    ColumnOutcome(job, row, j, after);
    ColumnOutcome(job, row, c, after);
    PairsAt(cells, c);
    assert Name(job, Place(cells, c)) == NUMSLOTS;
    EntryCarried(job, row, Place(cells, j));
  }

  lemma KeptEntry(job: Job, row: nat, j: nat)
    requires IsJob(job, row) && j < |job.sheet.cols| && job.sheet.cells[row][j].value.Some?
    ensures Carried(State(job, |job.entries|), job.sheet.cols[j]) ==
      Kept(job.attribs, job.inherited, job.sheet, row, j)
  {
    JobWf(job.attribs, job.inherited, job.sheet, row);
    var c := GetIndex(job.sheet.cols, NUMSLOTS);
    if c != -1 && c < j && job.sheet.cells[row][c].value.Some? {
      KeptLate(job, row, c, j);
    } else {
      ColumnOutcome(job, row, j, []);
      ColumnIndex(job.sheet, j);
      NoSlotsBefore(job, row, j);
      EntryCarried(job, row, Place(job.sheet.cells[row], j));
    }
  }

  lemma NoSlotsBefore(job: Job, row: nat, j: nat)
    requires IsJob(job, row) && j < |job.sheet.cols| && job.sheet.cells[row][j].value.Some?
    requires var c := GetIndex(job.sheet.cols, NUMSLOTS); c == -1 || c >= j || job.sheet.cells[row][c].value.None?
    requires Place(job.sheet.cells[row], j) < |job.pairs| <= |job.entries|
    ensures forall k :: 0 <= k < Place(job.sheet.cells[row], j) ==> Name(job, k) != NUMSLOTS
  {
    JobWf(job.attribs, job.inherited, job.sheet, row);
    var cells := job.sheet.cells[row];
    forall k | 0 <= k < Place(cells, j) && Name(job, k) == NUMSLOTS
      ensures false
    {
      var l := ColumnAfterSlots(job, row, k, Place(cells, j));
      PairsAt(cells, j);
      PairsAt(cells, l);
    }
  }

  /** Saving, in full: every column leaves what Kept says, every other name that is not reserved goes. */
  lemma SaveResult(attribs: seq<Attr>, inherited: seq<Attr>, sheet: Sheet, row: nat, n: CString)
    requires InRow(attribs, inherited, sheet, row) && !Reserved(n)
    ensures var j := GetIndex(sheet.cols, n);
      Carried(Save(attribs, inherited, sheet), n) == if j == -1 then None else Kept(attribs, inherited, sheet, row, j)
  {
    var job := JobOf(attribs, inherited, sheet, row);
    JobWf(attribs, inherited, sheet, row);
    var j := GetIndex(sheet.cols, n);
    if j != -1 && sheet.cells[row][j].value.Some? {
      KeptEntry(job, row, j);
    } else if i :| 0 <= i < |job.entries| && Name(job, i) == n {
      NotAPair(job, row, i);
      EntryCarried(job, row, i);
      OldOutcome(job, row, i, RefdesAfter(attribs, inherited, sheet, row));
    } else {
      NoEntry(job, row, n);
    }
  }

  /** An entry whose name is not the title of a column with a value is an old one. */
  lemma NotAPair(job: Job, row: nat, i: nat)
    requires IsJob(job, row) && i < |job.entries|
    requires var j := GetIndex(job.sheet.cols, Name(job, i)); j == -1 || job.sheet.cells[row][j].value.None?
    ensures |job.pairs| <= i
  {
    JobWf(job.attribs, job.inherited, job.sheet, row);
    if i < |job.pairs| {
      var j := PairsIndex(job.sheet.cells[row], i);
      ColumnOutcome(job, row, j, []);
      ColumnIndex(job.sheet, j);
    }
  }

  // ---- a component whose name is not in the sheet

  ghost predicate Unlisted(attribs: seq<Attr>, inherited: seq<Attr>, sheet: Sheet) {
    && WfSheet(sheet) && WfAttribs(attribs) && RefdesOf(attribs, inherited).Some?
    && RefdesOf(attribs, inherited).value !in sheet.rows
  }

  ghost predicate Bare(attribs: seq<Attr>) {
    forall n {:trigger Carried(attribs, n)} :: !Reserved(n) ==> Carried(attribs, n).None?
  }

  lemma UnlistedJob(attribs: seq<Attr>, inherited: seq<Attr>, sheet: Sheet) returns (job: Job)
    requires Unlisted(attribs, inherited, sheet)
    ensures job == Job(attribs, inherited, sheet, [], Complete([], attribs)) && WfJob(job)
    ensures Save(attribs, inherited, sheet) == State(job, |job.entries|)
  {
    job := Job(attribs, inherited, sheet, [], Complete([], attribs));
    CompleteWf([], attribs);
    assert job.entries[..|job.entries|] == job.entries;
  }

  /** A component without a row loses every attribute that is not reserved. */
  lemma SaveUnlisted(attribs: seq<Attr>, inherited: seq<Attr>, sheet: Sheet)
    requires Unlisted(attribs, inherited, sheet)
    ensures WfAttribs(Save(attribs, inherited, sheet)) && Bare(Save(attribs, inherited, sheet))
    ensures forall n :: Reserved(n) ==> Carried(Save(attribs, inherited, sheet), n) == Carried(attribs, n)
    ensures Save(attribs, inherited, sheet) == attribs <==> Bare(attribs)
  {
    var job := UnlistedJob(attribs, inherited, sheet);
    StateWf(job, |job.entries|);
    forall n | Reserved(n)
      ensures Carried(Save(attribs, inherited, sheet), n) == Carried(attribs, n)
    {
      StateKeeps(job, |job.entries|, n);
    }
    forall n | !Reserved(n)
      ensures Carried(Save(attribs, inherited, sheet), n).None?
    {
      UnlistedGone(job, n);
    }
    if Bare(attribs) {
      BareEntries(attribs);
    }
  }

  lemma UnlistedEntry(job: Job, n: CString) returns (i: nat)
    requires WfJob(job) && job.pairs == [] && job.entries == Complete([], job.attribs) && !Reserved(n)
    requires Carried(job.attribs, n).Some?
    ensures i < |job.entries| && Name(job, i) == n
  {
    assert !NameInList([], n);
    i := CompleteHas([], job.attribs, IndexOf(job.attribs, n));
  }

  lemma UnlistedGone(job: Job, n: CString)
    requires WfJob(job) && job.pairs == [] && job.entries == Complete([], job.attribs) && !Reserved(n)
    ensures Carried(State(job, |job.entries|), n).None?
  {
    if i :| 0 <= i < |job.entries| && Name(job, i) == n {
      RefdesAt(job, i);
      StateSettles(job, i, |job.entries|, RefdesOf(State(job, i), job.inherited).value);
    } else {
      StateKeeps(job, |job.entries|, n);
      if Carried(job.attribs, n).Some? {
        var i := UnlistedEntry(job, n);
      }
    }
  }

  lemma BareEntries(attribs: seq<Attr>)
    requires WfAttribs(attribs) && Bare(attribs)
    ensures Complete([], attribs) == []
  {
    if Complete([], attribs) != [] {
      var t := CompleteIndex([], attribs, 0);
      CarriedAt(attribs, t);
    }
  }

  // ---- saving twice

  /** Saving again changes nothing: the row of the name the component ends up with, if there is one, asks
      for just what the first save left. */
  ghost predicate Settled(attribs: seq<Attr>, inherited: seq<Attr>, sheet: Sheet, row: nat)
    requires InRow(attribs, inherited, sheet, row)
  {
    var next := GetIndex(sheet.rows, RefdesAfter(attribs, inherited, sheet, row));
    forall j :: 0 <= j < |sheet.cols| ==>
      Kept(attribs, inherited, sheet, row, j) == if next == -1 then None else Desired(sheet, next, sheet.cols[j])
  }

  lemma KeptAll(attribs: seq<Attr>, inherited: seq<Attr>, sheet: Sheet, row: nat)
    requires InRow(attribs, inherited, sheet, row)
    ensures forall n {:trigger Carried(Save(attribs, inherited, sheet), n)} :: !Reserved(n) ==>
      var j := GetIndex(sheet.cols, n);
      Carried(Save(attribs, inherited, sheet), n) == if j == -1 then None else Kept(attribs, inherited, sheet, row, j)
    ensures forall j :: 0 <= j < |sheet.cols| ==>
      Carried(Save(attribs, inherited, sheet), sheet.cols[j]) == Kept(attribs, inherited, sheet, row, j)
  {
    var saved := Save(attribs, inherited, sheet);
    forall n | !Reserved(n)
      ensures var j := GetIndex(sheet.cols, n);
        Carried(saved, n) == if j == -1 then None else Kept(attribs, inherited, sheet, row, j)
    {
      SaveResult(attribs, inherited, sheet, row, n);
    }
    forall j | 0 <= j < |sheet.cols|
      ensures !Reserved(sheet.cols[j]) && Carried(saved, sheet.cols[j]) == Kept(attribs, inherited, sheet, row, j)
    {
      ColumnIndex(sheet, j);
      SaveResult(attribs, inherited, sheet, row, sheet.cols[j]);
    }
  }

  lemma KeptAgrees(attribs: seq<Attr>, inherited: seq<Attr>, sheet: Sheet, row: nat, next: nat)
    requires InRow(attribs, inherited, sheet, row)
    requires GetIndex(sheet.rows, RefdesAfter(attribs, inherited, sheet, row)) == next
    ensures Agrees(Save(attribs, inherited, sheet), sheet, next) <==> Settled(attribs, inherited, sheet, row)
  {
    KeptAll(attribs, inherited, sheet, row);
  }

  lemma KeptBare(attribs: seq<Attr>, inherited: seq<Attr>, sheet: Sheet, row: nat)
    requires InRow(attribs, inherited, sheet, row)
    requires GetIndex(sheet.rows, RefdesAfter(attribs, inherited, sheet, row)) == -1
    ensures Bare(Save(attribs, inherited, sheet)) <==> Settled(attribs, inherited, sheet, row)
  {
    KeptAll(attribs, inherited, sheet, row);
  }

  /** Saving twice equals saving once exactly for settled rows. */
  lemma SaveTwiceExactly(attribs: seq<Attr>, inherited: seq<Attr>, sheet: Sheet, row: nat)
    requires InRow(attribs, inherited, sheet, row)
    ensures var saved := Save(attribs, inherited, sheet);
      Save(saved, inherited, sheet) == saved <==> Settled(attribs, inherited, sheet, row)
  {
    var saved := Save(attribs, inherited, sheet);
    var after := RefdesAfter(attribs, inherited, sheet, row);
    var next := GetIndex(sheet.rows, after);
    SaveExactly(attribs, inherited, sheet, row);
    SavedRefdes(attribs, inherited, sheet, row);
    if next == -1 {
      SaveUnlisted(saved, inherited, sheet);
      KeptBare(attribs, inherited, sheet, row);
    } else {
      SaveFixed(saved, inherited, sheet, next);
      KeptAgrees(attribs, inherited, sheet, row, next);
    }
  }

  /** In particular whenever numslots does not change the row name. */
  lemma SaveTwiceUsually(attribs: seq<Attr>, inherited: seq<Attr>, sheet: Sheet, row: nat)
    requires InRow(attribs, inherited, sheet, row)
    requires RefdesAfter(attribs, inherited, sheet, row) == sheet.rows[row]
    ensures var saved := Save(attribs, inherited, sheet); Save(saved, inherited, sheet) == saved
  {
    RowIndex(sheet, row);
    forall j | 0 <= j < |sheet.cols|
      ensures Kept(attribs, inherited, sheet, row, j) == Desired(sheet, row, sheet.cols[j])
    {
      ColumnIndex(sheet, j);
    }
    SaveTwiceExactly(attribs, inherited, sheet, row);
  }

  // ---- a row for which saving fails

  const A: CString := [65]

  const VALUE: CString := [118]

  function SlotSheet(): Sheet {
    Sheet([A + [DOT] + [49], A], [NUMSLOTS, VALUE],
      [[Cell(NUMSLOTS, None, true, 0), Cell(VALUE, None, true, 0)],
       [Cell(NUMSLOTS, Some([50]), true, 0), Cell(VALUE, Some([51]), false, 1)]])
  }

  function SlotPart(): seq<Attr> {
    [Attr(Pair(REFDES, A), true, 0), Attr(Pair(SLOT, [49]), true, 0)]
  }

  lemma SlotPartReads()
    ensures WfAttribs(SlotPart()) && RefdesOf(SlotPart(), []) == Some(A)
    ensures Search(SlotPart(), REFDES) == Some(A) && Search(SlotPart(), SLOT) == Some([49])
    ensures SlotPart() + [] == SlotPart()
  {
    var p := SlotPart();
    PairParts(REFDES, A);
    PairParts(SLOT, [49]);
    assert p[1..][1..] == [];
    assert p + [] == p;
    assert REFDES[0] != SLOT[0];
  }

  lemma SlotSheetWf()
    ensures WfSheet(SlotSheet())
  {
    var sheet := SlotSheet();
    assert |REFDES| == 6 && |NUMSLOTS| == 8 && |SLOT| == 4 && |NET| == 3 && |VALUE| == 1;
    assert |sheet.rows[0]| == 3 && |sheet.rows[1]| == 1;
  }

  lemma SlotSheetReads()
    ensures var sheet := SlotSheet();
      && WfSheet(sheet) && GetIndex(sheet.cols, NUMSLOTS) == 0 && GetIndex(sheet.cols, VALUE) == 1
      && GetIndex(sheet.rows, A) == 1 && GetIndex(sheet.rows, A + ([DOT] + [49])) == 0
      && Content(sheet.cells[1][0]).Some? && Content(sheet.cells[1][1]).Some? && Content(sheet.cells[0][1]).None?
  {
    var sheet := SlotSheet();
    SlotSheetWf();
    assert sheet.rows[0] == A + ([DOT] + [49]);
    ColumnIndex(sheet, 0);
    ColumnIndex(sheet, 1);
    RowIndex(sheet, 0);
    RowIndex(sheet, 1);
  }

  /** Filling in numslots on a slotted part makes its later columns be looked up as A.1 instead of A: the
      value is saved, but displayed as another row says, and the next save drops it. */
  lemma SaveCanFail()
    ensures InRow(SlotPart(), [], SlotSheet(), 1) && !RowHolds(SlotPart(), [], SlotSheet(), 1)
    ensures !Agrees(Save(SlotPart(), [], SlotSheet()), SlotSheet(), 1)
    ensures !Settled(SlotPart(), [], SlotSheet(), 1)
  {
    SlotPartReads();
    SlotSheetReads();
    assert RefdesAfter(SlotPart(), [], SlotSheet(), 1) == A + ([DOT] + [49]);
    assert Misplaced(SlotSheet(), 1, A + ([DOT] + [49]), 1);
    SaveExactly(SlotPart(), [], SlotSheet(), 1);
    assert Kept(SlotPart(), [], SlotSheet(), 1, 1).Some?;
    assert Desired(SlotSheet(), 0, SlotSheet().cols[1]).None?;
  }
}
