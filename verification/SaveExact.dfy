/** Exactly when saving leaves a component with what its row says. */
module SaveExact {
  import opened CStrings
  import opened AttribText
  import opened SaveSpec
  import opened SaveProofs
  import opened Wrappers

  /** One component being saved. */
  datatype Job = Job(attribs: seq<Attr>, inherited: seq<Attr>, sheet: Sheet, pairs: seq<CString>, entries: seq<CString>)

  ghost predicate WfJob(job: Job) {
    && WfSheet(job.sheet) && WfAttribs(job.attribs) && WfEntries(job.entries)
    && Search(job.attribs + job.inherited, REFDES).Some?
  }

  /** The attributes after the first k entries. */
  ghost function State(job: Job, k: nat): seq<Attr>
    requires WfSheet(job.sheet) && k <= |job.entries|
  {
    Run(job.attribs, job.inherited, job.sheet, job.pairs, job.entries[..k])
  }

  ghost function Name(job: Job, i: nat): CString
    requires i < |job.entries|
  {
    BreakupName(job.entries[i])
  }

  lemma StateNext(job: Job, k: nat)
    requires WfSheet(job.sheet) && k < |job.entries|
    ensures State(job, k + 1) == Handle(State(job, k), job.inherited, job.sheet, job.pairs, job.entries[k])
    ensures State(job, 0) == job.attribs
  {
    assert job.entries[..k + 1][..k] == job.entries[..k];
  }

  lemma WantGood(sheet: Sheet, pairs: seq<CString>, entry: CString, refdes: CString)
    requires WfSheet(sheet)
    ensures var w := Want(sheet, pairs, entry, refdes); w.Some? ==> GoodValue(w.value.value)
  {
  }

  /** A name no entry has touched yet is carried as at the start. */
  lemma {:induction false} StateKeeps(job: Job, k: nat, m: CString)
    requires WfJob(job) && k <= |job.entries|
    requires forall i :: 0 <= i < k ==> Name(job, i) != m
    ensures WfAttribs(State(job, k)) && Carried(State(job, k), m) == Carried(job.attribs, m)
  {
    if k == 0 {
      assert job.entries[..k] == [];
    } else {
      StateKeeps(job, k - 1, m);
      HandleCarried(job, k - 1, m);
      assert Name(job, k - 1) != m;
    }
  }

  /** What entry i leads to when the component is looked up as `refdes`. */
  ghost function Outcome(job: Job, i: nat, refdes: CString): Option<Attr>
    requires WfSheet(job.sheet) && i < |job.entries|
  {
    WantedAttr(Name(job, i), Want(job.sheet, job.pairs, job.entries[i], refdes))
  }

  lemma HandleCarried(job: Job, k: nat, m: CString)
    requires WfJob(job) && k < |job.entries| && WfAttribs(State(job, k))
    ensures WfAttribs(State(job, k + 1))
    ensures m != Name(job, k) ==> Carried(State(job, k + 1), m) == Carried(State(job, k), m)
    ensures RefdesOf(State(job, k), job.inherited).Some? ==>
      Carried(State(job, k + 1), Name(job, k)) == Outcome(job, k, RefdesOf(State(job, k), job.inherited).value)
  {
    StateNext(job, k);
    var s := State(job, k);
    var r := RefdesOf(s, job.inherited);
    if r.Some? {
      var w := Want(job.sheet, job.pairs, job.entries[k], r.value);
      WantGood(job.sheet, job.pairs, job.entries[k], r.value);
      StepCarried(s, Name(job, k), w, m);
      StepCarried(s, Name(job, k), w, Name(job, k));
    }
  }

  lemma StateWf(job: Job, k: nat)
    requires WfJob(job) && k <= |job.entries|
    ensures WfAttribs(State(job, k))
  {
    StateKeeps(job, k, REFDES);
  }

  /** Row name of the component after k entries: only the numslots attribute can have changed it. */
  lemma RefdesAt(job: Job, k: nat)
    requires WfJob(job) && k <= |job.entries|
    ensures WfAttribs(State(job, k))
    ensures RefdesOf(State(job, k), job.inherited) == Some(RowNameWith(job,
              Carried(State(job, k), NUMSLOTS).Some? || Search(job.inherited, NUMSLOTS).Some?))
  {
    StateKeeps(job, k, REFDES);
    StateKeeps(job, k, SLOT);
    SearchCarried(job.attribs, job.inherited, REFDES);
    SearchCarried(job.attribs, job.inherited, SLOT);
    SearchCarried(State(job, k), job.inherited, REFDES);
    SearchCarried(State(job, k), job.inherited, SLOT);
    SearchCarried(State(job, k), job.inherited, NUMSLOTS);
  }

  /** The component's row name if it counts as slotted or not. */
  ghost function RowNameWith(job: Job, slotted: bool): CString
    requires WfJob(job)
  {
    var all := job.attribs + job.inherited;
    RowName(Search(all, REFDES).value, slotted, Search(all, SLOT))
  }

  /** Once entry i is handled its name stays settled. */
  lemma {:induction false} StateSettles(job: Job, i: nat, k: nat, refdes: CString)
    requires WfJob(job) && i < k <= |job.entries|
    requires RefdesOf(State(job, i), job.inherited) == Some(refdes)
    ensures Carried(State(job, k), Name(job, i)) == Outcome(job, i, refdes)
    decreases k
  {
    StateWf(job, k - 1);
    HandleCarried(job, k - 1, Name(job, i));
    if i < k - 1 {
      StateSettles(job, i, k - 1, refdes);
      assert Name(job, i) != Name(job, k - 1);
    }
  }

  // ---- the job of saving a component found in row `row`

  ghost predicate InRow(attribs: seq<Attr>, inherited: seq<Attr>, sheet: Sheet, row: nat) {
    && WfSheet(sheet) && WfAttribs(attribs) && row < |sheet.rows|
    && RefdesOf(attribs, inherited) == Some(sheet.rows[row])
  }

  ghost function JobOf(attribs: seq<Attr>, inherited: seq<Attr>, sheet: Sheet, row: nat): Job
    requires row < |sheet.cells|
  {
    var pairs := Pairs(sheet.cells[row]);
    Job(attribs, inherited, sheet, pairs, Complete(pairs, attribs))
  }

  lemma RowIndex(sheet: Sheet, row: nat)
    requires WfSheet(sheet) && row < |sheet.rows|
    ensures GetIndex(sheet.rows, sheet.rows[row]) == row
  {
  }

  lemma JobWf(attribs: seq<Attr>, inherited: seq<Attr>, sheet: Sheet, row: nat)
    requires InRow(attribs, inherited, sheet, row)
    ensures var job := JobOf(attribs, inherited, sheet, row);
      WfJob(job) && WfRow(sheet.cells[row]) && Save(attribs, inherited, sheet) == State(job, |job.entries|)
  {
    var job := JobOf(attribs, inherited, sheet, row);
    RowIndex(sheet, row);
    assert forall j :: 0 <= j < |sheet.cols| ==> sheet.cells[row][j].colName == sheet.cols[j];
    PairsWf(sheet.cells[row]);
    CompleteWf(job.pairs, attribs);
    assert job.entries[..|job.entries|] == job.entries;
  }

  /** The row name once the numslots cell has had its effect. */
  ghost function RefdesAfter(attribs: seq<Attr>, inherited: seq<Attr>, sheet: Sheet, row: nat): CString
    requires InRow(attribs, inherited, sheet, row)
  {
    var all := attribs + inherited;
    RowName(Search(all, REFDES).value,
      Desired(sheet, row, NUMSLOTS).Some? || Search(inherited, NUMSLOTS).Some?, Search(all, SLOT))
  }

  /** Column j of the row holds something. */
  ghost predicate Filled(sheet: Sheet, row: nat, j: nat)
    requires WfSheet(sheet) && row < |sheet.cells|
  {
    j < |sheet.cols| && Content(sheet.cells[row][j]).Some?
  }

  /** A filled column j to the right of a non-empty numslots cell that is looked up under another row
      name `refdes`, where it finds no row or a row that displays it differently. */
  ghost predicate Misplaced(sheet: Sheet, row: nat, refdes: CString, j: nat)
    requires WfSheet(sheet) && row < |sheet.cells|
  {
    var k := GetIndex(sheet.cols, NUMSLOTS);
    && k != -1 && sheet.cells[row][k].value.Some? && k < j && Filled(sheet, row, j)
    && var other := GetIndex(sheet.rows, refdes);
       other == -1 || sheet.cells[other][j].visible != sheet.cells[row][j].visible ||
         sheet.cells[other][j].show != sheet.cells[row][j].show
  }

  /** Saving works for this row: numslots does not change the row name, or nothing depends on that. */
  ghost predicate RowHolds(attribs: seq<Attr>, inherited: seq<Attr>, sheet: Sheet, row: nat)
    requires InRow(attribs, inherited, sheet, row)
  {
    var after := RefdesAfter(attribs, inherited, sheet, row);
    after == sheet.rows[row] || forall j :: 0 <= j < |sheet.cols| ==> !Misplaced(sheet, row, after, j)
  }

  /** The pair of column j asks for the cell's content, displayed as row `other` says. */
  lemma ColumnOutcome(job: Job, row: nat, j: nat, refdes: CString)
    requires WfJob(job) && row < |job.sheet.cells| && j < |job.sheet.cols| && WfRow(job.sheet.cells[row])
    requires job == JobOf(job.attribs, job.inherited, job.sheet, row) && job.sheet.cells[row][j].value.Some?
    ensures var c := job.sheet.cells[row][j]; var i := Place(job.sheet.cells[row], j);
      var other := GetIndex(job.sheet.rows, refdes);
      && i < |job.pairs| <= |job.entries| && Name(job, i) == job.sheet.cols[j]
      && Outcome(job, i, refdes) == (
        if Content(c).None? || other == -1 then None
        else Some(Attr(Pair(job.sheet.cols[j], Content(c).value), job.sheet.cells[other][j].visible,
          job.sheet.cells[other][j].show)))
  {
    var cells := job.sheet.cells[row];
    var i := Place(cells, j);
    PairsAt(cells, j);
    CompleteLength(job.pairs, job.attribs);
    var t := CompleteIndex(job.pairs, job.attribs, i);
    assert job.entries[i] == PairOf(cells[j]) && job.entries[i] in job.pairs;
    PairParts(cells[j].colName, cells[j].value.value);
    ColumnIndex(job.sheet, j);
  }

  lemma ColumnIndex(sheet: Sheet, j: nat)
    requires WfSheet(sheet) && j < |sheet.cols|
    ensures GetIndex(sheet.cols, sheet.cols[j]) == j
  {
  }

  lemma SlotsEntry(job: Job, row: nat, i: nat)
    requires InRow(job.attribs, job.inherited, job.sheet, row)
    requires job == JobOf(job.attribs, job.inherited, job.sheet, row)
    requires i < |job.entries| && Name(job, i) == NUMSLOTS
    ensures Outcome(job, i, job.sheet.rows[row]) == Desired(job.sheet, row, NUMSLOTS)
  {
    EntryOutcome(job, row, i, job.sheet.rows[row]);
    RowIndex(job.sheet, row);
  }

  lemma PairListed(job: Job, row: nat, j: nat)
    requires WfJob(job) && row < |job.sheet.cells| && j < |job.sheet.cols| && WfRow(job.sheet.cells[row])
    requires job == JobOf(job.attribs, job.inherited, job.sheet, row) && job.sheet.cells[row][j].value.Some?
    ensures NameInList(job.pairs, job.sheet.cols[j])
  {
    ColumnOutcome(job, row, j, []);
    var k := Place(job.sheet.cells[row], j);
    var t := CompleteIndex(job.pairs, job.attribs, k);
    assert BreakupName(job.pairs[k]) == job.sheet.cols[j];
  }

  /** An entry of the old part asks for nothing, and its row has nothing under that name either. */
  lemma OldOutcome(job: Job, row: nat, i: nat, refdes: CString)
    requires InRow(job.attribs, job.inherited, job.sheet, row)
    requires job == JobOf(job.attribs, job.inherited, job.sheet, row)
    requires |job.pairs| <= i < |job.entries|
    ensures Outcome(job, i, refdes).None? && Desired(job.sheet, row, Name(job, i)).None?
  {
    JobWf(job.attribs, job.inherited, job.sheet, row);
    var t := CompleteIndex(job.pairs, job.attribs, i);
    assert job.entries[i] !in job.pairs;
    var j := GetIndex(job.sheet.cols, Name(job, i));
    if j != -1 && job.sheet.cells[row][j].value.Some? {
      PairListed(job, row, j);
    }
  }

  /** What any entry leads to, compared with what its row says. */
  lemma EntryOutcome(job: Job, row: nat, i: nat, refdes: CString)
    requires InRow(job.attribs, job.inherited, job.sheet, row)
    requires job == JobOf(job.attribs, job.inherited, job.sheet, row) && i < |job.entries|
    ensures GetIndex(job.sheet.rows, refdes) == row ==>
      Outcome(job, i, refdes) == Desired(job.sheet, row, Name(job, i))
  {
    JobWf(job.attribs, job.inherited, job.sheet, row);
    if i < |job.pairs| {
      var j := PairsIndex(job.sheet.cells[row], i);
      ColumnOutcome(job, row, j, refdes);
      ColumnIndex(job.sheet, j);
    } else {
      OldOutcome(job, row, i, refdes);
    }
  }

  // ---- which row name each entry sees

  ghost predicate IsJob(job: Job, row: nat) {
    && InRow(job.attribs, job.inherited, job.sheet, row)
    && job == JobOf(job.attribs, job.inherited, job.sheet, row)
  }

  lemma RefdesBefore(job: Job, row: nat, i: nat)
    requires IsJob(job, row) && i <= |job.entries|
    requires forall k :: 0 <= k < i ==> Name(job, k) != NUMSLOTS
    ensures RefdesOf(State(job, i), job.inherited) == Some(job.sheet.rows[row])
  {
    JobWf(job.attribs, job.inherited, job.sheet, row);
    StateKeeps(job, i, NUMSLOTS);
    RefdesAt(job, i);
    RefdesAt(job, 0);
    assert job.entries[..0] == [];
  }

  lemma RefdesOnceHandled(job: Job, row: nat, k: nat, i: nat)
    requires IsJob(job, row) && k < i <= |job.entries| && Name(job, k) == NUMSLOTS
    ensures RefdesOf(State(job, i), job.inherited) == Some(RefdesAfter(job.attribs, job.inherited, job.sheet, row))
  {
    JobWf(job.attribs, job.inherited, job.sheet, row);
    RefdesBefore(job, row, k);
    StateSettles(job, k, i, job.sheet.rows[row]);
    SlotsEntry(job, row, k);
    RefdesAt(job, i);
  }

  /** What the component carries in the end under the name of an entry. */
  lemma EntryCarried(job: Job, row: nat, i: nat)
    requires IsJob(job, row) && i < |job.entries|
    ensures (forall k :: 0 <= k < i ==> Name(job, k) != NUMSLOTS) ==>
      Carried(State(job, |job.entries|), Name(job, i)) == Desired(job.sheet, row, Name(job, i))
    ensures (exists k :: 0 <= k < i && Name(job, k) == NUMSLOTS) ==>
      Carried(State(job, |job.entries|), Name(job, i)) ==
        Outcome(job, i, RefdesAfter(job.attribs, job.inherited, job.sheet, row))
  {
    JobWf(job.attribs, job.inherited, job.sheet, row);
    if k :| 0 <= k < i && Name(job, k) == NUMSLOTS {
      RefdesOnceHandled(job, row, k, i);
      StateSettles(job, i, |job.entries|, RefdesAfter(job.attribs, job.inherited, job.sheet, row));
    } else {
      RefdesBefore(job, row, i);
      StateSettles(job, i, |job.entries|, job.sheet.rows[row]);
      RowIndex(job.sheet, row);
      EntryOutcome(job, row, i, job.sheet.rows[row]);
    }
  }

  lemma EntryOfOld(job: Job, row: nat, n: CString) returns (i: nat)
    requires IsJob(job, row) && !Reserved(n) && Carried(job.attribs, n).Some?
    ensures i < |job.entries| && Name(job, i) == n
  {
    if NameInList(job.pairs, n) {
      i :| 0 <= i < |job.pairs| && BreakupName(job.pairs[i]) == n;
      CompleteLength(job.pairs, job.attribs);
      var t := CompleteIndex(job.pairs, job.attribs, i);
    } else {
      i := CompleteHas(job.pairs, job.attribs, IndexOf(job.attribs, n));
    }
  }

  lemma EntryOfColumn(job: Job, row: nat, n: CString) returns (i: nat)
    requires IsJob(job, row) && Desired(job.sheet, row, n).Some?
    ensures i < |job.entries| && Name(job, i) == n
  {
    JobWf(job.attribs, job.inherited, job.sheet, row);
    var j := GetIndex(job.sheet.cols, n);
    ColumnOutcome(job, row, j, []);
    i := Place(job.sheet.cells[row], j);
  }

  /** A name that is not reserved and has no entry is neither carried nor asked for. */
  lemma NoEntry(job: Job, row: nat, n: CString)
    requires IsJob(job, row) && !Reserved(n)
    requires forall i :: 0 <= i < |job.entries| ==> Name(job, i) != n
    ensures Carried(State(job, |job.entries|), n).None? && Desired(job.sheet, row, n).None?
  {
    JobWf(job.attribs, job.inherited, job.sheet, row);
    StateKeeps(job, |job.entries|, n);
    if Desired(job.sheet, row, n).Some? {
      var i := EntryOfColumn(job, row, n);
    }
    if Carried(job.attribs, n).Some? {
      var i := EntryOfOld(job, row, n);
    }
  }

  /** The column behind an entry that comes after the numslots entry. */
  lemma ColumnAfterSlots(job: Job, row: nat, k: nat, i: nat) returns (j: nat)
    requires IsJob(job, row) && k < i < |job.pairs| <= |job.entries| && Name(job, k) == NUMSLOTS
    ensures var c := GetIndex(job.sheet.cols, NUMSLOTS); var cells := job.sheet.cells[row];
      && 0 <= c < j < |job.sheet.cols| && cells[c].value.Some? && cells[j].value.Some?
      && Place(cells, j) == i && Name(job, i) == job.sheet.cols[j]
  {
    JobWf(job.attribs, job.inherited, job.sheet, row);
    var cells := job.sheet.cells[row];
    var c := PairsIndex(cells, k);
    j := PairsIndex(cells, i);
    ColumnOutcome(job, row, c, []);
    ColumnOutcome(job, row, j, []);
    ColumnIndex(job.sheet, c);
    PairsAt(cells, j);
  }

  lemma EntryHolds(job: Job, row: nat, i: nat)
    requires IsJob(job, row) && RowHolds(job.attribs, job.inherited, job.sheet, row) && i < |job.entries|
    ensures Carried(State(job, |job.entries|), Name(job, i)) == Desired(job.sheet, row, Name(job, i))
  {
    JobWf(job.attribs, job.inherited, job.sheet, row);
    CompleteLength(job.pairs, job.attribs);
    var after := RefdesAfter(job.attribs, job.inherited, job.sheet, row);
    EntryCarried(job, row, i);
    if k :| 0 <= k < i && Name(job, k) == NUMSLOTS {
      if i >= |job.pairs| {
        OldOutcome(job, row, i, after);
      } else if after == job.sheet.rows[row] {
        RowIndex(job.sheet, row);
        EntryOutcome(job, row, i, after);
      } else {
        var j := ColumnAfterSlots(job, row, k, i);
        ColumnOutcome(job, row, j, after);
        ColumnIndex(job.sheet, j);
        assert !Misplaced(job.sheet, row, after, j);
      }
    }
  }

  lemma MisplacedFails(job: Job, row: nat, j: nat)
    requires IsJob(job, row) && j < |job.sheet.cols|
    requires Misplaced(job.sheet, row, RefdesAfter(job.attribs, job.inherited, job.sheet, row), j)
    ensures Carried(State(job, |job.entries|), job.sheet.cols[j]) != Desired(job.sheet, row, job.sheet.cols[j])
  {
    JobWf(job.attribs, job.inherited, job.sheet, row);
    var cells := job.sheet.cells[row];
    var after := RefdesAfter(job.attribs, job.inherited, job.sheet, row);
    var c := GetIndex(job.sheet.cols, NUMSLOTS);
    ColumnOutcome(job, row, c, after);
    ColumnOutcome(job, row, j, after);
    PairsAt(cells, c);
    assert Name(job, Place(cells, c)) == NUMSLOTS;
    EntryCarried(job, row, Place(cells, j));
    ColumnIndex(job.sheet, j);
  }

  /** The component carries what its row says, under every name that is not reserved. */
  ghost predicate Agrees(attribs: seq<Attr>, sheet: Sheet, row: nat)
    requires WfSheet(sheet) && row < |sheet.rows|
  {
    forall n {:trigger Carried(attribs, n)} {:trigger Desired(sheet, row, n)} ::
      !Reserved(n) ==> Carried(attribs, n) == Desired(sheet, row, n)
  }

  /** Saving leaves a component with exactly what its row says if and only if RowHolds; the attributes
      refdes, net and slot are never touched. */
  lemma SaveExactly(attribs: seq<Attr>, inherited: seq<Attr>, sheet: Sheet, row: nat)
    requires InRow(attribs, inherited, sheet, row)
    ensures WfAttribs(Save(attribs, inherited, sheet))
    ensures Agrees(Save(attribs, inherited, sheet), sheet, row) <==> RowHolds(attribs, inherited, sheet, row)
    ensures forall n :: Reserved(n) ==> Carried(Save(attribs, inherited, sheet), n) == Carried(attribs, n)
  {
    var job := JobOf(attribs, inherited, sheet, row);
    JobWf(attribs, inherited, sheet, row);
    StateWf(job, |job.entries|);
    forall n | Reserved(n)
      ensures Carried(Save(attribs, inherited, sheet), n) == Carried(attribs, n)
    {
      StateKeeps(job, |job.entries|, n);
    }
    if RowHolds(attribs, inherited, sheet, row) {
      forall n | !Reserved(n)
        ensures Carried(Save(attribs, inherited, sheet), n) == Desired(sheet, row, n)
      {
        if i :| 0 <= i < |job.entries| && Name(job, i) == n {
          EntryHolds(job, row, i);
        } else {
          NoEntry(job, row, n);
        }
      }
    } else {
      var j :| 0 <= j < |sheet.cols| && Misplaced(sheet, row, RefdesAfter(attribs, inherited, sheet, row), j);
      MisplacedFails(job, row, j);
    }
  }
}
