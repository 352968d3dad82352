/** The resumable loop over actions: what any run does to the file, the repository and the journal. */
module RefactorRun {
  import opened Wrappers
  import opened PyText
  import opened BodyText
  import opened VoidCalls
  import opened ActionText
  import opened Generator
  import opened Validators
  import opened ChecksAgree
  import opened RenderedChecks
  import opened Units
  import opened Sequences

  datatype Event =
    | RunStart | RunStop | RunEnd
    | Drift(cid: string)
    | Rejected(cid: string, differs: bool)
    | Verified(cid: string)
    | Committed(cid: string)

  predicate Completes(e: Event) {
    e.Verified? || e.Committed?
  }

  predicate About(e: Event, cid: string) {
    (e.Drift? || e.Rejected? || e.Verified? || e.Committed?) && e.cid == cid
  }

  /** completed_cids. */
  function CompletedCids(journal: seq<Event>): set<string> {
    set i | 0 <= i < |journal| && Completes(journal[i]) :: journal[i].cid
  }

  /** rejected_cids: only rejections whose reason says that the output differs from the oracle. */
  function RejectedCids(journal: seq<Event>): set<string> {
    set i | 0 <= i < |journal| && journal[i].Rejected? && journal[i].differs :: journal[i].cid
  }

  /** What the model sends back: nothing usable, a reply that holds no definition of the action, or a body
      and whether its table row matched. */
  datatype Reply = Fault | Garbled | Answer(body: string, rowMatches: bool)

  /** What the outside world does in one turn of the loop. */
  datatype Turn = Turn(late: bool, reply: Reply, compiles: bool)

  datatype Args = Args(resume: bool, retry: bool, only: set<string>, maxUnits: nat)

  /** The checks commit_unit makes on the file. */
  function UnitProblems(file: Lines, e: Entry, wide: char -> bool): seq<Problem> {
    Concat(BodyProblems(ActualBodies(file, [e], wide), [e], wide)) + CheckRows(file, [e])
  }

  function Pending(entries: seq<Entry>, skip: set<string>, only: set<string>): (pending: seq<Entry>)
    ensures |pending| <= |entries|
  {
    if entries == [] then []
    else
      var last := entries[|entries| - 1];
      var front := Pending(entries[..|entries| - 1], skip, only);
      if last.cid !in skip && (only == {} || last.cid in only) then front + [last] else front
  }

  lemma {:induction false} PendingIn(entries: seq<Entry>, skip: set<string>, only: set<string>)
    requires DistinctCids(entries)
    ensures DistinctCids(Pending(entries, skip, only))
    ensures forall i :: 0 <= i < |Pending(entries, skip, only)| ==>
      Pending(entries, skip, only)[i] in entries && Pending(entries, skip, only)[i].cid !in skip
  {
    if entries != [] {
      var m := |entries| - 1;
      PendingIn(entries[..m], skip, only);
      assert forall e :: e in entries[..m] ==> e in entries && e.cid != entries[m].cid;
    }
  }

  /** What the loop relies on: the verdict on a body, the splice into the regenerated file, and the checks of
      a file for one entry. */
  datatype Tools = Tools(accepts: (Entry, string) -> bool, splice: (string, string) -> Applied,
                         check: (Lines, Entry) -> seq<Problem>)

  /** The tools as they are. */
  function ToolsFor(frame: Frame, entries: seq<Entry>, wide: char -> bool): Tools {
    Tools((e, body) => Accepted(e, body, wide), (cid, body) => Apply(Source(frame, entries, wide), cid, body, wide),
      (file, e) => UnitProblems(file, e, wide))
  }

  /** No accepted reply for this entry would change the regenerated file. */
  ghost predicate NeverWrites(tools: Tools, e: Entry) {
    forall body :: tools.accepts(e, body) ==> tools.splice(e.cid, body) == Unchanged
  }

  // ---- what one turn decides

  /** The file with the reply in it, if the definition it is for can be found. */
  function Spliced(file: Lines, e: Entry, body: string, tools: Tools): Option<Lines> {
    match tools.splice(e.cid, body)
    case NotLocated => None
    case Unchanged => Some(file)
    case Written(lines) => Some(lines)
  }

  /** The definition is found, and the checks report nothing about the file with the reply in it. */
  predicate Passes(file: Lines, e: Entry, body: string, tools: Tools) {
    Spliced(file, e, body, tools).Some? && tools.check(Spliced(file, e, body, tools).value, e) == []
  }

  /** The definition is found, and the checks report its body. */
  predicate BodyFails(file: Lines, e: Entry, body: string, tools: Tools) {
    && Spliced(file, e, body, tools).Some?
    && BodyDiffers(e.cid) in tools.check(Spliced(file, e, body, tools).value, e)
  }

  /** The reply is as the oracle has it, body and row. */
  predicate Agrees(e: Entry, reply: Reply, tools: Tools) {
    reply.Answer? && reply.rowMatches && tools.accepts(e, reply.body)
  }

  /** What a unit must meet to be complete. */
  predicate Deserves(file: Lines, e: Entry, turn: Turn, tools: Tools) {
    && Agrees(e, turn.reply, tools) && turn.compiles
    && Passes(file, e, turn.reply.body, tools)
  }

  /** Whether a rejection says that the output differs from the oracle: the reply does, or the body found in the
      file afterwards. */
  predicate Differs(file: Lines, e: Entry, turn: Turn, tools: Tools) {
    turn.reply.Answer? && (
      || !Agrees(e, turn.reply, tools)
      || (turn.compiles && BodyFails(file, e, turn.reply.body, tools)))
  }

  /** The file changes only when a unit is complete. */
  function FileAfter(file: Lines, e: Entry, turn: Turn, tools: Tools): Lines {
    if Deserves(file, e, turn, tools) then Spliced(file, e, turn.reply.body, tools).value else file
  }

  /** The record that decides the unit. */
  function Verdict(file: Lines, e: Entry, turn: Turn, tools: Tools): Event {
    if !Deserves(file, e, turn, tools) then Rejected(e.cid, Differs(file, e, turn, tools))
    else if FileAfter(file, e, turn, tools) == file then Verified(e.cid)
    else Committed(e.cid)
  }

  /** All records of a turn: a reply that differs is noted first. */
  function Records(file: Lines, e: Entry, turn: Turn, tools: Tools): seq<Event> {
    (if turn.reply.Answer? && !Agrees(e, turn.reply, tools) then [Drift(e.cid)] else []) +
    [Verdict(file, e, turn, tools)]
  }

  class Workspace {
    var disk: Lines
    var index: Lines
    var head: Lines
    var journal: seq<Event>

    /** What was on disk when each record was written. */
    ghost var seen: seq<Lines>

    /** Working copy, staged copy and committed copy are the same. */
    ghost predicate Tidy()
      reads this
    {
      disk == index == head && |seen| == |journal|
    }

    method Append(e: Event)
      modifies this`journal, this`seen
      ensures journal == old(journal) + [e] && seen == old(seen) + [disk]
    {
      journal := journal + [e];
      seen := seen + [disk];
    }

    /** git checkout of the file: the staged copy comes back. */
    method Restore()
      modifies this`disk
      ensures disk == index
    {
      disk := index;
    }

    /** apply_body and the checks: whether the file on disk is now fit to be staged. */
    method Splice(e: Entry, body: string, tools: Tools) returns (verdict: Option<Event>)
      requires Tidy()
      modifies this`disk
      ensures verdict.Some? ==> disk == old(disk) && verdict.value.Rejected? && verdict.value.cid == e.cid
      ensures verdict.None? ==> tools.check(disk, e) == [] && Spliced(old(disk), e, body, tools) == Some(disk)
      ensures verdict.None? <==> Passes(old(disk), e, body, tools)
      ensures verdict.Some? ==> (verdict.value.differs <==> BodyFails(old(disk), e, body, tools))
      ensures tools.splice(e.cid, body) == Unchanged ==> disk == old(disk)
    {
      var applied := tools.splice(e.cid, body);
      if applied.NotLocated? {
        return Some(Rejected(e.cid, false));
      }
      if applied.Written? {
        disk := applied.lines;
      }
      var problems := tools.check(disk, e);
      if problems != [] {
        Restore();
        return Some(Rejected(e.cid, BodyDiffers(e.cid) in problems));
      }
      return None;
    }

    /** commit_unit: the record it leads to, and whether the unit counts as accepted. */
    method CommitUnit(e: Entry, turn: Turn, tools: Tools) returns (record: Event)
      requires Tidy() && Agrees(e, turn.reply, tools) && turn.compiles
      modifies this`disk, this`index, this`head
      ensures record == Verdict(old(disk), e, turn, tools) && disk == FileAfter(old(disk), e, turn, tools)
      ensures Tidy() && (record.Rejected? || Completes(record)) && record.cid == e.cid
      ensures Completes(record) ==> tools.check(disk, e) == []
      ensures !record.Committed? ==> disk == old(disk)
      ensures tools.splice(e.cid, turn.reply.body) == Unchanged ==> !record.Committed?
    {
      var verdict := Splice(e, turn.reply.body, tools);
      if verdict.Some? {
        return verdict.value;
      }
      index := disk;
      if index == head {
        return Verified(e.cid);
      }
      head := index;
      return Committed(e.cid);
    }

    /** One turn of the loop, for a reply that is not a fault: the record that decides the unit. */
    method ProcessUnit(e: Entry, turn: Turn, tools: Tools) returns (record: Event)
      requires Tidy() && !turn.reply.Fault?
      modifies this
      ensures Tidy() && (record.Rejected? || Completes(record)) && record.cid == e.cid
      ensures Completes(record) <==> Deserves(old(disk), e, turn, tools)
      ensures record == Verdict(old(disk), e, turn, tools) && disk == FileAfter(old(disk), e, turn, tools)
      ensures journal == old(journal) + Records(old(disk), e, turn, tools)
      ensures journal == old(journal) + [record] ||
        (journal == old(journal) + [Drift(e.cid), record] && !Completes(record))
      ensures old(seen) <= seen && (Completes(record) ==> tools.check(seen[|seen| - 1], e) == [])
      ensures Completes(record) ==> journal == old(journal) + [record] && seen[|seen| - 1] == head
      ensures !record.Committed? ==> disk == old(disk)
      ensures NeverWrites(tools, e) ==> !record.Committed?
    {
      if turn.reply.Garbled? {
        record := Rejected(e.cid, false);
      } else if !tools.accepts(e, turn.reply.body) || !turn.reply.rowMatches {
        Append(Drift(e.cid));
        record := Rejected(e.cid, true);
      } else if !turn.compiles {
        Restore();
        record := Rejected(e.cid, false);
      } else {
        record := CommitUnit(e, turn, tools);
      }
      Append(record);
    }

    /** One turn of the loop: whether it ends the run, and how many units it accepted. */
    method TakeTurn(pending: seq<Entry>, k: nat, turn: Turn, tools: Tools, ghost base: nat)
      returns (stop: bool, counted: nat)
      requires Tidy() && DistinctCids(pending) && k < |pending| && base <= |journal|
      requires Progress(journal, seen, base, pending[..k], tools)
      modifies this
      ensures Tidy() && old(journal) <= journal && old(seen) <= seen
      ensures Progress(journal, seen, base, pending[..if stop then k else k + 1], tools)
      ensures Completions(journal[base..]) == old(Completions(journal[base..])) + counted
      ensures stop <==> Stops(turn)
      ensures stop ==> journal == old(journal) + [RunStop] && disk == old(disk)
      ensures !stop ==>
        journal == old(journal) + Records(old(disk), pending[k], turn, tools) &&
        disk == FileAfter(old(disk), pending[k], turn, tools)
      ensures NeverWrites(tools, pending[k]) ==>
        disk == old(disk) && (old(NoCommit(journal, base)) ==> NoCommit(journal, base))
    {
      ghost var j, s := journal, seen;
      counted := 0;
      stop := turn.late || turn.reply.Fault?;
      if stop {
        Append(RunStop);
        ProgressMark(j, s, RunStop, disk, base, pending[..k], tools);
      } else {
        var record := ProcessUnit(pending[k], turn, tools);
        ProgressUnit(j, s, journal, seen, record, base, pending, k, tools);
        counted := if Completes(record) then 1 else 0;
      }
    }

    /** The loop of cmd_run, until the actions are used up, time is over or the model cannot be reached. */
    method Drain(pending: seq<Entry>, world: seq<Turn>, tools: Tools, ghost base: nat) returns (accepted: nat)
      requires Tidy() && DistinctCids(pending) && |world| >= |pending| && base <= |journal|
      requires Progress(journal, seen, base, [], tools) && Completions(journal[base..]) == 0 && NoCommit(journal, base)
      modifies this
      ensures Tidy() && old(journal) <= journal && old(seen) <= seen
      ensures Progress(journal, seen, base, pending, tools) && accepted == Completions(journal[base..])
      ensures journal == old(journal) + Story(pending, world, old(disk), tools)
      ensures disk == FileAt(pending, world, old(disk), Taken(pending, world), tools)
      ensures AllNeverWrite(tools, pending) ==> disk == old(disk) && NoCommit(journal, base)
    {
      accepted := 0;
      var stopped := false;
      var k := 0;
      ghost var j, file := journal, disk;
      ToldStart(j, pending, world, file, tools);
      while k < |pending| && !stopped
        invariant k <= |pending| && Tidy() && old(journal) <= journal && old(seen) <= seen
        invariant Progress(journal, seen, base, pending[..k], tools) && accepted == Completions(journal[base..])
        invariant Told(j, journal, disk, pending, world, file, k, stopped, tools)
        invariant AllNeverWrite(tools, pending) ==> disk == old(disk) && NoCommit(journal, base)
        decreases |pending| - k, !stopped
      {
        var counted;
        ghost var told, before := journal, disk;
        stopped, counted := TakeTurn(pending, k, world[k], tools, base);
        ToldNext(j, told, journal, before, disk, pending, world, file, k, stopped, tools);
        accepted := accepted + counted;
        k := if stopped then k else k + 1;
      }
      ToldAll(j, journal, disk, pending, world, file, k, stopped, tools);
      ProgressMore(journal, seen, base, pending, k, tools);
    }

    /** The first record of a run. */
    method Begin(ghost tools: Tools)
      requires Tidy()
      modifies this`journal, this`seen
      ensures Tidy() && journal == old(journal) + [RunStart] && old(seen) <= seen
      ensures Progress(journal, seen, old(|journal|), [], tools)
      ensures Completions(journal[old(|journal|)..]) == 0 && NoCommit(journal, old(|journal|))
    {
      ghost var j, s := journal, seen;
      assert j[|j|..] == [];
      Append(RunStart);
      ProgressMark(j, s, RunStart, disk, |j|, [], tools);
    }

    /** A run that has something to do. */
    method RunPending(pending: seq<Entry>, world: seq<Turn>, tools: Tools) returns (accepted: nat)
      requires Tidy() && DistinctCids(pending) && |world| >= |pending| && pending != []
      modifies this
      ensures Tidy() && old(journal) <= journal && old(seen) <= seen
      ensures Progress(journal, seen, old(|journal|), pending, tools)
      ensures accepted == Completions(journal[old(|journal|)..])
      ensures journal == old(journal) + RunRecords(pending, world, old(disk), tools)
      ensures disk == FileAt(pending, world, old(disk), Taken(pending, world), tools)
      ensures AllNeverWrite(tools, pending) ==> disk == old(disk) && NoCommit(journal, old(|journal|))
    {
      ghost var before, file := journal, disk;
      Begin(tools);
      accepted := Drain(pending, world, tools, |before|);
      ghost var j, s := journal, seen;
      Append(RunEnd);
      ProgressMark(j, s, RunEnd, disk, |before|, pending, tools);
      BeginEnd(before, Story(pending, world, file, tools));
    }

    /** cmd_run: `world` says what happens outside in each turn. */
    method Run(entries: seq<Entry>, args: Args, world: seq<Turn>, tools: Tools) returns (accepted: nat)
      requires Tidy() && DistinctCids(entries) && |world| >= |entries|
      modifies this
      ensures Tidy() && old(journal) <= journal && old(seen) <= seen
      ensures Progress(journal, seen, old(|journal|), Todo(entries, old(journal), args), tools)
      ensures accepted == Completions(journal[old(|journal|)..])
      ensures var pending := Todo(entries, old(journal), args);
        && journal == old(journal) + RunRecords(pending, world, old(disk), tools)
        && disk == FileAt(pending, world, old(disk), Taken(pending, world), tools)
      ensures AllNeverWrite(tools, entries) ==> disk == old(disk) && NoCommit(journal, old(|journal|))
    {
      accepted := 0;
      var pending := Todo(entries, journal, args);
      if pending == [] {
        assert journal[|journal|..] == [];
        NothingLast(journal);
        return;
      }
      TodoIn(entries, journal, args);
      TodoNeverWrites(entries, journal, args, tools);
      accepted := RunPending(pending, world, tools);
    }
  }

  // ---- what a run amounts to

  /** Time is over, or the model cannot be reached. */
  predicate Stops(turn: Turn) {
    turn.late || turn.reply.Fault?
  }

  /** How many actions are dealt with before the run stops. */
  function Taken(pending: seq<Entry>, world: seq<Turn>): (n: nat)
    requires |world| >= |pending|
    ensures n <= |pending| && (n < |pending| ==> Stops(world[n]))
    ensures forall k :: 0 <= k < n ==> !Stops(world[k])
  {
    if pending == [] || Stops(world[0]) then 0 else 1 + Taken(pending[1..], world[1..])
  }

  /** The file after k turns. */
  function FileAt(pending: seq<Entry>, world: seq<Turn>, file: Lines, k: nat, tools: Tools): Lines
    requires k <= |pending| <= |world|
  {
    if k == 0 then file
    else FileAfter(FileAt(pending, world, file, k - 1, tools), pending[k - 1], world[k - 1], tools)
  }

  /** The records of k turns. */
  function StoryTo(pending: seq<Entry>, world: seq<Turn>, file: Lines, k: nat, tools: Tools): seq<Event>
    requires k <= |pending| <= |world|
  {
    if k == 0 then []
    else
      StoryTo(pending, world, file, k - 1, tools) +
      Records(FileAt(pending, world, file, k - 1, tools), pending[k - 1], world[k - 1], tools)
  }

  function Story(pending: seq<Entry>, world: seq<Turn>, file: Lines, tools: Tools): seq<Event>
    requires |world| >= |pending|
  {
    var n := Taken(pending, world);
    StoryTo(pending, world, file, n, tools) + if n < |pending| then [RunStop] else []
  }

  /** What has been written and what is on disk after k turns; `stopped` if the next one ended the run. */
  ghost predicate Told(j: seq<Event>, journal: seq<Event>, disk: Lines, pending: seq<Entry>, world: seq<Turn>,
                       file: Lines, k: nat, stopped: bool, tools: Tools)
    requires |pending| <= |world|
  {
    && k <= |pending| && disk == FileAt(pending, world, file, k, tools) && (forall i :: 0 <= i < k ==> !Stops(world[i]))
    && (stopped ==> k < |pending| && Stops(world[k]))
    && journal == j + (StoryTo(pending, world, file, k, tools) + if stopped then [RunStop] else [])
  }

  lemma ToldStart(j: seq<Event>, pending: seq<Entry>, world: seq<Turn>, file: Lines, tools: Tools)
    requires |pending| <= |world|
    ensures Told(j, j, file, pending, world, file, 0, false, tools)
  {
  }

  lemma ToldNext(j: seq<Event>, journal: seq<Event>, journal': seq<Event>, disk: Lines, disk': Lines,
                 pending: seq<Entry>, world: seq<Turn>, file: Lines, k: nat, stopped: bool, tools: Tools)
    requires k < |pending| <= |world| && Told(j, journal, disk, pending, world, file, k, false, tools)
    requires stopped <==> Stops(world[k])
    requires stopped ==> journal' == journal + [RunStop] && disk' == disk
    requires !stopped ==>
      journal' == journal + Records(disk, pending[k], world[k], tools) &&
      disk' == FileAfter(disk, pending[k], world[k], tools)
    ensures Told(j, journal', disk', pending, world, file, if stopped then k else k + 1, stopped, tools)
  {
    var story := StoryTo(pending, world, file, k, tools);
    NothingLast(story);
    if stopped {
      Associative(j, story, [RunStop]);
    } else {
      var records := Records(disk, pending[k], world[k], tools);
      Associative(j, story, records);
      NothingLast(story + records);
    }
  }

  lemma ToldAll(j: seq<Event>, journal: seq<Event>, disk: Lines, pending: seq<Entry>, world: seq<Turn>, file: Lines,
                k: nat, stopped: bool, tools: Tools)
    requires |pending| <= |world| && Told(j, journal, disk, pending, world, file, k, stopped, tools)
    requires k == |pending| || stopped
    ensures journal == j + Story(pending, world, file, tools)
    ensures disk == FileAt(pending, world, file, Taken(pending, world), tools)
  {
    TakenIs(pending, world, k);
  }

  lemma {:induction false} TakenIs(pending: seq<Entry>, world: seq<Turn>, k: nat)
    requires k <= |pending| <= |world| && (forall i :: 0 <= i < k ==> !Stops(world[i]))
    requires k < |pending| ==> Stops(world[k])
    ensures Taken(pending, world) == k
  {
    if k > 0 {
      assert forall i :: 0 <= i < k - 1 ==> world[1..][i] == world[i + 1];
      TakenIs(pending[1..], world[1..], k - 1);
    }
  }

  lemma BeginEnd(j: seq<Event>, story: seq<Event>)
    ensures j + [RunStart] + story + [RunEnd] == j + ([RunStart] + story + [RunEnd])
  {
  }

  /** A run without anything to do writes nothing. */
  function RunRecords(pending: seq<Entry>, world: seq<Turn>, file: Lines, tools: Tools): seq<Event>
    requires |world| >= |pending|
  {
    if pending == [] then [] else [RunStart] + Story(pending, world, file, tools) + [RunEnd]
  }

  ghost predicate AllNeverWrite(tools: Tools, entries: seq<Entry>) {
    forall i :: 0 <= i < |entries| ==> NeverWrites(tools, entries[i])
  }

  function Completions(records: seq<Event>): nat {
    if records == [] then 0
    else Completions(records[..|records| - 1]) + if Completes(records[|records| - 1]) then 1 else 0
  }

  ghost predicate NoCommit(journal: seq<Event>, start: nat) {
    forall i :: start <= i < |journal| ==> !journal[i].Committed?
  }

  /** The actions a run takes on. */
  function Todo(entries: seq<Entry>, journal: seq<Event>, args: Args): (todo: seq<Entry>)
    ensures |todo| <= |entries|
  {
    var done := if args.resume then CompletedCids(journal) else {};
    var rejected := if args.resume && !args.retry then RejectedCids(journal) else {};
    var pending := Pending(entries, done + rejected, args.only);
    if 0 < args.maxUnits < |pending| then pending[..args.maxUnits] else pending
  }

  lemma TodoIn(entries: seq<Entry>, journal: seq<Event>, args: Args)
    requires DistinctCids(entries)
    ensures var todo := Todo(entries, journal, args);
      && DistinctCids(todo)
      && forall i :: 0 <= i < |todo| ==> todo[i] in entries && (args.resume ==> todo[i].cid !in CompletedCids(journal))
  {
    var done := if args.resume then CompletedCids(journal) else {};
    var rejected := if args.resume && !args.retry then RejectedCids(journal) else {};
    PendingIn(entries, done + rejected, args.only);
  }

  lemma TodoNeverWrites(entries: seq<Entry>, journal: seq<Event>, args: Args, tools: Tools)
    requires DistinctCids(entries)
    ensures AllNeverWrite(tools, entries) ==> AllNeverWrite(tools, Todo(entries, journal, args))
  {
    TodoIn(entries, journal, args);
  }

  /** A record about one of the actions taken on; a completing one was written while a file that passes the
      checks for that action was on disk. */
  ghost predicate Fair(e: Event, file: Lines, taken: seq<Entry>, tools: Tools) {
    || e == RunStart || e == RunStop || e == RunEnd
    || exists q :: 0 <= q < |taken| && About(e, taken[q].cid) && (Completes(e) ==> tools.check(file, taken[q]) == [])
  }

  /** Every record of a run is fair, and no action is completed twice. */
  ghost predicate Progress(journal: seq<Event>, seen: seq<Lines>, start: nat, taken: seq<Entry>, tools: Tools) {
    && start <= |journal| == |seen|
    && (forall i :: start <= i < |journal| ==> Fair(journal[i], seen[i], taken, tools))
    && forall i, j :: start <= i < j < |journal| && Completes(journal[i]) && Completes(journal[j]) ==>
      journal[i].cid != journal[j].cid
  }

  lemma CompletionsNext(records: seq<Event>, e: Event)
    ensures Completions(records + [e]) == Completions(records) + if Completes(e) then 1 else 0
  {
    assert (records + [e])[..|records|] == records;
  }

  lemma ProgressMark(journal: seq<Event>, seen: seq<Lines>, e: Event, file: Lines, start: nat, taken: seq<Entry>,
                     tools: Tools)
    requires Progress(journal, seen, start, taken, tools) && (e == RunStart || e == RunStop || e == RunEnd)
    ensures Progress(journal + [e], seen + [file], start, taken, tools)
    ensures Completions((journal + [e])[start..]) == Completions(journal[start..])
  {
    CompletionsNext(journal[start..], e);
    assert (journal + [e])[start..] == journal[start..] + [e];
  }

  lemma FairMore(e: Event, file: Lines, taken: seq<Entry>, k: nat, l: nat, tools: Tools)
    requires k <= l <= |taken| && Fair(e, file, taken[..k], tools)
    ensures Fair(e, file, taken[..l], tools)
  {
    if q :| 0 <= q < k && About(e, taken[..k][q].cid) && (Completes(e) ==> tools.check(file, taken[..k][q]) == []) {
      assert taken[..l][q] == taken[..k][q];
    }
  }

  lemma ProgressMore(journal: seq<Event>, seen: seq<Lines>, start: nat, taken: seq<Entry>, k: nat, tools: Tools)
    requires k <= |taken| && Progress(journal, seen, start, taken[..k], tools)
    ensures Progress(journal, seen, start, taken, tools)
  {
    assert taken[..|taken|] == taken;
    forall i | start <= i < |journal|
      ensures Fair(journal[i], seen[i], taken, tools)
    {
      FairMore(journal[i], seen[i], taken, k, |taken|, tools);
    }
  }

  /** A completing record names one of the actions taken on. */
  lemma FairNames(e: Event, file: Lines, taken: seq<Entry>, tools: Tools)
    requires Fair(e, file, taken, tools) && Completes(e)
    ensures exists q :: 0 <= q < |taken| && e.cid == taken[q].cid
  {
  }

  lemma CompletionsUnit(journal: seq<Event>, journal': seq<Event>, record: Event, start: nat, cid: string)
    requires start <= |journal|
    requires journal' == journal + [record] || journal' == journal + [Drift(cid), record]
    ensures Completions(journal'[start..]) == Completions(journal[start..]) + if Completes(record) then 1 else 0
  {
    if journal' == journal + [record] {
      assert journal'[start..] == journal[start..] + [record];
      CompletionsNext(journal[start..], record);
    } else {
      assert journal'[start..] == journal[start..] + [Drift(cid)] + [record];
      CompletionsNext(journal[start..], Drift(cid));
      CompletionsNext(journal[start..] + [Drift(cid)], record);
    }
  }

  lemma ProgressUnit(journal: seq<Event>, seen: seq<Lines>, journal': seq<Event>, seen': seq<Lines>, record: Event,
                     start: nat, pending: seq<Entry>, k: nat, tools: Tools)
    requires k < |pending| && DistinctCids(pending) && Progress(journal, seen, start, pending[..k], tools)
    requires (record.Rejected? || Completes(record)) && record.cid == pending[k].cid && |journal'| == |seen'|
    requires journal' == journal + [record] ||
      (journal' == journal + [Drift(pending[k].cid), record] && !Completes(record))
    requires seen <= seen' && (Completes(record) ==> tools.check(seen'[|seen'| - 1], pending[k]) == [])
    ensures Progress(journal', seen', start, pending[..k + 1], tools)
    ensures Completions(journal'[start..]) == Completions(journal[start..]) + if Completes(record) then 1 else 0
  {
    var taken := pending[..k + 1];
    assert taken[k] == pending[k];
    forall i | start <= i < |journal'|
      ensures Fair(journal'[i], seen'[i], taken, tools)
    {
      if i < |journal| {
        FairMore(journal[i], seen[i], pending, k, k + 1, tools);
      } else {
        assert About(journal'[i], taken[k].cid);
      }
    }
    forall i | start <= i < |journal| && Completes(journal[i])
      ensures journal[i].cid != record.cid
    {
      FairNames(journal[i], seen[i], pending[..k], tools);
    }
    CompletionsUnit(journal, journal', record, start, pending[k].cid);
  }

  // ---- over all runs

  /** A resumed run does nothing about an action that is complete already. */
  lemma ResumeFresh(entries: seq<Entry>, args: Args, before: seq<Event>, journal: seq<Event>, seen: seq<Lines>,
                    tools: Tools, i: nat, cid: string)
    requires DistinctCids(entries) && args.resume && before <= journal
    requires Progress(journal, seen, |before|, Todo(entries, before, args), tools)
    requires |before| <= i < |journal| && About(journal[i], cid)
    ensures cid !in CompletedCids(before)
  {
    TodoIn(entries, before, args);
    assert Fair(journal[i], seen[i], Todo(entries, before, args), tools);
  }

  /** No action is completed twice. */
  ghost predicate OnceEach(journal: seq<Event>) {
    forall i, j :: 0 <= i < j < |journal| && Completes(journal[i]) && Completes(journal[j]) ==>
      journal[i].cid != journal[j].cid
  }

  /** A resumed run completes no action that was completed before, or twice. */
  lemma OnceAlways(entries: seq<Entry>, args: Args, before: seq<Event>, journal: seq<Event>, seen: seq<Lines>,
                   tools: Tools)
    requires DistinctCids(entries) && args.resume && before <= journal && OnceEach(before)
    requires Progress(journal, seen, |before|, Todo(entries, before, args), tools)
    ensures OnceEach(journal)
  {
    forall i, j | 0 <= i < j < |journal| && Completes(journal[i]) && Completes(journal[j])
      ensures journal[i].cid != journal[j].cid
    {
      if i < |before| <= j {
        ResumeFresh(entries, args, before, journal, seen, tools, j, journal[j].cid);
        assert before[i] == journal[i] && before[i].cid in CompletedCids(before);
      } else if j < |before| {
        assert before[i] == journal[i] && before[j] == journal[j];
      }
    }
  }

  /** What one run is given: its arguments, and what happens outside. */
  datatype Session = Session(args: Args, world: seq<Turn>)

  /** Every completing record from `start` on is about an action of the inventory, and was written while a file
      that passes the checks for that action was on disk. */
  ghost predicate Checked(journal: seq<Event>, seen: seq<Lines>, start: nat, entries: seq<Entry>, tools: Tools) {
    && start <= |journal| == |seen|
    && forall i :: start <= i < |journal| && Completes(journal[i]) ==> CheckedAt(journal[i], seen[i], entries, tools)
  }

  ghost predicate CheckedAt(e: Event, file: Lines, entries: seq<Entry>, tools: Tools) {
    exists entry :: entry in entries && About(e, entry.cid) && tools.check(file, entry) == []
  }

  lemma FairChecked(e: Event, file: Lines, taken: seq<Entry>, entries: seq<Entry>, tools: Tools)
    requires Fair(e, file, taken, tools) && Completes(e) && forall i :: 0 <= i < |taken| ==> taken[i] in entries
    ensures CheckedAt(e, file, entries, tools)
  {
    var q :| 0 <= q < |taken| && About(e, taken[q].cid) && tools.check(file, taken[q]) == [];
    assert taken[q] in entries;
  }

  lemma RunChecked(entries: seq<Entry>, args: Args, before: seq<Event>, start: nat, seen: seq<Lines>,
                   journal': seq<Event>, seen': seq<Lines>, tools: Tools)
    requires DistinctCids(entries) && Checked(before, seen, start, entries, tools) && before <= journal' &&
      seen <= seen'
    requires Progress(journal', seen', |before|, Todo(entries, before, args), tools)
    ensures Checked(journal', seen', start, entries, tools)
  {
    TodoIn(entries, before, args);
    forall i | start <= i < |journal'| && Completes(journal'[i])
      ensures CheckedAt(journal'[i], seen'[i], entries, tools)
    {
      if i < |before| {
        assert before[i] == journal'[i] && seen[i] == seen'[i];
      } else {
        FairChecked(journal'[i], seen'[i], Todo(entries, before, args), entries, tools);
      }
    }
  }

  /** Over any sequence of resumed runs no action is completed twice, and every completing record was written over
      a file that passes its checks. */
  method RunSessions(w: Workspace, entries: seq<Entry>, sessions: seq<Session>, tools: Tools)
    requires w.Tidy() && DistinctCids(entries) && OnceEach(w.journal)
    requires forall s :: s in sessions ==> s.args.resume && |s.world| >= |entries|
    modifies w
    ensures w.Tidy() && old(w.journal) <= w.journal && OnceEach(w.journal)
    ensures Checked(w.journal, w.seen, old(|w.journal|), entries, tools)
  {
    ghost var start := |w.journal|;
    for n := 0 to |sessions|
      invariant w.Tidy() && old(w.journal) <= w.journal && OnceEach(w.journal)
      invariant Checked(w.journal, w.seen, start, entries, tools)
    {
      ghost var before, seen := w.journal, w.seen;
      assert sessions[n] in sessions;
      var _ := w.Run(entries, sessions[n].args, sessions[n].world, tools);
      OnceAlways(entries, sessions[n].args, before, w.journal, w.seen, tools);
      RunChecked(entries, sessions[n].args, before, start, seen, w.journal, w.seen, tools);
    }
  }

  /** An inventory as the oracle gives it, whose bodies all splice, each definition being the first of its name. */
  ghost predicate Spliceable(frame: Frame, entries: seq<Entry>, wide: char -> bool) {
    forall i :: 0 <= i < |entries| ==>
      && IsCid(entries[i].cid, wide) && Normalize(entries[i].body) == entries[i].body
      && FirstOfName(frame, entries, i, wide) && Splices(entries[i], wide)
  }

  lemma SplicesNeverWrite(frame: Frame, entries: seq<Entry>, wide: char -> bool)
    requires Spliceable(frame, entries, wide)
    ensures AllNeverWrite(ToolsFor(frame, entries, wide), entries)
  {
    var tools := ToolsFor(frame, entries, wide);
    forall i, body | 0 <= i < |entries| && tools.accepts(entries[i], body)
      ensures tools.splice(entries[i].cid, body) == Unchanged
    {
      ApplyExactly(frame, entries, i, body, wide);
    }
  }

  /** With an inventory whose bodies all splice, no run changes the file or commits anything, whatever the
      model replies: every action that is completed was complete on disk before. */
  method RunActions(w: Workspace, frame: Frame, entries: seq<Entry>, args: Args, world: seq<Turn>, wide: char -> bool)
    returns (accepted: nat)
    requires w.Tidy() && |world| >= |entries|
    requires DistinctCids(entries) && Spliceable(frame, entries, wide)
    modifies w
    ensures w.Tidy() && w.disk == old(w.disk) && old(w.journal) <= w.journal
    ensures NoCommit(w.journal, old(|w.journal|))
    ensures accepted == Completions(w.journal[old(|w.journal|)..])
    ensures args.resume && OnceEach(old(w.journal)) ==> OnceEach(w.journal)
  {
    var tools := ToolsFor(frame, entries, wide);
    SplicesNeverWrite(frame, entries, wide);
    ghost var before := w.journal;
    accepted := w.Run(entries, args, world, tools);
    if args.resume && OnceEach(before) {
      OnceAlways(entries, args, before, w.journal, w.seen, tools);
    }
  }
}
