/** What the journal of a run says: which actions are taken on, and the one record that decides each. */
module RunStory {
  import opened Wrappers
  import opened ActionText
  import opened Generator
  import opened Validators
  import opened ChecksAgree
  import opened Units
  import opened RefactorRun
  import opened Sequences

  // ---- which actions are taken on

  /** The journal has no record that keeps a resumed run from an action, and the action is asked for. */
  ghost predicate Wanted(e: Entry, journal: seq<Event>, args: Args) {
    && (args.resume ==> Verified(e.cid) !in journal && Committed(e.cid) !in journal)
    && (args.resume && !args.retry ==> Rejected(e.cid, true) !in journal)
    && (args.only != {} ==> e.cid in args.only)
  }

  ghost function WantedIn(entries: seq<Entry>, journal: seq<Event>, args: Args): nat {
    if entries == [] then 0
    else
      WantedIn(entries[..|entries| - 1], journal, args) +
      if Wanted(entries[|entries| - 1], journal, args) then 1 else 0
  }

  lemma CompletedExactly(journal: seq<Event>, cid: string)
    ensures cid in CompletedCids(journal) <==> Verified(cid) in journal || Committed(cid) in journal
  {
    if cid in CompletedCids(journal) {
      var i :| 0 <= i < |journal| && Completes(journal[i]) && journal[i].cid == cid;
      assert journal[i] == Verified(cid) || journal[i] == Committed(cid);
    }
  }

  lemma RejectedExactly(journal: seq<Event>, cid: string)
    ensures cid in RejectedCids(journal) <==> Rejected(cid, true) in journal
  {
    if cid in RejectedCids(journal) {
      var i :| 0 <= i < |journal| && journal[i].Rejected? && journal[i].differs && journal[i].cid == cid;
      assert journal[i] == Rejected(cid, true);
    }
  }

  lemma WantedExactly(e: Entry, journal: seq<Event>, args: Args)
    ensures var done := if args.resume then CompletedCids(journal) else {};
      var rejected := if args.resume && !args.retry then RejectedCids(journal) else {};
      Wanted(e, journal, args) <==> e.cid !in done + rejected && (args.only == {} || e.cid in args.only)
  {
    CompletedExactly(journal, e.cid);
    RejectedExactly(journal, e.cid);
  }

  /** All that are wanted, in order. */
  lemma {:induction false} PendingWanted(entries: seq<Entry>, journal: seq<Event>, args: Args, skip: set<string>)
    requires forall e :: Wanted(e, journal, args) <==> e.cid !in skip && (args.only == {} || e.cid in args.only)
    ensures |Pending(entries, skip, args.only)| == WantedIn(entries, journal, args)
    ensures forall i :: 0 <= i < |entries| && Wanted(entries[i], journal, args) ==>
      var c := WantedIn(entries[..i], journal, args);
      c < |Pending(entries, skip, args.only)| && Pending(entries, skip, args.only)[c] == entries[i]
  {
    if entries != [] {
      var m := |entries| - 1;
      PendingWanted(entries[..m], journal, args, skip);
      forall i | 0 <= i < |entries| && Wanted(entries[i], journal, args)
        ensures var c := WantedIn(entries[..i], journal, args);
          c < |Pending(entries, skip, args.only)| && Pending(entries, skip, args.only)[c] == entries[i]
      {
        if i < m {
          TakeTake(entries, m, i);
          assert entries[..m][i] == entries[i];
        }
      }
    }
  }

  /** A run takes on the actions that are wanted, in the order of the inventory, as many as it may. */
  lemma TodoExactly(entries: seq<Entry>, journal: seq<Event>, args: Args)
    ensures var todo, n := Todo(entries, journal, args), WantedIn(entries, journal, args);
      && |todo| == (if 0 < args.maxUnits < n then args.maxUnits else n)
      && forall i :: 0 <= i < |entries| && Wanted(entries[i], journal, args) ==>
           var c := WantedIn(entries[..i], journal, args);
           c < |todo| ==> todo[c] == entries[i]
  {
    var done := if args.resume then CompletedCids(journal) else {};
    var rejected := if args.resume && !args.retry then RejectedCids(journal) else {};
    forall e
      ensures Wanted(e, journal, args) <==> e.cid !in done + rejected && (args.only == {} || e.cid in args.only)
    {
      WantedExactly(e, journal, args);
    }
    PendingWanted(entries, journal, args, done + rejected);
  }

  // ---- the record that decides an action

  /** The records that decide the action called cid. */
  function Decisions(records: seq<Event>, cid: string): seq<Event> {
    if records == [] then []
    else
      var last := records[|records| - 1];
      Decisions(records[..|records| - 1], cid) +
      if (last.Rejected? || last.Verified? || last.Committed?) && last.cid == cid then [last] else []
  }

  lemma {:induction false} DecisionsAppend(a: seq<Event>, b: seq<Event>, cid: string)
    ensures Decisions(a + b, cid) == Decisions(a, cid) + Decisions(b, cid)
  {
    if b == [] {
      NothingLast(a);
      NothingLast(Decisions(a, cid));
    } else {
      var m := |b| - 1;
      assert (a + b)[..|a + b| - 1] == a + b[..m];
      DecisionsAppend(a, b[..m], cid);
      var last := if (b[m].Rejected? || b[m].Verified? || b[m].Committed?) && b[m].cid == cid then [b[m]] else [];
      Associative(Decisions(a, cid), Decisions(b[..m], cid), last);
    }
  }

  lemma DecisionsOne(e: Event, cid: string)
    ensures Decisions([e], cid) ==
      if (e.Rejected? || e.Verified? || e.Committed?) && e.cid == cid then [e] else []
  {
    assert [e][..0] == [];
    assert Decisions([e][..0], cid) == [];
  }

  lemma RecordsDecide(file: Lines, e: Entry, turn: Turn, tools: Tools, cid: string)
    ensures Decisions(Records(file, e, turn, tools), cid) ==
      if e.cid == cid then [Verdict(file, e, turn, tools)] else []
  {
    var verdict := Verdict(file, e, turn, tools);
    DecisionsOne(verdict, cid);
    DecisionsOne(Drift(e.cid), cid);
    DecisionsAppend([Drift(e.cid)], [verdict], cid);
  }

  /** Where the action called cid stands among the first k, or -1. */
  function PlaceOf(pending: seq<Entry>, k: nat, cid: string): (q: int)
    requires k <= |pending|
    ensures -1 <= q < k && (q >= 0 ==> pending[q].cid == cid)
    ensures q == -1 ==> forall i :: 0 <= i < k ==> pending[i].cid != cid
  {
    if k == 0 then -1 else if pending[k - 1].cid == cid then k - 1 else PlaceOf(pending, k - 1, cid)
  }

  lemma NotBefore(pending: seq<Entry>, k: nat)
    requires k < |pending| && DistinctCids(pending)
    ensures PlaceOf(pending, k, pending[k].cid) == -1
  {
  }

  lemma StoryNext(pending: seq<Entry>, world: seq<Turn>, file: Lines, k: nat, tools: Tools, cid: string)
    requires k < |pending| <= |world|
    ensures Decisions(StoryTo(pending, world, file, k + 1, tools), cid) ==
      Decisions(StoryTo(pending, world, file, k, tools), cid) +
      if pending[k].cid != cid then []
      else [Verdict(FileAt(pending, world, file, k, tools), pending[k], world[k], tools)]
  {
    var before := FileAt(pending, world, file, k, tools);
    RecordsDecide(before, pending[k], world[k], tools, cid);
    DecisionsAppend(StoryTo(pending, world, file, k, tools), Records(before, pending[k], world[k], tools), cid);
  }

  lemma {:induction false} StoryDecides(pending: seq<Entry>, world: seq<Turn>, file: Lines, k: nat, tools: Tools,
                                        cid: string)
    requires k <= |pending| <= |world| && DistinctCids(pending)
    ensures var q := PlaceOf(pending, k, cid);
      Decisions(StoryTo(pending, world, file, k, tools), cid) ==
        if q == -1 then [] else [Verdict(FileAt(pending, world, file, q, tools), pending[q], world[q], tools)]
    decreases k
  {
    if k > 0 {
      StoryDecides(pending, world, file, k - 1, tools, cid);
      StoryNext(pending, world, file, k - 1, tools, cid);
      if pending[k - 1].cid == cid {
        NotBefore(pending, k - 1);
        NothingFirst([Verdict(FileAt(pending, world, file, k - 1, tools), pending[k - 1], world[k - 1], tools)]);
      } else {
        NothingLast(Decisions(StoryTo(pending, world, file, k - 1, tools), cid));
      }
    }
  }

  lemma MarksSilent(cid: string)
    ensures Decisions([RunStart], cid) == [] && Decisions([RunStop], cid) == [] && Decisions([RunEnd], cid) == []
  {
    DecisionsOne(RunStart, cid);
    DecisionsOne(RunStop, cid);
    DecisionsOne(RunEnd, cid);
  }

  /** The marks of a run decide nothing. */
  lemma FramedDecisions(story: seq<Event>, stop: bool, cid: string)
    ensures Decisions([RunStart] + (story + if stop then [RunStop] else []) + [RunEnd], cid) == Decisions(story, cid)
  {
    var end: seq<Event> := if stop then [RunStop] else [];
    MarksSilent(cid);
    DecisionsAppend(story, end, cid);
    DecisionsAppend([RunStart], story + end, cid);
    DecisionsAppend([RunStart] + (story + end), [RunEnd], cid);
    NothingLast(Decisions(story, cid));
    NothingFirst(Decisions(story, cid));
  }

  lemma StoryAlone(pending: seq<Entry>, world: seq<Turn>, file: Lines, tools: Tools, cid: string)
    requires |pending| <= |world| && pending != []
    ensures var n := Taken(pending, world);
      Decisions(RunRecords(pending, world, file, tools), cid) ==
        Decisions(StoryTo(pending, world, file, n, tools), cid)
  {
    var n := Taken(pending, world);
    FramedDecisions(StoryTo(pending, world, file, n, tools), n < |pending|, cid);
  }

  lemma PlaceIs(pending: seq<Entry>, n: nat, q: nat)
    requires q < n <= |pending| && DistinctCids(pending)
    ensures PlaceOf(pending, n, pending[q].cid) == q
  {
  }

  lemma OneDecision(pending: seq<Entry>, world: seq<Turn>, file: Lines, tools: Tools, q: nat)
    requires |pending| <= |world| && DistinctCids(pending) && q < Taken(pending, world)
    ensures Decisions(RunRecords(pending, world, file, tools), pending[q].cid) ==
      [Verdict(FileAt(pending, world, file, q, tools), pending[q], world[q], tools)]
  {
    StoryAlone(pending, world, file, tools, pending[q].cid);
    StoryDecides(pending, world, file, Taken(pending, world), tools, pending[q].cid);
    PlaceIs(pending, Taken(pending, world), q);
  }

  /** Every action dealt with before a run stops is decided by exactly one record, which completes it if and only if
      the reply was as the oracle has it, the compile step succeeded, the definition was found, and the checks
      reported nothing about the file with the reply in it; a commit is recorded if and only if the file changed. */
  lemma RunDecides(pending: seq<Entry>, world: seq<Turn>, file: Lines, tools: Tools, q: nat)
    requires |pending| <= |world| && DistinctCids(pending) && q < Taken(pending, world)
    ensures var decisions := Decisions(RunRecords(pending, world, file, tools), pending[q].cid);
      var before := FileAt(pending, world, file, q, tools);
      && |decisions| == 1 && (Completes(decisions[0]) <==> Deserves(before, pending[q], world[q], tools))
      && (decisions[0].Committed? <==> FileAt(pending, world, file, q + 1, tools) != before)
  {
    OneDecision(pending, world, file, tools, q);
  }

  /** No other action is decided. */
  lemma OthersUndecided(pending: seq<Entry>, world: seq<Turn>, file: Lines, tools: Tools, cid: string)
    requires |pending| <= |world| && DistinctCids(pending)
    requires forall q :: 0 <= q < Taken(pending, world) ==> pending[q].cid != cid
    ensures Decisions(RunRecords(pending, world, file, tools), cid) == []
  {
    if pending != [] {
      StoryAlone(pending, world, file, tools, cid);
      StoryDecides(pending, world, file, Taken(pending, world), tools, cid);
      assert PlaceOf(pending, Taken(pending, world), cid) == -1;
    }
  }

  // ---- what a resumed run takes up again

  lemma {:induction false} DecisionsHold(records: seq<Event>, cid: string, e: Event)
    requires (e.Rejected? || e.Verified? || e.Committed?) && e.cid == cid
    ensures e in records <==> e in Decisions(records, cid)
  {
    if records != [] {
      var m := |records| - 1;
      DecisionsHold(records[..m], cid, e);
      assert e in records <==> e in records[..m] || e == records[m];
    }
  }

  /** After a run, an action that was dealt with is wanted by the next resumed run if and only if it did not complete
      and, unless rejected actions are to be tried again, was not rejected for its output: the reply could not be used,
      or it agreed with the oracle and what failed was the compile step, the search for the definition, or a check
      other than that of the body. */
  lemma WantedAgain(pending: seq<Entry>, world: seq<Turn>, file: Lines, tools: Tools, q: nat, journal: seq<Event>,
                    args: Args)
    requires |pending| <= |world| && DistinctCids(pending) && q < Taken(pending, world)
    requires args.resume && Wanted(pending[q], journal, args)
    ensures var e, turn, before := pending[q], world[q], FileAt(pending, world, file, q, tools);
      Wanted(e, journal + RunRecords(pending, world, file, tools), args) <==>
        && !Deserves(before, e, turn, tools)
        && (args.retry || turn.reply.Garbled? || (Agrees(e, turn.reply, tools) &&
              (turn.compiles ==> !BodyFails(before, e, turn.reply.body, tools))))
  {
    var e, turn, before := pending[q], world[q], FileAt(pending, world, file, q, tools);
    var records := RunRecords(pending, world, file, tools);
    OneDecision(pending, world, file, tools, q);
    DecisionsHold(records, e.cid, Verified(e.cid));
    DecisionsHold(records, e.cid, Committed(e.cid));
    DecisionsHold(records, e.cid, Rejected(e.cid, true));
  }

  // ---- with the tools as they are

  lemma ToolFacts(frame: Frame, entries: seq<Entry>, e: Entry, body: string, file: Lines, wide: char -> bool)
    ensures var tools := ToolsFor(frame, entries, wide);
      && (tools.accepts(e, body) <==> Accepted(e, body, wide)) && tools.check(file, e) == UnitProblems(file, e, wide)
      && tools.splice(e.cid, body) == Apply(Source(frame, entries, wide), e.cid, body, wide)
  {
  }

  /** An accepted reply is spliced in without a change. */
  lemma SplicedSame(frame: Frame, entries: seq<Entry>, i: nat, file: Lines, body: string, wide: char -> bool)
    requires Spliceable(frame, entries, wide) && i < |entries| && Accepted(entries[i], body, wide)
    ensures Spliced(file, entries[i], body, ToolsFor(frame, entries, wide)) == Some(file)
  {
    ToolFacts(frame, entries, entries[i], body, file, wide);
    ApplyExactly(frame, entries, i, body, wide);
  }

  lemma SamePasses(file: Lines, e: Entry, turn: Turn, tools: Tools)
    requires Agrees(e, turn.reply, tools) ==> Spliced(file, e, turn.reply.body, tools) == Some(file)
    ensures Deserves(file, e, turn, tools) <==>
      Agrees(e, turn.reply, tools) && turn.compiles && tools.check(file, e) == []
    ensures FileAfter(file, e, turn, tools) == file
  {
  }

  /** For an inventory whose bodies all splice, a unit completes if and only if the reply is the oracle's body up to the
      rewrite and trailing space, with its row, the compile step succeeds, and the checks already pass on disk. */
  lemma SplicingCompletes(frame: Frame, entries: seq<Entry>, i: nat, file: Lines, turn: Turn, wide: char -> bool)
    requires Spliceable(frame, entries, wide) && i < |entries|
    ensures Deserves(file, entries[i], turn, ToolsFor(frame, entries, wide)) <==>
      && turn.reply.Answer? && Accepted(entries[i], turn.reply.body, wide) && turn.reply.rowMatches && turn.compiles
      && UnitProblems(file, entries[i], wide) == []
    ensures FileAfter(file, entries[i], turn, ToolsFor(frame, entries, wide)) == file
  {
    var tools := ToolsFor(frame, entries, wide);
    if turn.reply.Answer? {
      ToolFacts(frame, entries, entries[i], turn.reply.body, file, wide);
      if Accepted(entries[i], turn.reply.body, wide) {
        SplicedSame(frame, entries, i, file, turn.reply.body, wide);
      }
    }
    SamePasses(file, entries[i], turn, tools);
  }
}
