/** Saving a component with attached texts that the library does not read as attributes: they are left alone. */
module SaveInert {
  import opened CStrings
  import opened AttribText
  import opened SaveSpec
  import opened SaveProofs
  import opened SaveExact
  import opened Sequences
  import opened Wrappers

  // ---- the algorithm on any texts

  /** The four cases: replace, remove, add, nothing. What counts as an old value is what the library reads as an
      attribute; what is replaced or removed is the first text of that name. */
  function Act(attribs: seq<Attr>, n: CString, w: Option<Wanted>): seq<Attr> {
    var i, a := IndexOf(attribs, n), WantedAttr(n, w);
    if Search(attribs, n).None? then if a.Some? then attribs + [a.value] else attribs
    else if i == |attribs| then attribs
    else if a.Some? then attribs[i := a.value]
    else Without(attribs, i)
  }

  lemma ActStep(attribs: seq<Attr>, n: CString, w: Option<Wanted>)
    requires WfAttribs(attribs)
    ensures Act(attribs, n, w) == Step(attribs, n, w)
  {
    SearchCarried(attribs, [], n);
    NothingLast(attribs);
  }

  /** One entry, with the row name worked out afresh. */
  function ActEntry(attribs: seq<Attr>, inherited: seq<Attr>, sheet: Sheet, pairs: seq<CString>,
                    entry: CString): seq<Attr>
    requires WfSheet(sheet)
  {
    var r := RefdesOf(attribs, inherited);
    if r.None? then attribs else Act(attribs, BreakupName(entry), Want(sheet, pairs, entry, r.value))
  }

  function ActAll(attribs: seq<Attr>, inherited: seq<Attr>, sheet: Sheet, pairs: seq<CString>, entries: seq<CString>)
    : seq<Attr>
    requires WfSheet(sheet)
  {
    if entries == [] then attribs
    else
      var m := |entries| - 1;
      ActEntry(ActAll(attribs, inherited, sheet, pairs, entries[..m]), inherited, sheet, pairs, entries[m])
  }

  /** The pairs of the component's row. */
  function RowPairs(attribs: seq<Attr>, inherited: seq<Attr>, sheet: Sheet): seq<CString>
    requires WfSheet(sheet)
  {
    var r := RefdesOf(attribs, inherited);
    var row := if r.None? then -1 else GetIndex(sheet.rows, r.value);
    if row == -1 then [] else Pairs(sheet.cells[row])
  }

  /** Saving one component, whatever texts are attached to it. */
  function SaveTexts(attribs: seq<Attr>, inherited: seq<Attr>, sheet: Sheet): seq<Attr>
    requires WfSheet(sheet)
  {
    if RefdesOf(attribs, inherited).None? then attribs
    else
      var pairs := RowPairs(attribs, inherited, sheet);
      ActAll(attribs, inherited, sheet, pairs, Complete(pairs, attribs))
  }

  lemma RowPairsWf(attribs: seq<Attr>, inherited: seq<Attr>, sheet: Sheet)
    requires WfSheet(sheet)
    ensures WfEntries(RowPairs(attribs, inherited, sheet))
  {
    var pairs := RowPairs(attribs, inherited, sheet);
    if pairs != [] {
      var row := GetIndex(sheet.rows, RefdesOf(attribs, inherited).value);
      assert forall j :: 0 <= j < |sheet.cols| ==> sheet.cells[row][j].colName == sheet.cols[j];
      PairsWf(sheet.cells[row]);
    }
  }

  lemma {:induction false} ActAllRun(attribs: seq<Attr>, inherited: seq<Attr>, sheet: Sheet, pairs: seq<CString>,
                                     entries: seq<CString>)
    requires WfSheet(sheet) && WfAttribs(attribs)
    requires forall i :: 0 <= i < |entries| ==> GoodName(BreakupName(entries[i]))
    ensures ActAll(attribs, inherited, sheet, pairs, entries) == Run(attribs, inherited, sheet, pairs, entries)
    ensures WfAttribs(Run(attribs, inherited, sheet, pairs, entries))
    decreases |entries|
  {
    if entries != [] {
      var m := |entries| - 1;
      ActAllRun(attribs, inherited, sheet, pairs, entries[..m]);
      EntryRun(Run(attribs, inherited, sheet, pairs, entries[..m]), inherited, sheet, pairs, entries[m]);
    }
  }

  lemma EntryRun(attribs: seq<Attr>, inherited: seq<Attr>, sheet: Sheet, pairs: seq<CString>, entry: CString)
    requires WfSheet(sheet) && WfAttribs(attribs) && GoodName(BreakupName(entry))
    ensures ActEntry(attribs, inherited, sheet, pairs, entry) == Handle(attribs, inherited, sheet, pairs, entry)
    ensures WfAttribs(Handle(attribs, inherited, sheet, pairs, entry))
  {
    var r := RefdesOf(attribs, inherited);
    if r.Some? {
      var w := Want(sheet, pairs, entry, r.value);
      ActStep(attribs, BreakupName(entry), w);
      WantGood(sheet, pairs, entry, r.value);
      StepWf(attribs, BreakupName(entry), w);
    }
  }

  /** Where every text is an attribute and no name comes twice, this is the save the other theorems are about. */
  lemma SaveSame(attribs: seq<Attr>, inherited: seq<Attr>, sheet: Sheet)
    requires WfSheet(sheet) && WfAttribs(attribs)
    ensures SaveTexts(attribs, inherited, sheet) == Save(attribs, inherited, sheet)
  {
    var pairs := RowPairs(attribs, inherited, sheet);
    RowPairsWf(attribs, inherited, sheet);
    CompleteWf(pairs, attribs);
    ActAllRun(attribs, inherited, sheet, pairs, Complete(pairs, attribs));
  }

  // ---- the refdes stays, whatever texts are attached

  ghost predicate NotRefdes(entries: seq<CString>) {
    forall i :: 0 <= i < |entries| ==> BreakupName(entries[i]) != REFDES
  }

  lemma {:induction false} CompleteNotRefdes(pairs: seq<CString>, attribs: seq<Attr>)
    requires NotRefdes(pairs)
    ensures NotRefdes(Complete(pairs, attribs))
  {
    if attribs != [] {
      CompleteNotRefdes(pairs, attribs[..|attribs| - 1]);
    }
  }

  lemma StillThere(attribs: seq<Attr>, t: seq<Attr>, m: CString)
    requires Search(attribs, m).Some? && forall k :: 0 <= k < |attribs| && ReadsAs(attribs[k], m) ==> attribs[k] in t
    ensures Search(t, m).Some?
  {
    SearchHas(attribs, m);
    var k :| 0 <= k < |attribs| && ReadsAs(attribs[k], m);
    assert attribs[k] in t;
    SearchHas(t, m);
  }

  /** No case of the four touches the texts of another name. */
  lemma ActKeeps(attribs: seq<Attr>, n: CString, w: Option<Wanted>, m: CString)
    requires n != m && m != [] && m[0] != SPACE && Search(attribs, m).Some?
    ensures Search(Act(attribs, n, w), m).Some?
  {
    var i, t := IndexOf(attribs, n), Act(attribs, n, w);
    forall k | 0 <= k < |attribs| && ReadsAs(attribs[k], m)
      ensures attribs[k] in t
    {
      ReadName(attribs[k], m);
      OthersKept(attribs, n, w, k);
    }
    StillThere(attribs, t, m);
  }

  lemma OthersKept(attribs: seq<Attr>, n: CString, w: Option<Wanted>, k: nat)
    requires k < |attribs| && NameOf(attribs[k]) != n
    ensures attribs[k] in Act(attribs, n, w)
  {
    var i, t := IndexOf(attribs, n), Act(attribs, n, w);
    if Search(attribs, n).None? || i == |attribs| || w.Some? {
      assert t[k] == attribs[k];
    } else {
      assert t[if k > i then k - 1 else k] == attribs[k];
    }
  }

  lemma {:induction false} RefdesStays(attribs: seq<Attr>, inherited: seq<Attr>, sheet: Sheet, pairs: seq<CString>,
                                       entries: seq<CString>)
    requires WfSheet(sheet) && NotRefdes(entries) && RefdesOf(attribs, inherited).Some?
    ensures RefdesOf(ActAll(attribs, inherited, sheet, pairs, entries), inherited).Some?
    decreases |entries|
  {
    if entries != [] {
      var m := |entries| - 1;
      RefdesStays(attribs, inherited, sheet, pairs, entries[..m]);
      EntryRefdes(ActAll(attribs, inherited, sheet, pairs, entries[..m]), inherited, sheet, pairs, entries[m]);
    }
  }

  lemma EntryRefdes(attribs: seq<Attr>, inherited: seq<Attr>, sheet: Sheet, pairs: seq<CString>, entry: CString)
    requires WfSheet(sheet) && BreakupName(entry) != REFDES && RefdesOf(attribs, inherited).Some?
    ensures RefdesOf(ActEntry(attribs, inherited, sheet, pairs, entry), inherited).Some?
  {
    SearchAppend(attribs, inherited, REFDES);
    SearchAppend(ActEntry(attribs, inherited, sheet, pairs, entry), inherited, REFDES);
    if Search(attribs, REFDES).Some? {
      ActKeeps(attribs, BreakupName(entry), Want(sheet, pairs, entry, RefdesOf(attribs, inherited).value), REFDES);
    }
  }

  // ---- inert texts

  /** The texts that are attributes. */
  function Propers(attribs: seq<Attr>): seq<Attr> {
    if attribs == [] then []
    else
      var last := attribs[|attribs| - 1];
      Propers(attribs[..|attribs| - 1]) + if Proper(last.text) then [last] else []
  }

  /** The other texts. */
  function Others(attribs: seq<Attr>): seq<Attr> {
    if attribs == [] then []
    else
      var last := attribs[|attribs| - 1];
      Others(attribs[..|attribs| - 1]) + if Proper(last.text) then [] else [last]
  }

  /** A text the library does not read as an attribute, of a name among these; or an attribute of another name. */
  ghost predicate Sorted(a: Attr, idle: set<CString>) {
    if Proper(a.text) then NameOf(a) !in idle else NameValue(a.text).None? && NameOf(a) in idle
  }

  ghost predicate AllSorted(attribs: seq<Attr>, idle: set<CString>) {
    forall i :: 0 <= i < |attribs| ==> Sorted(attribs[i], idle)
  }

  lemma {:induction false} FilterAppend(a: seq<Attr>, b: seq<Attr>)
    ensures Propers(a + b) == Propers(a) + Propers(b) && Others(a + b) == Others(a) + Others(b)
  {
    if b == [] {
      assert a + b == a;
    } else {
      var m := |b| - 1;
      FilterAppend(a, b[..m]);
      assert (a + b)[..|a + b| - 1] == a + b[..m];
      Associative(Propers(a), Propers(b[..m]), if Proper(b[m].text) then [b[m]] else []);
      Associative(Others(a), Others(b[..m]), if Proper(b[m].text) then [] else [b[m]]);
    }
  }

  lemma FilterOne(a: Attr)
    ensures Propers([a]) == (if Proper(a.text) then [a] else []) && Others([a]) == if Proper(a.text) then [] else [a]
  {
    assert [a][..0] == [];
    assert Propers([a][..0]) == [] && Others([a][..0]) == [];
  }

  /** The first attribute with its rest. */
  lemma FilterFirst(attribs: seq<Attr>)
    requires attribs != []
    ensures Propers(attribs) == (if Proper(attribs[0].text) then [attribs[0]] else []) + Propers(attribs[1..])
    ensures Others(attribs) == (if Proper(attribs[0].text) then [] else [attribs[0]]) + Others(attribs[1..])
  {
    FilterOne(attribs[0]);
    FilterAppend([attribs[0]], attribs[1..]);
    FirstRest(attribs);
  }

  lemma {:induction false} SearchPropers(attribs: seq<Attr>, idle: set<CString>, n: CString)
    requires AllSorted(attribs, idle)
    ensures Search(attribs, n) == Search(Propers(attribs), n)
  {
    if attribs != [] {
      assert Sorted(attribs[0], idle);
      SearchPropers(attribs[1..], idle, n);
      FilterFirst(attribs);
      if Proper(attribs[0].text) {
        TakeFront([attribs[0]], Propers(attribs[1..]));
      } else {
        NothingFirst(Propers(attribs[1..]));
      }
    }
  }

  /** Where the first text of a name that is not idle stands among the attributes. */
  lemma {:induction false} IndexPropers(attribs: seq<Attr>, idle: set<CString>, n: CString)
    requires AllSorted(attribs, idle) && n !in idle
    ensures var i := IndexOf(attribs, n);
      && IndexOf(Propers(attribs), n) == |Propers(attribs[..i])|
      && (i < |attribs| <==> IndexOf(Propers(attribs), n) < |Propers(attribs)|)
      && (i < |attribs| ==> Proper(attribs[i].text))
  {
    if attribs != [] {
      var a, rest := attribs[0], attribs[1..];
      assert Sorted(a, idle);
      FilterFirst(attribs);
      if NameOf(a) == n {
        assert attribs[..0] == [];
      } else {
        IndexPropers(rest, idle, n);
        var i := IndexOf(attribs, n);
        FilterFirst(attribs[..i]);
        TakeTail(attribs, i);
        if Proper(a.text) {
          TakeFront([a], Propers(rest));
        } else {
          NothingFirst(Propers(rest));
        }
      }
    } else {
      assert attribs[..0] == [];
    }
  }

  /** Around one place of the list. */
  lemma FilterAt(attribs: seq<Attr>, i: nat)
    requires i < |attribs| && Proper(attribs[i].text)
    ensures Propers(attribs) == Propers(attribs[..i]) + [attribs[i]] + Propers(attribs[i + 1..])
    ensures Others(attribs) == Others(attribs[..i]) + Others(attribs[i + 1..])
  {
    SplitAt(attribs, i);
    FilterAppend(attribs[..i] + [attribs[i]], attribs[i + 1..]);
    FilterAppend(attribs[..i], [attribs[i]]);
    FilterOne(attribs[i]);
    NothingLast(Others(attribs[..i]));
  }

  lemma ReplaceFilter(attribs: seq<Attr>, i: nat, a: Attr)
    requires i < |attribs| && Proper(attribs[i].text) && Proper(a.text)
    ensures |Propers(attribs[..i])| < |Propers(attribs)|
    ensures Propers(attribs[i := a]) == Propers(attribs)[|Propers(attribs[..i])| := a]
    ensures Others(attribs[i := a]) == Others(attribs)
  {
    var t := attribs[i := a];
    FilterAt(attribs, i);
    FilterAt(t, i);
    assert t[..i] == attribs[..i] && t[i + 1..] == attribs[i + 1..];
    ReplaceMiddle(Propers(attribs[..i]), attribs[i], a, Propers(attribs[i + 1..]));
  }

  lemma ReplaceMiddle<T>(a: seq<T>, x: T, y: T, b: seq<T>)
    ensures (a + [x] + b)[|a| := y] == a + [y] + b
  {
  }

  lemma RemoveMiddle<T>(a: seq<T>, x: T, b: seq<T>)
    ensures Without(a + [x] + b, |a|) == a + b
  {
  }

  lemma RemoveFilter(attribs: seq<Attr>, i: nat)
    requires i < |attribs| && Proper(attribs[i].text)
    ensures |Propers(attribs[..i])| < |Propers(attribs)|
    ensures Propers(Without(attribs, i)) == Without(Propers(attribs), |Propers(attribs[..i])|)
    ensures Others(Without(attribs, i)) == Others(attribs)
  {
    FilterAt(attribs, i);
    FilterAppend(attribs[..i], attribs[i + 1..]);
    RemoveMiddle(Propers(attribs[..i]), attribs[i], Propers(attribs[i + 1..]));
  }

  lemma AddFilter(attribs: seq<Attr>, a: Attr)
    requires Proper(a.text)
    ensures Propers(attribs + [a]) == Propers(attribs) + [a] && Others(attribs + [a]) == Others(attribs)
  {
    FilterAppend(attribs, [a]);
    FilterOne(a);
    NothingLast(Others(attribs));
  }

  /** A case of the four, for a name that is not idle: the attributes change as they would on their own. */
  lemma ActFilter(attribs: seq<Attr>, idle: set<CString>, n: CString, w: Option<Wanted>)
    requires AllSorted(attribs, idle) && n !in idle && GoodName(n) && (w.Some? ==> GoodValue(w.value.value))
    ensures Propers(Act(attribs, n, w)) == Act(Propers(attribs), n, w)
    ensures Others(Act(attribs, n, w)) == Others(attribs) && AllSorted(Act(attribs, n, w), idle)
  {
    var i := IndexOf(attribs, n);
    SearchPropers(attribs, idle, n);
    IndexPropers(attribs, idle, n);
    WantedName(n, w);
    if i < |attribs| {
      RemoveFilter(attribs, i);
    }
    if w.Some? {
      var a := WantedAttr(n, w).value;
      AddFilter(attribs, a);
      if i < |attribs| {
        ReplaceFilter(attribs, i, a);
      }
    }
    ActSorted(attribs, idle, n, w);
  }

  lemma ActSorted(attribs: seq<Attr>, idle: set<CString>, n: CString, w: Option<Wanted>)
    requires AllSorted(attribs, idle) && n !in idle && GoodName(n) && (w.Some? ==> GoodValue(w.value.value))
    ensures AllSorted(Act(attribs, n, w), idle)
  {
    WantedName(n, w);
    var t := Act(attribs, n, w);
    forall k | 0 <= k < |t|
      ensures Sorted(t[k], idle)
    {
      assert t[k] in attribs || (w.Some? && t[k] == WantedAttr(n, w).value);
    }
  }

  /** A text of an idle name is not read as an attribute. */
  lemma IdleUnread(a: Attr, idle: set<CString>, n: CString)
    requires Sorted(a, idle) && n in idle && (n == [] || n[0] != SPACE)
    ensures !ReadsAs(a, n)
  {
    if ReadsAs(a, n) {
      ReadName(a, n);
    }
  }

  /** A case of the four, for an idle name: nothing happens. */
  lemma ActIdle(attribs: seq<Attr>, idle: set<CString>, n: CString)
    requires AllSorted(attribs, idle) && n in idle && (n == [] || n[0] != SPACE)
    ensures Act(attribs, n, None) == attribs
  {
    SearchHas(attribs, n);
    forall i | 0 <= i < |attribs|
      ensures !ReadsAs(attribs[i], n)
    {
      IdleUnread(attribs[i], idle, n);
    }
  }

  // ---- whole saves

  /** The entries of names that are not idle. */
  function Busy(entries: seq<CString>, idle: set<CString>): seq<CString> {
    if entries == [] then []
    else
      var last := entries[|entries| - 1];
      Busy(entries[..|entries| - 1], idle) + if BreakupName(last) in idle then [] else [last]
  }

  lemma {:induction false} BusyIn(entries: seq<CString>, idle: set<CString>, x: CString)
    ensures x in Busy(entries, idle) <==> x in entries && BreakupName(x) !in idle
  {
    if entries != [] {
      var m := |entries| - 1;
      BusyIn(entries[..m], idle, x);
      assert x in entries <==> x in entries[..m] || x == entries[m];
    }
  }

  lemma BusyUnique(list: seq<CString>, idle: set<CString>, x: CString)
    ensures Busy(AddUnique(list, x), idle) == if BreakupName(x) in idle then Busy(list, idle)
      else AddUnique(Busy(list, idle), x)
  {
    BusyIn(list, idle, x);
    if x !in list {
      TakeFront(list, [x]);
      NothingLast(Busy(list, idle));
    }
  }

  lemma {:induction false} BusyAll(entries: seq<CString>, idle: set<CString>)
    requires forall i :: 0 <= i < |entries| ==> BreakupName(entries[i]) !in idle
    ensures Busy(entries, idle) == entries
  {
    if entries != [] {
      BusyAll(entries[..|entries| - 1], idle);
    }
  }

  lemma {:induction false} BusyComplete(pairs: seq<CString>, attribs: seq<Attr>, idle: set<CString>)
    requires AllSorted(attribs, idle) && forall i :: 0 <= i < |pairs| ==> BreakupName(pairs[i]) !in idle
    ensures Busy(Complete(pairs, attribs), idle) == Complete(pairs, Propers(attribs))
    decreases |attribs|
  {
    if attribs == [] {
      BusyAll(pairs, idle);
    } else {
      var m := |attribs| - 1;
      var front, a := attribs[..m], attribs[m];
      BusyComplete(pairs, front, idle);
      BusyUnique(Complete(pairs, front), idle, a.text);
      assert Sorted(a, idle);
      if Proper(a.text) {
        TakeFront(Propers(front), [a]);
      } else {
        NothingLast(Propers(front));
      }
    }
  }

  lemma RefdesPropers(attribs: seq<Attr>, inherited: seq<Attr>, idle: set<CString>)
    requires AllSorted(attribs, idle)
    ensures RefdesOf(attribs, inherited) == RefdesOf(Propers(attribs), inherited)
  {
    SearchPropers(attribs, idle, REFDES);
    SearchPropers(attribs, idle, NUMSLOTS);
    SearchPropers(attribs, idle, SLOT);
    forall n | n == REFDES || n == NUMSLOTS || n == SLOT
      ensures Search(attribs + inherited, n) == Search(Propers(attribs) + inherited, n)
    {
      SearchAppend(attribs, inherited, n);
      SearchAppend(Propers(attribs), inherited, n);
    }
  }

  /** What an entry of an idle name, which is no pair, asks for: nothing. */
  lemma EntryIdle(attribs: seq<Attr>, inherited: seq<Attr>, sheet: Sheet, pairs: seq<CString>, entry: CString,
                   idle: set<CString>)
    requires WfSheet(sheet) && AllSorted(attribs, idle) && BreakupName(entry) in idle && entry !in pairs
    ensures ActEntry(attribs, inherited, sheet, pairs, entry) == attribs
  {
    BreakupStart(entry);
    ActIdle(attribs, idle, BreakupName(entry));
  }

  lemma EntryBusy(attribs: seq<Attr>, inherited: seq<Attr>, sheet: Sheet, pairs: seq<CString>, entry: CString,
                   idle: set<CString>)
    requires WfSheet(sheet) && AllSorted(attribs, idle) && BreakupName(entry) !in idle && GoodName(BreakupName(entry))
    ensures var t := ActEntry(attribs, inherited, sheet, pairs, entry);
      && Propers(t) == ActEntry(Propers(attribs), inherited, sheet, pairs, entry)
      && Others(t) == Others(attribs) && AllSorted(t, idle)
  {
    RefdesPropers(attribs, inherited, idle);
    var r := RefdesOf(attribs, inherited);
    if r.Some? {
      WantGood(sheet, pairs, entry, r.value);
      ActFilter(attribs, idle, BreakupName(entry), Want(sheet, pairs, entry, r.value));
    }
  }

  /** Entries whose names are idle and that are no pairs, or good names that are not idle. */
  ghost predicate Sortable(entries: seq<CString>, pairs: seq<CString>, idle: set<CString>) {
    forall i :: 0 <= i < |entries| ==>
      if BreakupName(entries[i]) in idle then entries[i] !in pairs else GoodName(BreakupName(entries[i]))
  }

  lemma {:induction false} AllFilter(attribs: seq<Attr>, inherited: seq<Attr>, sheet: Sheet, pairs: seq<CString>,
                                     entries: seq<CString>, idle: set<CString>)
    requires WfSheet(sheet) && AllSorted(attribs, idle) && Sortable(entries, pairs, idle)
    ensures var t := ActAll(attribs, inherited, sheet, pairs, entries);
      && Propers(t) == ActAll(Propers(attribs), inherited, sheet, pairs, Busy(entries, idle))
      && Others(t) == Others(attribs) && AllSorted(t, idle)
    decreases |entries|
  {
    if entries != [] {
      var m := |entries| - 1;
      var front, e := entries[..m], entries[m];
      AllFilter(attribs, inherited, sheet, pairs, front, idle);
      var s, busy := ActAll(attribs, inherited, sheet, pairs, front), Busy(front, idle);
      if BreakupName(e) in idle {
        EntryIdle(s, inherited, sheet, pairs, e, idle);
        NothingLast(busy);
      } else {
        EntryBusy(s, inherited, sheet, pairs, e, idle);
        TakeFront(busy, [e]);
      }
    }
  }

  lemma {:induction false} CompleteSortable(pairs: seq<CString>, attribs: seq<Attr>, idle: set<CString>)
    requires AllSorted(attribs, idle) && WfEntries(pairs)
    requires forall i :: 0 <= i < |pairs| ==> BreakupName(pairs[i]) !in idle
    ensures Sortable(Complete(pairs, attribs), pairs, idle)
    decreases |attribs|
  {
    if attribs != [] {
      var m := |attribs| - 1;
      CompleteSortable(pairs, attribs[..m], idle);
      assert Sorted(attribs[m], idle);
      if Proper(attribs[m].text) {
        ProperParts(attribs[m].text);
      } else {
        assert forall i :: 0 <= i < |pairs| ==> pairs[i] != attribs[m].text;
      }
    }
  }

  /** Texts that the library does not read as attributes, of names that neither an attribute of the component nor a
      filled cell of its row has, stay as they are, and the attributes end up as if those texts were not there. */
  lemma SaveAround(attribs: seq<Attr>, inherited: seq<Attr>, sheet: Sheet, idle: set<CString>)
    requires WfSheet(sheet) && AllSorted(attribs, idle)
    requires forall p :: p in RowPairs(attribs, inherited, sheet) ==> BreakupName(p) !in idle
    ensures Propers(SaveTexts(attribs, inherited, sheet)) == SaveTexts(Propers(attribs), inherited, sheet)
    ensures WfAttribs(Propers(attribs)) ==>
      Propers(SaveTexts(attribs, inherited, sheet)) == Save(Propers(attribs), inherited, sheet)
    ensures Others(SaveTexts(attribs, inherited, sheet)) == Others(attribs)
  {
    var pairs := RowPairs(attribs, inherited, sheet);
    RefdesPropers(attribs, inherited, idle);
    RowPairsWf(attribs, inherited, sheet);
    BusyComplete(pairs, attribs, idle);
    CompleteSortable(pairs, attribs, idle);
    AllFilter(attribs, inherited, sheet, pairs, Complete(pairs, attribs), idle);
    if WfAttribs(Propers(attribs)) {
      SaveSame(Propers(attribs), inherited, sheet);
    }
  }
}
