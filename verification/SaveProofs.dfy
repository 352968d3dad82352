/** Saving a component: which attributes it carries afterwards, and exactly when that is what its row says. */
module SaveProofs {
  import opened CStrings
  import opened AttribText
  import opened SaveSpec
  import opened Sequences
  import opened Wrappers

  // ---- one step

  lemma {:induction false} CarriedAt(attribs: seq<Attr>, i: nat)
    requires WfAttribs(attribs) && i < |attribs|
    ensures Carried(attribs, NameOf(attribs[i])) == Some(attribs[i])
  {
    var k := IndexOf(attribs, NameOf(attribs[i]));
    assert k <= i;
  }

  lemma NotCarried(attribs: seq<Attr>, n: CString)
    requires forall i :: 0 <= i < |attribs| ==> NameOf(attribs[i]) != n
    ensures Carried(attribs, n).None?
  {
  }

  /** The attributes called m in s are in t. */
  ghost predicate KeepsName(s: seq<Attr>, t: seq<Attr>, m: CString) {
    forall k :: 0 <= k < |s| && NameOf(s[k]) == m ==> s[k] in t
  }

  /** s and t carry the same attribute under the name m. */
  lemma CarriedSame(s: seq<Attr>, t: seq<Attr>, m: CString)
    requires WfAttribs(s) && WfAttribs(t)
    requires KeepsName(s, t, m) && KeepsName(t, s, m)
    ensures Carried(s, m) == Carried(t, m)
  {
    var i, j := IndexOf(s, m), IndexOf(t, m);
    if i < |s| {
      var k :| 0 <= k < |t| && t[k] == s[i];
      CarriedAt(t, k);
    }
    if j < |t| {
      var k :| 0 <= k < |s| && s[k] == t[j];
      CarriedAt(s, k);
    }
  }

  lemma WantedName(n: CString, w: Option<Wanted>)
    requires GoodName(n) && (w.Some? ==> GoodValue(w.value.value))
    ensures w.Some? ==> var a := WantedAttr(n, w).value; NameOf(a) == n && Proper(a.text)
  {
    if w.Some? {
      PairParts(n, w.value.value);
    }
  }

  lemma ReplaceWf(attribs: seq<Attr>, i: nat, a: Attr)
    requires WfAttribs(attribs) && i < |attribs| && NameOf(a) == NameOf(attribs[i]) && Proper(a.text)
    ensures WfAttribs(attribs[i := a])
  {
  }

  lemma RemoveWf(attribs: seq<Attr>, i: nat)
    requires WfAttribs(attribs) && i < |attribs|
    ensures WfAttribs(Without(attribs, i))
  {
  }

  lemma AddWf(attribs: seq<Attr>, a: Attr)
    requires WfAttribs(attribs) && Proper(a.text) && IndexOf(attribs, NameOf(a)) == |attribs|
    ensures WfAttribs(attribs + [a])
  {
  }

  lemma StepWf(attribs: seq<Attr>, n: CString, w: Option<Wanted>)
    requires WfAttribs(attribs) && GoodName(n) && (w.Some? ==> GoodValue(w.value.value))
    ensures WfAttribs(Step(attribs, n, w))
  {
    WantedName(n, w);
    var i, a := IndexOf(attribs, n), WantedAttr(n, w);
    if i < |attribs| {
      RemoveWf(attribs, i);
      if w.Some? {
        ReplaceWf(attribs, i, a.value);
      }
    } else if w.Some? {
      AddWf(attribs, a.value);
    }
  }

  /** A step settles its own name and leaves every other name alone. */
  lemma StepCarried(attribs: seq<Attr>, n: CString, w: Option<Wanted>, m: CString)
    requires WfAttribs(attribs) && GoodName(n) && (w.Some? ==> GoodValue(w.value.value))
    ensures WfAttribs(Step(attribs, n, w))
    ensures Carried(Step(attribs, n, w), m) == if m == n then WantedAttr(n, w) else Carried(attribs, m)
  {
    StepWf(attribs, n, w);
    WantedName(n, w);
    var i, t := IndexOf(attribs, n), Step(attribs, n, w);
    if m == n {
      if w.Some? {
        var k := if i < |attribs| then i else |attribs|;
        assert t[k] == WantedAttr(n, w).value;
        CarriedAt(t, k);
      } else {
        NotCarried(t, n);
      }
    } else {
      OthersStay(attribs, n, w, m);
      CarriedSame(t, attribs, m);
    }
  }

  lemma OthersStay(attribs: seq<Attr>, n: CString, w: Option<Wanted>, m: CString)
    requires WfAttribs(attribs) && GoodName(n) && (w.Some? ==> GoodValue(w.value.value)) && m != n
    ensures KeepsName(Step(attribs, n, w), attribs, m) && KeepsName(attribs, Step(attribs, n, w), m)
  {
    WantedName(n, w);
    var i, a := IndexOf(attribs, n), WantedAttr(n, w);
    if i < |attribs| {
      RemoveOther(attribs, i, m);
      if w.Some? {
        ReplaceOther(attribs, i, a.value, m);
      }
    } else if w.Some? {
      AddOther(attribs, a.value, m);
    }
  }

  lemma ReplaceOther(attribs: seq<Attr>, i: nat, a: Attr, m: CString)
    requires i < |attribs| && NameOf(a) != m && NameOf(attribs[i]) != m
    ensures KeepsName(attribs[i := a], attribs, m) && KeepsName(attribs, attribs[i := a], m)
  {
    forall k | 0 <= k < |attribs| && NameOf(attribs[k]) == m
      ensures attribs[k] in attribs[i := a]
    {
      assert attribs[i := a][k] == attribs[k];
    }
  }

  lemma RemoveOther(attribs: seq<Attr>, i: nat, m: CString)
    requires i < |attribs| && NameOf(attribs[i]) != m
    ensures KeepsName(Without(attribs, i), attribs, m) && KeepsName(attribs, Without(attribs, i), m)
  {
    forall k | 0 <= k < |attribs| && NameOf(attribs[k]) == m
      ensures attribs[k] in Without(attribs, i)
    {
      assert Without(attribs, i)[if k > i then k - 1 else k] == attribs[k];
    }
  }

  lemma AddOther(attribs: seq<Attr>, a: Attr, m: CString)
    requires NameOf(a) != m
    ensures KeepsName(attribs + [a], attribs, m) && KeepsName(attribs, attribs + [a], m)
  {
    forall k | 0 <= k < |attribs|
      ensures attribs[k] in attribs + [a]
    {
      assert (attribs + [a])[k] == attribs[k];
    }
  }

  // ---- the list of entries

  ghost predicate WfRow(cells: seq<Cell>) {
    && (forall j :: 0 <= j < |cells| ==> GoodName(cells[j].colName) && !Reserved(cells[j].colName))
    && forall i, j :: 0 <= i < j < |cells| ==> cells[i].colName != cells[j].colName
  }

  /** Where column j's pair stands in the list of pairs. */
  function Place(cells: seq<Cell>, j: nat): nat
    requires j <= |cells|
  {
    |Pairs(cells[..j])|
  }

  function PairOf(c: Cell): CString
    requires c.value.Some?
  {
    Pair(c.colName, c.value.value)
  }

  /** Every pair comes from a column that holds something, and stands at that column's place. */
  lemma {:induction false} PairsIndex(cells: seq<Cell>, i: nat) returns (j: nat)
    requires WfRow(cells) && i < |Pairs(cells)|
    ensures j < |cells| && cells[j].value.Some? && Place(cells, j) == i && Pairs(cells)[i] == PairOf(cells[j])
  {
    var m := |cells| - 1;
    var front := cells[..m];
    assert cells[..m] == front && (forall k :: 0 <= k <= m ==> front[..k] == cells[..k]);
    if i < |Pairs(front)| {
      j := PairsIndex(front, i);
    } else {
      j := m;
    }
  }

  /** The pair of a column is new when its turn comes. */
  lemma PairIsNew(cells: seq<Cell>)
    requires WfRow(cells) && cells != [] && cells[|cells| - 1].value.Some?
    ensures PairOf(cells[|cells| - 1]) !in Pairs(cells[..|cells| - 1])
  {
    var m := |cells| - 1;
    var front := cells[..m];
    if PairOf(cells[m]) in Pairs(front) {
      var i :| 0 <= i < |Pairs(front)| && Pairs(front)[i] == PairOf(cells[m]);
      var j := PairsIndex(front, i);
      PairInjective(cells[m].colName, cells[m].value.value, cells[j].colName, cells[j].value.value);
      assert false;
    }
  }

  lemma PlaceFront(cells: seq<Cell>, k: nat)
    requires k < |cells|
    ensures Place(cells[..|cells| - 1], k) == Place(cells, k)
  {
    TakeTake(cells, |cells| - 1, k);
  }

  lemma {:induction false} PairsAt(cells: seq<Cell>, j: nat)
    requires WfRow(cells) && j < |cells| && cells[j].value.Some?
    ensures Place(cells, j) < |Pairs(cells)| && Pairs(cells)[Place(cells, j)] == PairOf(cells[j])
    ensures forall k :: j < k <= |cells| ==> Place(cells, j) < Place(cells, k)
    decreases |cells|
  {
    var m := |cells| - 1;
    if j < m {
      PairsAt(cells[..m], j);
      PlaceFront(cells, j);
    } else {
      PairIsNew(cells);
    }
    forall k | j < k <= |cells|
      ensures Place(cells, j) < Place(cells, k)
    {
      if j < m && k <= m {
        PlaceFront(cells, k);
      } else {
        assert cells[..|cells|] == cells;
      }
    }
  }

  /** An old attribute that gets an entry of its own. */
  ghost predicate IsOld(pairs: seq<CString>, attribs: seq<Attr>, t: nat, entry: CString) {
    t < |attribs| && entry == attribs[t].text && !Reserved(NameOf(attribs[t])) && !NameInList(pairs, NameOf(attribs[t]))
  }

  lemma {:induction false} CompleteIndex(pairs: seq<CString>, attribs: seq<Attr>, i: nat) returns (t: nat)
    requires WfAttribs(attribs)
    requires i < |Complete(pairs, attribs)|
    ensures |pairs| <= |Complete(pairs, attribs)|
    ensures i < |pairs| ==> Complete(pairs, attribs)[i] == pairs[i]
    ensures i >= |pairs| ==> IsOld(pairs, attribs, t, Complete(pairs, attribs)[i])
    decreases |attribs|
  {
    t := 0;
    if attribs != [] {
      var m := |attribs| - 1;
      if i < |Complete(pairs, attribs[..m])| {
        t := CompleteIndex(pairs, attribs[..m], i);
      } else {
        CompleteLength(pairs, attribs[..m]);
        t := m;
      }
    }
  }

  lemma {:induction false} CompleteLength(pairs: seq<CString>, attribs: seq<Attr>)
    ensures |pairs| <= |Complete(pairs, attribs)|
  {
    if attribs != [] {
      CompleteLength(pairs, attribs[..|attribs| - 1]);
    }
  }

  /** An old attribute's name is new when its turn comes. */
  lemma OldIsNew(pairs: seq<CString>, attribs: seq<Attr>, m: nat, front: seq<CString>)
    requires WfAttribs(attribs) && m < |attribs| && IsOld(pairs, attribs, m, attribs[m].text)
    requires front == Complete(pairs, attribs[..m])
    ensures forall i :: 0 <= i < |front| ==> BreakupName(front[i]) != NameOf(attribs[m])
  {
    forall i | 0 <= i < |front|
      ensures BreakupName(front[i]) != NameOf(attribs[m])
    {
      var t := CompleteIndex(pairs, attribs[..m], i);
      if i >= |pairs| {
        assert BreakupName(front[i]) == NameOf(attribs[t]);
      }
    }
  }

  lemma {:induction false} CompleteHas(pairs: seq<CString>, attribs: seq<Attr>, t: nat) returns (i: nat)
    requires WfAttribs(attribs) && t < |attribs| && IsOld(pairs, attribs, t, attribs[t].text)
    ensures |pairs| <= i < |Complete(pairs, attribs)| && Complete(pairs, attribs)[i] == attribs[t].text
    decreases |attribs|
  {
    var m := |attribs| - 1;
    CompleteLength(pairs, attribs[..m]);
    if t < m {
      i := CompleteHas(pairs, attribs[..m], t);
    } else {
      OldIsNew(pairs, attribs, m, Complete(pairs, attribs[..m]));
      i := |Complete(pairs, attribs[..m])|;
    }
  }

  /** Entries have good names that are not reserved, all different. */
  ghost predicate WfEntries(entries: seq<CString>) {
    && (forall i :: 0 <= i < |entries| ==> GoodName(BreakupName(entries[i])) && !Reserved(BreakupName(entries[i])))
    && forall i, k :: 0 <= i < k < |entries| ==> BreakupName(entries[i]) != BreakupName(entries[k])
  }

  lemma PairsWf(cells: seq<Cell>)
    requires WfRow(cells)
    ensures WfEntries(Pairs(cells))
  {
    var e := Pairs(cells);
    forall i | 0 <= i < |e|
      ensures GoodName(BreakupName(e[i])) && !Reserved(BreakupName(e[i]))
    {
      var j := PairsIndex(cells, i);
      PairParts(cells[j].colName, cells[j].value.value);
    }
    forall i, k | 0 <= i < k < |e|
      ensures BreakupName(e[i]) != BreakupName(e[k])
    {
      var j := PairsIndex(cells, i);
      var l := PairsIndex(cells, k);
      PairParts(cells[j].colName, cells[j].value.value);
      PairParts(cells[l].colName, cells[l].value.value);
    }
  }

  lemma WfEntriesMore(entries: seq<CString>, entry: CString)
    requires WfEntries(entries) && GoodName(BreakupName(entry)) && !Reserved(BreakupName(entry))
    requires forall i :: 0 <= i < |entries| ==> BreakupName(entries[i]) != BreakupName(entry)
    ensures WfEntries(entries + [entry])
  {
  }

  lemma {:induction false} CompleteWf(pairs: seq<CString>, attribs: seq<Attr>)
    requires WfEntries(pairs) && WfAttribs(attribs)
    ensures WfEntries(Complete(pairs, attribs))
    decreases |attribs|
  {
    if attribs != [] {
      var m := |attribs| - 1;
      CompleteWf(pairs, attribs[..m]);
      if IsOld(pairs, attribs, m, attribs[m].text) {
        CompleteWfNext(pairs, attribs, m, Complete(pairs, attribs[..m]));
      }
    }
  }

  lemma CompleteWfNext(pairs: seq<CString>, attribs: seq<Attr>, m: nat, front: seq<CString>)
    requires WfAttribs(attribs) && m < |attribs| && IsOld(pairs, attribs, m, attribs[m].text)
    requires front == Complete(pairs, attribs[..m]) && WfEntries(front)
    ensures WfEntries(AddUnique(front, attribs[m].text))
  {
    ProperParts(attribs[m].text);
    OldIsNew(pairs, attribs, m, front);
    WfEntriesMore(front, attribs[m].text);
  }
}
