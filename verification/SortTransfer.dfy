/** Carries a stable sort of list cells over to a stable sort of the texts they hold. */
module SortTransfer {
  import opened NaturalOrder
  import opened MergeSpec
  import opened Sequences

  ghost function Map<T, U>(f: T -> U, s: seq<T>): (r: seq<U>)
    ensures |r| == |s| && forall i :: 0 <= i < |s| ==> r[i] == f(s[i])
  {
    seq(|s|, i requires 0 <= i < |s| => f(s[i]))
  }

  lemma TakeOut<T>(s: seq<T>, j: nat)
    requires j < |s|
    ensures multiset(s) == multiset{s[j]} + multiset(s[..j] + s[j + 1..])
    ensures multiset(s[..j] + s[j + 1..]) == multiset(s) - multiset{s[j]}
  {
    assert s == s[..j] + [s[j]] + s[j + 1..];
  }

  lemma MapTakeOut<T, U>(f: T -> U, s: seq<T>, j: nat)
    requires j < |s|
    ensures multiset(Map(f, s)) == multiset{f(s[j])} + multiset(Map(f, s[..j] + s[j + 1..]))
  {
    var m := Map(f, s);
    TakeOut(m, j);
    assert m[..j] + m[j + 1..] == Map(f, s[..j] + s[j + 1..]);
  }

  /** Both sequences with one occurrence of the first one's head taken out. */
  lemma TakeOutCommon<T>(s: seq<T>, t: seq<T>) returns (j: nat)
    requires s != [] && multiset(s) == multiset(t)
    ensures j < |t| && t[j] == s[0]
    ensures multiset(s[..0] + s[1..]) == multiset(t[..j] + t[j + 1..])
  {
    assert s[0] in multiset(t);
    j :| 0 <= j < |t| && t[j] == s[0];
    TakeOut(s, 0);
    TakeOut(t, j);
  }

  lemma {:induction false} MapMultiset<T, U>(f: T -> U, s: seq<T>, t: seq<T>)
    requires multiset(s) == multiset(t)
    ensures multiset(Map(f, s)) == multiset(Map(f, t))
    decreases |s|
  {
    assert |s| == |multiset(s)| && |t| == |multiset(t)|;
    if s != [] {
      var j := TakeOutCommon(s, t);
      var s', t' := s[..0] + s[1..], t[..j] + t[j + 1..];
      MapMultiset(f, s', t');
      MapTakeOut(f, s, 0);
      MapTakeOut(f, t, j);
    }
  }

  /** The text at x's place: cell i of nodes holds items[i]. */
  ghost function Lookup<T, U>(nodes: seq<T>, items: seq<U>, default: U): T -> U {
    x => var i := IndexIn(nodes, x); if 0 <= i < |items| then items[i] else default
  }

  lemma CellsToTexts<T, U>(key: T -> SortKey, rank: U -> SortKey, nodes: seq<T>, items: seq<U>, default: U,
                           sorted: seq<T>, sortedItems: seq<U>)
    requires |nodes| == |items| && NoDup(nodes) && NoDup(items)
    requires forall i :: 0 <= i < |nodes| ==> key(nodes[i]) == rank(items[i])
    requires StablySorted(key, nodes, sorted)
    requires sortedItems == Map(Lookup(nodes, items, default), sorted)
    ensures StablySorted(rank, items, sortedItems) && NoDup(sortedItems)
    ensures forall i :: 0 <= i < |sorted| ==>
      exists j :: 0 <= j < |nodes| && sorted[i] == nodes[j] && sortedItems[i] == items[j]
  {
    var f := Lookup(nodes, items, default);
    forall j | 0 <= j < |nodes|
      ensures f(nodes[j]) == items[j] && IndexIn(nodes, nodes[j]) == j && IndexIn(items, items[j]) == j
    {
      IndexOfElement(nodes, j);
      IndexOfElement(items, j);
    }
    assert Map(f, nodes) == items;
    MapMultiset(f, sorted, nodes);
    SameElements(sorted, nodes);
    forall i | 0 <= i < |sorted|
      ensures exists j :: 0 <= j < |nodes| && sorted[i] == nodes[j] && sortedItems[i] == items[j]
    {
      assert sorted[i] in sorted;
      var j :| 0 <= j < |nodes| && nodes[j] == sorted[i];
      assert sortedItems[i] == f(sorted[i]) == items[j];
    }
    forall i, k | 0 <= i < k < |sorted|
      ensures Before(rank, items, sortedItems[i], sortedItems[k])
    {
      var j :| 0 <= j < |nodes| && sorted[i] == nodes[j] && sortedItems[i] == items[j];
      var l :| 0 <= l < |nodes| && sorted[k] == nodes[l] && sortedItems[k] == items[l];
      assert Before(key, nodes, sorted[i], sorted[k]);
    }
    AscendingNoDup(rank, items, sortedItems);
  }

  lemma AscendingNoDup<T>(key: T -> SortKey, input: seq<T>, s: seq<T>)
    requires Ascending(key, input, s)
    ensures NoDup(s)
  {
    forall i, j | 0 <= i < j < |s|
      ensures s[i] != s[j]
    {
      TotalPreorder(key(s[i]), key(s[j]), key(s[j]));
      assert Before(key, input, s[i], s[j]);
    }
  }
}
