/** Bottom-up merge sort on sequences, the specification of the in-place list sort. */
module MergeSpec {
  import opened NaturalOrder
  import opened Sequences

  function Min(a: nat, b: nat): nat {
    if a < b then a else b
  }

  /** Two-way merge; a wins ties. */
  ghost function Merge<T>(key: T -> SortKey, a: seq<T>, b: seq<T>): (r: seq<T>)
    ensures |r| == |a| + |b|
    decreases |a| + |b|
  {
    if a == [] then b
    else if b == [] then a
    else if CompareKeys(key(a[0]), key(b[0])) <= 0 then [a[0]] + Merge(key, a[1..], b)
    else [b[0]] + Merge(key, a, b[1..])
  }

  /** The first k elements, or all there are. */
  ghost function Run<T>(s: seq<T>, k: nat): (r: seq<T>)
    ensures |r| == Min(k, |s|)
    ensures s == r + AfterFirstRun(s, k)
  {
    s[..Min(k, |s|)]
  }

  ghost function AfterFirstRun<T>(s: seq<T>, k: nat): seq<T> {
    s[Min(k, |s|)..]
  }

  /** One pass: neighbouring runs of length k are merged pairwise. */
  ghost function Pass<T>(key: T -> SortKey, s: seq<T>, k: nat): (r: seq<T>)
    requires k > 0
    ensures |r| == |s|
    decreases |s|
  {
    if s == [] then []
    else
      var t := AfterFirstRun(s, k);
      Merge(key, Run(s, k), Run(t, k)) + Pass(key, AfterFirstRun(t, k), k)
  }

  /** Passes with doubling run length until one merge covers everything. */
  ghost function SortFrom<T>(key: T -> SortKey, s: seq<T>, k: nat): (r: seq<T>)
    requires k > 0
    ensures |r| == |s|
    decreases if |s| <= 2 * k then 0 else |s| - k
  {
    if |s| <= 2 * k then Pass(key, s, k) else SortFrom(key, Pass(key, s, k), 2 * k)
  }

  lemma ConsElements<T>(s: seq<T>)
    requires s != []
    ensures multiset(s) == multiset{s[0]} + multiset(s[1..])
  {
    assert s == [s[0]] + s[1..];
  }

  lemma {:induction false} MergeElements<T>(key: T -> SortKey, a: seq<T>, b: seq<T>)
    ensures multiset(Merge(key, a, b)) == multiset(a) + multiset(b)
    decreases |a| + |b|
  {
    if a != [] && b != [] {
      if CompareKeys(key(a[0]), key(b[0])) <= 0 {
        MergeElements(key, a[1..], b);
        ConsElements(a);
      } else {
        MergeElements(key, a, b[1..]);
        ConsElements(b);
      }
    }
  }

  lemma {:induction false} PassElements<T>(key: T -> SortKey, s: seq<T>, k: nat)
    requires k > 0
    ensures multiset(Pass(key, s, k)) == multiset(s)
    decreases |s|
  {
    if s != [] {
      var t := AfterFirstRun(s, k);
      var rest := AfterFirstRun(t, k);
      MergeElements(key, Run(s, k), Run(t, k));
      PassElements(key, rest, k);
      assert s == Run(s, k) + (Run(t, k) + rest);
    }
  }

  lemma {:induction false} SortElements<T>(key: T -> SortKey, s: seq<T>, k: nat)
    requires k > 0
    ensures multiset(SortFrom(key, s, k)) == multiset(s)
    decreases if |s| <= 2 * k then 0 else |s| - k
  {
    PassElements(key, s, k);
    if |s| > 2 * k {
      SortElements(key, Pass(key, s, k), 2 * k);
    }
  }

  lemma SameElements<T>(s: seq<T>, t: seq<T>)
    requires multiset(s) == multiset(t)
    ensures forall x :: x in s <==> x in t
  {
    assert forall x :: x in s <==> x in multiset(s);
  }

  ghost function IndexIn<T>(s: seq<T>, x: T): int {
    if s == [] || s[0] == x then 0 else 1 + IndexIn(s[1..], x)
  }

  /** x must come before y: smaller key, or equal key and earlier in the input. */
  ghost predicate Before<T>(key: T -> SortKey, input: seq<T>, x: T, y: T) {
    var c := CompareKeys(key(x), key(y));
    c < 0 || (c == 0 && IndexIn(input, x) < IndexIn(input, y))
  }

  ghost predicate Ascending<T>(key: T -> SortKey, input: seq<T>, s: seq<T>) {
    forall i, j :: 0 <= i < j < |s| ==> Before(key, input, s[i], s[j])
  }

  ghost predicate AllEarlier<T>(input: seq<T>, s: seq<T>, t: seq<T>) {
    forall x, y :: x in s && y in t ==> IndexIn(input, x) < IndexIn(input, y)
  }

  /** Runs of length k are each in order, and earlier runs hold earlier input. */
  ghost predicate Runs<T>(key: T -> SortKey, input: seq<T>, s: seq<T>, k: nat)
    requires k > 0
    decreases |s|
  {
    s == [] || (
      var (a, t) := (Run(s, k), AfterFirstRun(s, k));
      Ascending(key, input, a) && AllEarlier(input, a, t) && Runs(key, input, t, k))
  }

  lemma {:induction false} MergeAscending<T>(key: T -> SortKey, input: seq<T>, a: seq<T>, b: seq<T>)
    requires Ascending(key, input, a) && Ascending(key, input, b) && AllEarlier(input, a, b)
    ensures Ascending(key, input, Merge(key, a, b))
    decreases |a| + |b|
  {
    if a != [] && b != [] {
      if CompareKeys(key(a[0]), key(b[0])) <= 0 {
        MergeAscending(key, input, a[1..], b);
        MergeElements(key, a[1..], b);
        HeadBefore(key, input, a, b);
        ConsAscending(key, input, a[0], Merge(key, a[1..], b), a[1..] + b);
      } else {
        MergeAscending(key, input, a, b[1..]);
        MergeElements(key, a, b[1..]);
        HeadBefore(key, input, a, b);
        ConsAscending(key, input, b[0], Merge(key, a, b[1..]), a + b[1..]);
      }
    }
  }

  /** The head the merge picks comes before everything it leaves. */
  lemma HeadBefore<T>(key: T -> SortKey, input: seq<T>, a: seq<T>, b: seq<T>)
    requires a != [] && b != []
    requires Ascending(key, input, a) && Ascending(key, input, b) && AllEarlier(input, a, b)
    ensures CompareKeys(key(a[0]), key(b[0])) <= 0 ==>
      forall y :: y in a[1..] + b ==> Before(key, input, a[0], y)
    ensures CompareKeys(key(a[0]), key(b[0])) > 0 ==>
      forall y :: y in a + b[1..] ==> Before(key, input, b[0], y)
  {
    TotalPreorder(key(a[0]), key(b[0]), key(a[0]));
    forall y | y in a[1..] + b && CompareKeys(key(a[0]), key(b[0])) <= 0
      ensures Before(key, input, a[0], y)
    {
      TotalPreorder(key(a[0]), key(b[0]), key(y));
    }
    forall y | y in a + b[1..] && CompareKeys(key(a[0]), key(b[0])) > 0
      ensures Before(key, input, b[0], y)
    {
      TotalPreorder(key(b[0]), key(a[0]), key(y));
    }
  }

  lemma ConsAscending<T>(key: T -> SortKey, input: seq<T>, x: T, s: seq<T>, t: seq<T>)
    requires Ascending(key, input, s) && multiset(s) == multiset(t)
    requires forall y :: y in t ==> Before(key, input, x, y)
    ensures Ascending(key, input, [x] + s)
  {
    SameElements(s, t);
    var r := [x] + s;
    forall i, j | 0 <= i < j < |r|
      ensures Before(key, input, r[i], r[j])
    {
      assert r[j] == s[j - 1] && s[j - 1] in s;
    }
  }

  lemma RunsCons<T>(key: T -> SortKey, input: seq<T>, a: seq<T>, t: seq<T>, k: nat)
    requires 0 < |a| <= k && (|a| < k ==> t == [])
    requires Ascending(key, input, a) && AllEarlier(input, a, t) && Runs(key, input, t, k)
    ensures Runs(key, input, a + t, k)
  {
    assert Run(a + t, k) == a && AfterFirstRun(a + t, k) == t;
  }

  lemma {:induction false} PassRuns<T>(key: T -> SortKey, input: seq<T>, s: seq<T>, k: nat)
    requires k > 0 && Runs(key, input, s, k)
    ensures Runs(key, input, Pass(key, s, k), 2 * k)
    decreases |s|
  {
    if s != [] {
      var t := AfterFirstRun(s, k);
      var a, b, rest := Run(s, k), Run(t, k), AfterFirstRun(t, k);
      assert Ascending(key, input, b) && AllEarlier(input, b, rest) && Runs(key, input, rest, k);
      MergeAscending(key, input, a, b);
      PassRuns(key, input, rest, k);
      PassElements(key, rest, k);
      EarlierMerged(key, input, a, b, rest, Pass(key, rest, k));
      RunsCons(key, input, Merge(key, a, b), Pass(key, rest, k), 2 * k);
    }
  }

  lemma EarlierMerged<T>(key: T -> SortKey, input: seq<T>, a: seq<T>, b: seq<T>, rest: seq<T>, rest': seq<T>)
    requires AllEarlier(input, a, b + rest) && AllEarlier(input, b, rest) && multiset(rest') == multiset(rest)
    ensures AllEarlier(input, Merge(key, a, b), rest')
  {
    MergeElements(key, a, b);
    SameElements(Merge(key, a, b), a + b);
    SameElements(rest', rest);
  }

  lemma {:induction false} SortFromCorrect<T>(key: T -> SortKey, input: seq<T>, s: seq<T>, k: nat)
    requires k > 0 && Runs(key, input, s, k)
    ensures Ascending(key, input, SortFrom(key, s, k))
    decreases if |s| <= 2 * k then 0 else |s| - k
  {
    var p := Pass(key, s, k);
    PassRuns(key, input, s, k);
    if |s| <= 2 * k {
      assert Run(p, 2 * k) == p;
    } else {
      SortFromCorrect(key, input, p, 2 * k);
    }
  }

  lemma {:induction false} IndexOfElement<T>(s: seq<T>, i: nat)
    requires NoDup(s) && i < |s|
    ensures IndexIn(s, s[i]) == i
  {
    if i > 0 {
      IndexOfElement(s[1..], i - 1);
    }
  }

  /** r is s rearranged into key order, equal keys staying in the order s has them. */
  ghost predicate StablySorted<T>(key: T -> SortKey, s: seq<T>, r: seq<T>) {
    multiset(r) == multiset(s) && Ascending(key, s, r)
  }

  lemma {:induction false} SingletonRuns<T>(key: T -> SortKey, input: seq<T>, i: nat)
    requires NoDup(input) && i <= |input|
    ensures Runs(key, input, input[i..], 1)
    decreases |input| - i
  {
    var s := input[i..];
    if s != [] {
      SingletonRuns(key, input, i + 1);
      assert Run(s, 1) == [input[i]] && AfterFirstRun(s, 1) == input[i + 1..];
      forall y | y in input[i + 1..]
        ensures IndexIn(input, input[i]) < IndexIn(input, y)
      {
        var j :| 0 <= j < |input[i + 1..]| && input[i + 1..][j] == y;
        IndexOfElement(input, i);
        IndexOfElement(input, i + 1 + j);
      }
    }
  }

  lemma SortIsStable<T>(key: T -> SortKey, s: seq<T>)
    requires NoDup(s)
    ensures StablySorted(key, s, SortFrom(key, s, 1))
  {
    SingletonRuns(key, s, 0);
    assert s[0..] == s;
    SortFromCorrect(key, s, s, 1);
    SortElements(key, s, 1);
  }

  lemma SameHead<T>(key: T -> SortKey, input: seq<T>, q: seq<T>, r: seq<T>)
    requires Ascending(key, input, q) && Ascending(key, input, r)
    requires q != [] && r != [] && q[0] in r && r[0] in q
    ensures q[0] == r[0]
  {
    BeforeOnce(key, input, q[0], r[0]);
    var i :| 0 <= i < |r| && r[i] == q[0];
    var j :| 0 <= j < |q| && q[j] == r[0];
  }

  lemma BeforeOnce<T>(key: T -> SortKey, input: seq<T>, a: T, b: T)
    ensures !(Before(key, input, a, b) && Before(key, input, b, a))
  {
    TotalPreorder(key(a), key(b), key(a));
  }

  /** There is only one way to put things in this order. */
  lemma {:induction false} AscendingUnique<T>(key: T -> SortKey, input: seq<T>, q: seq<T>, r: seq<T>)
    requires Ascending(key, input, q) && Ascending(key, input, r) && multiset(q) == multiset(r)
    ensures q == r
  {
    assert |q| == |multiset(q)| && |r| == |multiset(r)|;
    if q != [] {
      SameElements(q, r);
      assert q[0] in q && r[0] in r;
      SameHead(key, input, q, r);
      assert q == [q[0]] + q[1..] && r == [r[0]] + r[1..];
      assert multiset(q[1..]) == multiset(q) - multiset{q[0]};
      assert multiset(r[1..]) == multiset(r) - multiset{r[0]};
      AscendingUnique(key, input, q[1..], r[1..]);
    }
  }
}
