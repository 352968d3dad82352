/** The in-place merge sort of a linear, doubly linked string list. */
module ListSort {
  import opened NaturalOrder
  import opened Comparison
  import opened MergeSpec
  import opened Sequences

  /** The node at index i of the list L, or the null that ends it. */
  ghost function At(L: seq<Node>, i: nat): Node? {
    if i < |L| then L[i] else null
  }

  /** The `next` fields lead from head through exactly the nodes of L. */
  ghost predicate Chain(head: Node?, L: seq<Node>)
    reads L`next
  {
    head == At(L, 0) && NoDup(L) && forall i {:trigger L[i].next} :: 0 <= i < |L| ==> L[i].next == At(L, i + 1)
  }

  /** A well-formed doubly linked list: `next` as above, `prev` its exact inverse. */
  ghost predicate Linked(head: Node?, L: seq<Node>)
    reads L`next, L`prev
  {
    && Chain(head, L)
    && forall i {:trigger L[i].prev} :: 0 <= i < |L| ==> L[i].prev == if i == 0 then null else L[i - 1]
  }

  /** A list still growing: the last node's `next` is not set yet. */
  ghost predicate Growing(head: Node?, tail: Node?, L: seq<Node>)
    reads L`next, L`prev
  {
    && head == At(L, 0)
    && tail == (if L == [] then null else L[|L| - 1])
    && Strung(L)
    && forall i {:trigger L[i].prev} :: 0 <= i < |L| ==> L[i].prev == if i == 0 then null else L[i - 1]
  }

  /** The `next` fields lead along s; where the last one leads is left open. */
  ghost predicate Strung(s: seq<Node>)
    reads s`next
  {
    forall i {:trigger s[i].next} :: 0 <= i < |s| - 1 ==> s[i].next == s[i + 1]
  }

  /** What every step of the sort leaves alone: the keys of the nodes W, and the text the comparison needs. */
  ghost predicate Comparable(key: Node -> SortKey, W: set<Node>)
    reads W`data, W`pos
  {
    && (forall n :: n in W ==> KeyOf(n) == key(n))
    && (|W| > 1 ==> forall n :: n in W ==> n.data.Text?)
  }

  ghost predicate In(s: seq<Node>, W: set<Node>) {
    forall i :: 0 <= i < |s| ==> s[i] in W
  }

  lemma NoDupMultiset<T>(s: seq<T>, t: seq<T>)
    requires NoDup(s) && multiset(s) == multiset(t)
    ensures NoDup(t)
  {
    forall i, j | 0 <= i < j < |t|
      ensures t[i] != t[j]
    {
      if t[i] == t[j] {
        assert t == t[..i] + [t[i]] + t[i + 1..j] + [t[j]] + t[j + 1..];
        assert multiset(t)[t[i]] >= 2;
        AtMostOnce(s, t[i]);
      }
    }
  }

  lemma {:induction false} AtMostOnce<T>(s: seq<T>, x: T)
    requires NoDup(s)
    ensures multiset(s)[x] <= 1
  {
    if s != [] {
      assert s == [s[0]] + s[1..];
      AtMostOnce(s[1..], x);
      if s[0] == x {
        assert x !in s[1..];
      }
    }
  }

  /** Steps at most `insize` places along the list L from its first node p. */
  method StepAlong(p: Node, insize: nat, ghost L: seq<Node>) returns (q: Node?, psize: nat)
    requires insize > 0 && L != [] && Chain(p, L)
    ensures psize == Min(insize, |L|) && q == At(L, psize)
  {
    q, psize := p, 0;
    var i := 0;
    while i < insize
      invariant i <= insize && psize == i < |L| && q == L[i]
    {
      psize := psize + 1;
      q := q.next;
      if q == null {
        break;
      }
      i := i + 1;
    }
  }

  /** Puts e at the end of the growing list. */
  method Append(e: Node, list: Node?, tail: Node?, ghost out: seq<Node>) returns (list': Node?)
    requires Growing(list, tail, out) && NoDup(out + [e])
    modifies e`prev
    modifies if tail == null then {} else {tail}`next
    ensures Growing(list', e, out + [e])
  {
    list' := list;
    ghost var out' := out + [e];
    assert forall i :: 0 <= i < |out| ==> out[i] == out'[i] && out'[i] != out'[|out|];
    assert tail == null ==> out == [];
    if tail != null {
      tail.next := e;
    } else {
      list' := e;
    }
    e.prev := tail;
  }

  /** Moving the front of a waiting run to the end of out keeps all nodes distinct. */
  lemma TakeFront<T>(out: seq<T>, a: seq<T>, b: seq<T>)
    requires a != [] && NoDup(out + a + b)
    ensures NoDup(out + [a[0]] + a[1..] + b) && NoDup(out + [a[0]]) && a[0] !in out && a[0] !in a[1..] && a[0] !in b
  {
    var front, rest := out + [a[0]], a[1..] + b;
    assert a == [a[0]] + a[1..];
    assert front + rest == out + a + b && front + a[1..] + b == front + rest;
    NoDupParts(front, rest);
    assert a[0] in front && front[|out|] == a[0];
    assert forall i :: 0 <= i < |out| ==> front[i] == out[i];
  }

  lemma TakeSecond<T>(out: seq<T>, a: seq<T>, b: seq<T>)
    requires b != [] && NoDup(out + a + b)
    ensures NoDup(out + b + a)
    ensures NoDup(out + [b[0]] + a + b[1..]) && NoDup(out + [b[0]]) && b[0] !in out && b[0] !in a && b[0] !in b[1..]
  {
    NoDupMultiset(out + a + b, out + b + a);
    TakeFront(out, b, a);
    NoDupMultiset(out + [b[0]] + b[1..] + a, out + [b[0]] + a + b[1..]);
  }

  lemma NoDupParts<T>(s: seq<T>, t: seq<T>)
    requires NoDup(s + t)
    ensures NoDup(s)
    ensures forall x :: x in s ==> x !in t
  {
    forall i, j | 0 <= i < j < |s|
      ensures s[i] != s[j]
    {
      assert (s + t)[i] == s[i] && (s + t)[j] == s[j];
    }
    forall i, j | 0 <= i < |s| && 0 <= j < |t|
      ensures s[i] != t[j]
    {
      assert (s + t)[i] == s[i] && (s + t)[|s| + j] == t[j];
    }
  }

  /** Merge, one element taken off a run. */
  lemma MergeStep(key: Node -> SortKey, out: seq<Node>, a: seq<Node>, b: seq<Node>, fromA: bool)
    requires if fromA then a != [] else b != []
    requires a != [] && b != [] ==> (fromA <==> CompareKeys(key(a[0]), key(b[0])) <= 0)
    ensures fromA ==> out + Merge(key, a, b) == out + [a[0]] + Merge(key, a[1..], b)
    ensures !fromA ==> out + Merge(key, a, b) == out + [b[0]] + Merge(key, a, b[1..])
  {
    if fromA {
      assert Merge(key, a, b) == [a[0]] + Merge(key, a[1..], b);
      Associative(out, [a[0]], Merge(key, a[1..], b));
    } else {
      assert Merge(key, a, b) == [b[0]] + Merge(key, a, b[1..]);
      Associative(out, [b[0]], Merge(key, a, b[1..]));
    }
  }

  lemma Separate<T>(out: seq<T>, a: seq<T>, b: seq<T>)
    requires NoDup(out + a + b)
    ensures forall x :: x in out ==> x !in a && x !in b
  {
    assert out + a + b == out + (a + b);
    NoDupParts(out, a + b);
  }

  /** State of a merge: `out` is built, the run a waits at p, the list b waits at q. */
  ghost predicate Merging(list: Node?, last: Node?, p: Node?, q: Node?, out: seq<Node>, a: seq<Node>, b: seq<Node>)
    reads out`next, out`prev, a`next, b`next
  {
    && Growing(list, last, out)
    && Strung(a) && (a != [] ==> p == a[0])
    && Chain(q, b)
    && NoDup(out + a + b)
  }

  /** The branches of the merge that take the next element from p. */
  method TakeFromP(list: Node?, last: Node?, p: Node, ghost q: Node?,
                   ghost out: seq<Node>, ghost a: seq<Node>, ghost b: seq<Node>)
    returns (list': Node?, p': Node?)
    requires Merging(list, last, p, q, out, a, b) && a != []
    modifies p`prev
    modifies if last == null then {} else {last}`next
    ensures Merging(list', p, p', q, out + [a[0]], a[1..], b)
  {
    TakeFront(out, a, b);
    Separate(out, a, b);
    p' := p.next;
    assert last != null ==> last in out;
    list' := Append(p, list, last, out);
  }

  /** The branches of the merge that take the next element from q. */
  method TakeFromQ(list: Node?, last: Node?, ghost p: Node?, q: Node,
                   ghost out: seq<Node>, ghost a: seq<Node>, ghost b: seq<Node>)
    returns (list': Node?, q': Node?)
    requires Merging(list, last, p, q, out, a, b)
    modifies q`prev
    modifies if last == null then {} else {last}`next
    ensures Merging(list', q, p, q', out + [b[0]], a, b[1..])
  {
    TakeSecond(out, a, b);
    Separate(out, a, b);
    q' := q.next;
    assert last != null ==> last in out;
    list' := Append(q, list, last, out);
  }

  lemma TwoMembers(W: set<Node>, x: Node, y: Node)
    requires x in W && y in W && x != y
    ensures |W| > 1
  {
    assert {x, y} <= W;
    assert |{x, y}| == 2;
    SubsetSize({x, y}, W);
  }

  lemma SubsetSize<T>(a: set<T>, b: set<T>)
    requires a <= b
    ensures |a| <= |b|
  {
    assert b == a + (b - a);
  }

  lemma Apart<T>(out: seq<T>, a: seq<T>, b: seq<T>)
    requires NoDup(out + a + b)
    ensures forall x :: x in a ==> x !in b
  {
    NoDupParts(out + a, b);
    assert forall x :: x in a ==> x in out + a;
  }

  lemma InStep(out: seq<Node>, a: seq<Node>, W: set<Node>)
    requires a != [] && In(out, W) && In(a, W)
    ensures a[0] in W && In(out + [a[0]], W) && In(a[1..], W)
  {
  }

  lemma ConcatTail<T>(s: seq<T>, a: seq<T>, b: seq<T>)
    requires s == a + b && a != []
    ensures s[0] == a[0] && s[1..] == a[1..] + b
  {
    assert (a + b)[1..] == a[1..] + b;
  }

  lemma InitialMerging(list: Node?, tail: Node?, p: Node, q: Node?, k: nat, L: seq<Node>, out: seq<Node>)
    requires k > 0 && L != [] && Chain(p, L) && Growing(list, tail, out) && NoDup(out + L)
    requires q == At(L, Min(k, |L|))
    ensures Merging(list, tail, p, q, out, Run(L, k), AfterFirstRun(L, k))
  {
    var a, b := Run(L, k), AfterFirstRun(L, k);
    assert out + a + b == out + L;
    assert forall i :: 0 <= i < |a| ==> a[i] == L[i];
    assert forall i :: 0 <= i < |b| ==> b[i] == L[|a| + i];
  }

  /** Ghost view of a merge in progress: built so far, run waiting at p, run waiting at q, list after that. */
  datatype Progress = Progress(out: seq<Node>, a: seq<Node>, b: seq<Node>, rest: seq<Node>)

  ghost predicate MergeInvariant(key: Node -> SortKey, W: set<Node>, target: seq<Node>,
                                 list: Node?, tail: Node?, p: Node?, psize: nat, q: Node?, qsize: nat, g: Progress)
    reads g.out`next, g.out`prev, g.a`next, (g.b + g.rest)`next, W`data, W`pos
  {
    && Comparable(key, W)
    && psize == |g.a| && |g.b| == Min(qsize, |g.b + g.rest|)
    && Merging(list, tail, p, q, g.out, g.a, g.b + g.rest)
    && target == g.out + Merge(key, g.a, g.b)
    && In(g.out, W) && In(g.a, W) && In(g.b + g.rest, W)
  }

  ghost predicate PWins(key: Node -> SortKey, a: seq<Node>, b: seq<Node>) {
    a != [] && (b == [] || CompareKeys(key(a[0]), key(b[0])) <= 0)
  }

  ghost predicate QWins(key: Node -> SortKey, a: seq<Node>, b: seq<Node>) {
    b != [] && (a == [] || CompareKeys(key(a[0]), key(b[0])) > 0)
  }

  /** The test of the merge: does the next element come from p? */
  method FromP(list: Node?, tail: Node?, p: Node?, psize: nat, q: Node?, qsize: nat,
               ghost key: Node -> SortKey, ghost W: set<Node>, ghost target: seq<Node>,
               ghost g: Progress)
    returns (fromP: bool)
    requires MergeInvariant(key, W, target, list, tail, p, psize, q, qsize, g)
    requires psize > 0 || (qsize > 0 && q != null)
    ensures if fromP then g.a != [] && p != null && psize > 0 else g.b != [] && q != null && qsize > 0
    ensures if fromP then PWins(key, g.a, g.b) else QWins(key, g.a, g.b)
  {
    if psize == 0 {
      return false;
    }
    if qsize == 0 || q == null {
      return true;
    }
    ghost var x, y := g.a[0], (g.b + g.rest)[0];
    Apart(g.out, g.a, g.b + g.rest);
    assert x in g.a && y in g.b + g.rest;
    TwoMembers(W, x, y);
    var r, _ := Cmp(p, q);
    return r <= 0;
  }

  method AdvanceP(list: Node?, tail: Node?, p: Node, psize: nat, ghost q: Node?, ghost qsize: nat,
                  ghost key: Node -> SortKey, ghost W: set<Node>, ghost target: seq<Node>,
                  ghost g: Progress)
    returns (list': Node?, p': Node?, ghost g': Progress)
    requires MergeInvariant(key, W, target, list, tail, p, psize, q, qsize, g)
    requires PWins(key, g.a, g.b)
    modifies W`next, W`prev
    ensures MergeInvariant(key, W, target, list', p, p', psize - 1, q, qsize, g') && g'.rest == g.rest
  {
    g' := Progress(g.out + [g.a[0]], g.a[1..], g.b, g.rest);
    MergeStep(key, g.out, g.a, g.b, true);
    InStep(g.out, g.a, W);
    assert tail != null ==> tail in W;
    list', p' := TakeFromP(list, tail, p, q, g.out, g.a, g.b + g.rest);
  }

  method AdvanceQ(list: Node?, tail: Node?, ghost p: Node?, ghost psize: nat, q: Node, qsize: nat,
                  ghost key: Node -> SortKey, ghost W: set<Node>, ghost target: seq<Node>,
                  ghost g: Progress)
    returns (list': Node?, q': Node?, ghost g': Progress)
    requires MergeInvariant(key, W, target, list, tail, p, psize, q, qsize, g)
    requires QWins(key, g.a, g.b)
    modifies W`next, W`prev
    ensures qsize > 0
    ensures MergeInvariant(key, W, target, list', q, p, psize, q', qsize - 1, g') && g'.rest == g.rest
  {
    g' := Progress(g.out + [g.b[0]], g.a, g.b[1..], g.rest);
    MergeStep(key, g.out, g.a, g.b, false);
    InStep(g.out, g.b + g.rest, W);
    ConcatTail(g.b + g.rest, g.b, g.rest);
    assert tail != null ==> tail in W;
    list', q' := TakeFromQ(list, tail, p, q, g.out, g.a, g.b + g.rest);
  }

  /** One turn of the merge loop: decide, take, append. */
  method MergeOne(list: Node?, tail: Node?, p: Node?, psize: nat, q: Node?, qsize: nat,
                  ghost key: Node -> SortKey, ghost W: set<Node>, ghost target: seq<Node>,
                  ghost g: Progress)
    returns (list': Node?, e: Node, p': Node?, psize': nat, q': Node?, qsize': nat, ghost g': Progress)
    requires MergeInvariant(key, W, target, list, tail, p, psize, q, qsize, g)
    requires psize > 0 || (qsize > 0 && q != null)
    modifies W`next, W`prev
    ensures MergeInvariant(key, W, target, list', e, p', psize', q', qsize', g')
    ensures psize' + qsize' < psize + qsize && g'.rest == g.rest
  {
    var fromP := FromP(list, tail, p, psize, q, qsize, key, W, target, g);
    p', psize', q', qsize' := p, psize, q, qsize;
    if fromP {
      list', p', g' := AdvanceP(list, tail, p, psize, q, qsize, key, W, target, g);
      e, psize' := p, psize - 1;
    } else {
      list', q', g' := AdvanceQ(list, tail, p, psize, q, qsize, key, W, target, g);
      e, qsize' := q, qsize - 1;
    }
  }

  lemma MergeDone(key: Node -> SortKey, W: set<Node>, target: seq<Node>,
                  list: Node?, tail: Node?, p: Node?, psize: nat, q: Node?, qsize: nat, g: Progress)
    requires MergeInvariant(key, W, target, list, tail, p, psize, q, qsize, g)
    requires psize == 0 && (qsize == 0 || q == null)
    ensures g.out == target && Growing(list, tail, g.out) && Chain(q, g.rest) && NoDup(g.out + g.rest)
    ensures target != [] ==> tail != null
  {
    assert g.a == [] && g.b == [];
    assert g.b + g.rest == g.rest;
    assert g.out + g.a + g.rest == g.out + g.rest;
  }

  /** One merge: the first two runs of the list at p0 are moved to the end of the growing list, in key order. */
  method MergeRuns(p0: Node, insize: nat, list0: Node?, tail0: Node?,
                   ghost key: Node -> SortKey, ghost W: set<Node>, ghost L: seq<Node>, ghost out0: seq<Node>)
    returns (list: Node?, tail: Node, q: Node?, ghost out: seq<Node>, ghost rest: seq<Node>)
    requires insize > 0 && L != [] && Chain(p0, L)
    requires Growing(list0, tail0, out0) && NoDup(out0 + L)
    requires Comparable(key, W) && In(out0, W) && In(L, W)
    modifies W`next, W`prev
    ensures Comparable(key, W) && In(out, W) && In(rest, W)
    ensures var t := AfterFirstRun(L, insize);
      rest == AfterFirstRun(t, insize) && out == out0 + Merge(key, Run(L, insize), Run(t, insize))
    ensures Growing(list, tail, out) && Chain(q, rest) && NoDup(out + rest)
  {
    var p: Node? := p0;
    var psize, qsize;
    q, psize := StepAlong(p0, insize, L);
    qsize := insize;
    list := list0;
    var last := tail0;
    ghost var t := AfterFirstRun(L, insize);
    ghost var g := Progress(out0, Run(L, insize), Run(t, insize), AfterFirstRun(t, insize));
    ghost var target := out0 + Merge(key, g.a, g.b);
    InitialMerging(list0, tail0, p0, q, insize, L, out0);
    while psize > 0 || (qsize > 0 && q != null)
      invariant MergeInvariant(key, W, target, list, last, p, psize, q, qsize, g)
      invariant g.rest == AfterFirstRun(t, insize)
      decreases psize + qsize
    {
      list, last, p, psize, q, qsize, g := MergeOne(list, last, p, psize, q, qsize, key, W, target, g);
    }
    MergeDone(key, W, target, list, last, p, psize, q, qsize, g);
    tail, out, rest := last, g.out, g.rest;
  }

  lemma PassStep(key: Node -> SortKey, L: seq<Node>, out: seq<Node>, k: nat)
    requires L != [] && k > 0
    ensures var t := AfterFirstRun(L, k); var rest := AfterFirstRun(t, k);
      |rest| == |L| - Min(2 * k, |L|) &&
      out + Pass(key, L, k) == out + Merge(key, Run(L, k), Run(t, k)) + Pass(key, rest, k)
  {
  }

  /** What the merge count says about a pass over `total` nodes with `left` of them still to come. */
  ghost predicate MergesDone(n: nat, left: nat, total: nat, k: nat) {
    if n == 0 then left == total
    else if n == 1 then left == (if total <= 2 * k then 0 else total - 2 * k)
    else total > 2 * k
  }

  /** State between the merges of a pass. */
  ghost predicate Passing(key: Node -> SortKey, W: set<Node>, target: seq<Node>, insize: nat,
                          list: Node?, tail: Node?, p: Node?, out: seq<Node>, rest: seq<Node>)
    requires insize > 0
    reads out`next, out`prev, rest`next, W`data, W`pos
  {
    && Growing(list, tail, out) && Chain(p, rest) && NoDup(out + rest)
    && Comparable(key, W) && In(out, W) && In(rest, W)
    && out + Pass(key, rest, insize) == target
  }

  /** The body of the pass loop. */
  method MergePair(p0: Node, insize: nat, list0: Node?, tail0: Node?,
                   ghost key: Node -> SortKey, ghost W: set<Node>, ghost target: seq<Node>,
                   ghost L: seq<Node>, ghost out0: seq<Node>, ghost n: nat)
    returns (list: Node?, tail: Node, q: Node?, ghost out: seq<Node>, ghost rest: seq<Node>)
    requires insize > 0 && Passing(key, W, target, insize, list0, tail0, p0, out0, L)
    requires MergesDone(n, |L|, |target|, insize)
    modifies W`next, W`prev
    ensures Passing(key, W, target, insize, list, tail, q, out, rest)
    ensures |rest| < |L| && MergesDone(n + 1, |rest|, |target|, insize)
  {
    PassStep(key, L, out0, insize);
    list, tail, q, out, rest := MergeRuns(p0, insize, list0, tail0, key, W, L, out0);
  }

  lemma StartPass(key: Node -> SortKey, W: set<Node>, insize: nat, p: Node?, L: seq<Node>)
    requires insize > 0 && Chain(p, L) && Comparable(key, W) && In(L, W)
    ensures Passing(key, W, Pass(key, L, insize), insize, null, null, p, [], L)
  {
    assert [] + L == L;
    assert [] + Pass(key, L, insize) == Pass(key, L, insize);
  }

  /** The last assignment of a pass: the built list is terminated. */
  method Terminate(insize: nat, list: Node?, tail: Node, ghost key: Node -> SortKey, ghost W: set<Node>,
                   ghost target: seq<Node>, ghost out: seq<Node>, ghost rest: seq<Node>)
    requires insize > 0 && Passing(key, W, target, insize, list, tail, null, out, rest)
    modifies W`next
    ensures rest == [] && out == target && Linked(list, out) && Comparable(key, W) && In(out, W)
  {
    assert rest == [] && out + rest == out && out + Pass(key, rest, insize) == out;
    assert tail in W;
    tail.next := null;
  }

  /** One pass over the list: runs of length insize are merged in pairs. */
  method SortPass(p0: Node, insize: nat, ghost key: Node -> SortKey, ghost W: set<Node>, ghost L: seq<Node>)
    returns (list: Node?, nmerges: nat, ghost out: seq<Node>)
    requires insize > 0 && L != [] && Chain(p0, L)
    requires Comparable(key, W) && In(L, W)
    modifies W`next, W`prev
    ensures out == Pass(key, L, insize) && Linked(list, out)
    ensures In(out, W) && Comparable(key, W)
    ensures nmerges <= 1 <==> |L| <= 2 * insize
  {
    var p: Node?, tail: Node? := p0, null;
    list, nmerges, out := null, 0, [];
    ghost var rest, target := L, Pass(key, L, insize);
    StartPass(key, W, insize, p0, L);
    while p != null
      invariant Passing(key, W, target, insize, list, tail, p, out, rest)
      invariant p != null || tail != null
      invariant MergesDone(nmerges, |rest|, |target|, insize)
      decreases |rest|
    {
      nmerges := nmerges + 1;
      list, tail, p, out, rest := MergePair(p, insize, list, tail, key, W, target, rest, out, nmerges - 1);
    }
    Terminate(insize, list, tail, key, W, target, out, rest);
  }

  lemma ManyNodes(W: set<Node>, nodes: seq<Node>)
    requires W == (set n | n in nodes) && |W| > 1
    ensures |nodes| > 1
  {
    if |nodes| <= 1 {
      assert nodes == [] || nodes == [nodes[0]];
      SubsetSize(W, if nodes == [] then {} else {nodes[0]});
    }
  }

  /** The keys of the nodes as they are now, as a function that no longer looks at the heap. */
  ghost function KeysNow(nodes: seq<Node>): (key: Node -> SortKey)
    reads nodes`data, nodes`pos
    ensures forall n :: n in nodes ==> key(n) == KeyOf(n)
  {
    var m := map n | n in nodes :: KeyOf(n);
    n => if n in m then m[n] else SortKey(0, [])
  }

  lemma Footprint(nodes: seq<Node>) returns (W: set<Node>)
    requires |nodes| > 1 ==> forall n :: n in nodes ==> n.data.Text?
    ensures W == (set n | n in nodes) && In(nodes, W) && Comparable(KeysNow(nodes), W)
  {
    W := set n | n in nodes;
    if |W| > 1 {
      ManyNodes(W, nodes);
    }
  }

  /** listsort for a linear, doubly linked list. Only the `next` fields need to be right on entry.
      The nodes come back in key order, equal keys in their old order, linked both ways. */
  method Sort(list: Node?, ghost nodes: seq<Node>) returns (head: Node?, ghost sorted: seq<Node>)
    requires Chain(list, nodes)
    requires |nodes| > 1 ==> forall n :: n in nodes ==> n.data.Text?
    modifies nodes`next, nodes`prev
    ensures Linked(head, sorted)
    ensures StablySorted(old(KeysNow(nodes)), nodes, sorted)
  {
    ghost var key := KeysNow(nodes);
    ghost var W := Footprint(nodes);
    SortIsStable(key, nodes);
    if list == null {
      return null, [];
    }
    head, sorted := SortPasses(list, key, W, nodes);
  }

  /** The outer loop: passes over runs of doubling length, until one pass merges no more than once. */
  method SortPasses(list: Node, ghost key: Node -> SortKey, ghost W: set<Node>, ghost nodes: seq<Node>)
    returns (head: Node?, ghost sorted: seq<Node>)
    requires nodes != [] && Chain(list, nodes) && In(nodes, W) && Comparable(key, W)
    modifies W`next, W`prev
    ensures Linked(head, sorted) && sorted == SortFrom(key, nodes, 1)
  {
    head, sorted := list, nodes;
    var insize := 1;
    while true
      invariant insize > 0 && sorted != [] && Chain(head, sorted) && In(sorted, W) && Comparable(key, W)
      invariant SortFrom(key, sorted, insize) == SortFrom(key, nodes, 1)
      decreases if |sorted| <= 2 * insize then 0 else |sorted| - insize
    {
      var nmerges;
      head, nmerges, sorted := SortPass(head, insize, key, W, sorted);
      if nmerges <= 1 {
        return;
      }
      insize := insize * 2;
    }
  }
}
