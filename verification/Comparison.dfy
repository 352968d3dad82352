/** The list node and the pointer-walking comparison of gattrib's list sort. */
module Comparison {
  import opened CStrings
  import opened NaturalOrder

  datatype Data = NoData | Text(text: CString)

  /** A STRING_LIST cell. Data is absent only in the single cell of an empty list. */
  class Node {
    var data: Data
    var pos: int
    var next: Node?
    var prev: Node?

    constructor (data: Data, pos: int)
      ensures this.data == data && this.pos == pos && next == null && prev == null
    {
      this.data, this.pos, next, prev := data, pos, null, null;
    }
  }

  function KeyOf(n: Node): SortKey
    reads n`data, n`pos
  {
    SortKey(n.pos, if n.data.Text? then Tokens(n.data.text) else [])
  }

  /** The string's last token is a digit run with no character left for the extra step after it. */
  predicate EndsInRun(s: CString)
    decreases |s|
  {
    s != [] && (
      if IsDigit(s[0]) then RunLength(s) == |s| || EndsInRun(AfterRun(s))
      else EndsInRun(s[1..]))
  }

  /** Exactly when comparing a and b moves a pointer beyond a terminating NUL. */
  predicate StepsPastEnd(a: CString, b: CString) {
    (EndsInRun(a) && Tokens(a) <= Tokens(b)) || (EndsInRun(b) && Tokens(b) <= Tokens(a))
  }

  /** cmp. A pointer that would step past the terminator is kept on it, and `past` records that. */
  method Cmp(al: Node, bl: Node) returns (r: int, past: bool)
    requires al.data.Text? && bl.data.Text?
    ensures Sign(r) == CompareKeys(KeyOf(al), KeyOf(bl))
    ensures past <==> al.pos == bl.pos && StepsPastEnd(al.data.text, bl.data.text)
  {
    var a, b := al.data.text, bl.data.text;
    past := false;
    if al.pos != bl.pos {
      return al.pos - bl.pos, past;
    }
    var i, j := 0, 0;
    while i < |a| && j < |b|
      invariant 0 <= i <= |a| && 0 <= j <= |b|
      invariant SameVerdict(a, b, a[i..], b[j..], past)
      invariant past ==> i == |a| || j == |b|
      decreases |a| - i
    {
      if IsDigit(a[i]) && IsDigit(b[j]) {
        var ia, ib := Atoi(a[i..]), Atoi(b[j..]);
        if ia != ib {
          UnequalRuns(a[i..], b[j..]);
          return ia - ib, past;
        }
        EqualRuns(a, b, a[i..], b[j..]);
        var pastA, pastB;
        i, pastA := SkipRun(a, i);
        j, pastB := SkipRun(b, j);
        past := pastA || pastB;
      } else {
        if ToLower(a[i]) != ToLower(b[j]) {
          UnequalLetters(a[i..], b[j..]);
          return ToLower(a[i]) - ToLower(b[j]), past;
        }
        EqualLetters(a, b, a[i..], b[j..]);
        assert a[i..][1..] == a[i + 1..] && b[j..][1..] == b[j + 1..];
        i, j := i + 1, j + 1;
      }
    }
    if i < |a| {
      return 1, past;
    }
    if j < |b| {
      return -1, past;
    }
    return 0, past;
  }

  /** Loop invariant of Cmp: what is left to compare decides as the whole strings do. */
  ghost predicate SameVerdict(a: CString, b: CString, x: CString, y: CString, past: bool) {
    && CompareTokens(Tokens(a), Tokens(b)) == CompareTokens(Tokens(x), Tokens(y))
    && (StepsPastEnd(a, b) <==> past || StepsPastEnd(x, y))
  }

  /** The digit loop of cmp at i and the shared increment after it, held back at the terminator. */
  method SkipRun(a: CString, i: nat) returns (k: nat, past: bool)
    requires i < |a|
    ensures k <= |a| && (past ==> k == |a|) && k > i
    ensures a[k..] == AfterRun(a[i..])
    ensures past <==> RunLength(a[i..]) == |a| - i
  {
    k := i;
    while k < |a| && IsDigit(a[k])
      invariant i <= k <= |a|
      invariant RunLength(a[i..]) == k - i + RunLength(a[k..])
    {
      assert a[k..][1..] == a[k + 1..];
      k := k + 1;
    }
    past := k == |a|;
    if !past {
      assert a[i..][k - i + 1..] == a[k + 1..];
      k := k + 1;
    }
  }

  lemma UnequalRuns(x: CString, y: CString)
    requires x != [] && y != [] && IsDigit(x[0]) && IsDigit(y[0]) && Atoi(x) != Atoi(y)
    ensures CompareTokens(Tokens(x), Tokens(y)) == Sign(Atoi(x) - Atoi(y))
    ensures !StepsPastEnd(x, y)
  {
    assert Tokens(x)[0] == Number(Atoi(x)) && Tokens(y)[0] == Number(Atoi(y));
  }

  lemma EqualRuns(a: CString, b: CString, x: CString, y: CString)
    requires x != [] && y != [] && IsDigit(x[0]) && IsDigit(y[0]) && Atoi(x) == Atoi(y)
    requires SameVerdict(a, b, x, y, false)
    ensures SameVerdict(a, b, AfterRun(x), AfterRun(y), RunLength(x) == |x| || RunLength(y) == |y|)
  {
    var t, xs, ys := Number(Atoi(x)), Tokens(AfterRun(x)), Tokens(AfterRun(y));
    assert Tokens(x) == [t] + xs && Tokens(y) == [t] + ys;
    assert [t][0] == t && ([t] + xs)[1..] == xs && ([t] + ys)[1..] == ys;
    ConsPrefix(t, xs, ys);
    ConsPrefix(t, ys, xs);
  }

  lemma UnequalLetters(x: CString, y: CString)
    requires x != [] && y != [] && ToLower(x[0]) != ToLower(y[0]) && !(IsDigit(x[0]) && IsDigit(y[0]))
    ensures CompareTokens(Tokens(x), Tokens(y)) == Sign(ToLower(x[0]) - ToLower(y[0]))
    ensures !StepsPastEnd(x, y)
  {
    assert Tokens(x)[0] != Tokens(y)[0];
  }

  lemma EqualLetters(a: CString, b: CString, x: CString, y: CString)
    requires x != [] && y != [] && ToLower(x[0]) == ToLower(y[0]) && !(IsDigit(x[0]) && IsDigit(y[0]))
    requires SameVerdict(a, b, x, y, false)
    ensures SameVerdict(a, b, x[1..], y[1..], false)
  {
    ConsPrefix(Letter(ToLower(x[0])), Tokens(x[1..]), Tokens(y[1..]));
    ConsPrefix(Letter(ToLower(x[0])), Tokens(y[1..]), Tokens(x[1..]));
  }

  lemma ConsPrefix(t: Token, ts: seq<Token>, us: seq<Token>)
    ensures [t] + ts <= [t] + us <==> ts <= us
  {
    assert ([t] + ts)[1..] == ts && ([t] + us)[1..] == us;
    if [t] + ts <= [t] + us {
      assert forall k :: 0 <= k < |ts| ==> ts[k] == ([t] + ts)[k + 1] && us[k] == ([t] + us)[k + 1];
    }
  }

  const R1A: CString := [82, 49, 65]

  const R1B: CString := [82, 49, 66]

  /** The comparison of the text 1 with itself reads past both terminators. */
  lemma OverreadHappens()
    ensures StepsPastEnd([49], [49])
  {
    var one: CString := [49];
    assert RunLength(one[1..]) == 0 && RunLength(one) == 1;
  }

  /** Two different strings may tie: the character after equal digit runs is never looked at. */
  lemma DifferentStringsTie()
    ensures R1A != R1B && Tokens(R1A) == Tokens(R1B) && !StepsPastEnd(R1A, R1B)
  {
    forall s: CString | s == R1A || s == R1B
      ensures Tokens(s) == [Letter(114), Number(1)] && !EndsInRun(s)
    {
      var t := s[1..];
      assert RunLength(t[1..]) == 0;
      assert RunLength(t) == 1;
      assert t[..1] == [49];
      assert DecimalValue([49 as CChar]) == 1;
      assert AfterRun(t) == [];
    }
  }
}
