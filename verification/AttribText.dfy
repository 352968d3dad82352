/** Attribute texts name=value, and the three ways the code takes them apart. */
module AttribText {
  import opened CStrings
  import opened Wrappers

  const EQ: CChar := 61

  const SPACE: CChar := 32

  const REFDES: CString := [114, 101, 102, 100, 101, 115]

  const NET: CString := [110, 101, 116]

  const SLOT: CString := [115, 108, 111, 116]

  const NUMSLOTS: CString := [110, 117, 109, 115, 108, 111, 116, 115]

  /** Names that never become columns: they form the row name, or are kept out on purpose. */
  predicate Reserved(name: CString) {
    name == REFDES || name == NET || name == SLOT
  }

  /** Index of the first equals sign, or the length. */
  function FindEq(s: CString): (n: nat)
    ensures n <= |s| && (n < |s| ==> s[n] == EQ)
    ensures forall k :: 0 <= k < n ==> s[k] != EQ
  {
    if s == [] || s[0] == EQ then 0 else 1 + FindEq(s[1..])
  }

  function SkipSpaces(s: CString): (r: CString)
    ensures r != [] ==> r[0] != SPACE
    ensures s != [] && s[0] != SPACE ==> r == s
  {
    if s == [] || s[0] != SPACE then s else SkipSpaces(s[1..])
  }

  /** u_basic_breakup_string (s, '=', 0). */
  function BreakupName(s: CString): CString {
    var t := SkipSpaces(s);
    t[..FindEq(t)]
  }

  /** s_misc_remaining_string (s, '=', 1). */
  function Remaining(s: CString): Option<CString> {
    var n := FindEq(s);
    if n == |s| then None
    else
      var r := SkipSpaces(s[n + 1..]);
      if r == [] then None else Some(r)
  }

  /** o_attrib_string_get_name_value: no space may touch the equals sign, and neither side may be empty. */
  function NameValue(s: CString): Option<(CString, CString)> {
    var n := FindEq(s);
    if n == |s| || n == 0 || s[n - 1] == SPACE || n + 1 == |s| || s[n + 1] == SPACE then None
    else Some((s[..n], s[n + 1..]))
  }

  method RemainingString(s: CString) returns (r: Option<CString>)
    ensures r == Remaining(s)
  {
    var i := 0;
    while i < |s| && s[i] != EQ
      invariant i <= |s| && FindEq(s) == i + FindEq(s[i..])
    {
      assert s[i..][1..] == s[i + 1..];
      i := i + 1;
    }
    if i == |s| {
      return None;
    }
    i := i + 1;
    ghost var tail := s[i..];
    while i < |s| && s[i] == SPACE
      invariant i <= |s| && SkipSpaces(tail) == SkipSpaces(s[i..])
    {
      assert s[i..][1..] == s[i + 1..];
      i := i + 1;
    }
    return if i == |s| then None else Some(s[i..]);
  }

  method SpacesFrom(s: CString) returns (i: nat)
    ensures i <= |s| && SkipSpaces(s) == s[i..]
  {
    i := 0;
    while i < |s| && s[i] == SPACE
      invariant i <= |s| && SkipSpaces(s) == SkipSpaces(s[i..])
    {
      assert s[i..][1..] == s[i + 1..];
      i := i + 1;
    }
  }

  method EqFrom(s: CString, start: nat) returns (i: nat)
    requires start <= |s|
    ensures start <= i <= |s| && FindEq(s[start..]) == i - start
  {
    i := start;
    while i < |s| && s[i] != EQ
      invariant start <= i <= |s| && FindEq(s[start..]) == i - start + FindEq(s[i..])
    {
      assert s[i..][1..] == s[i + 1..];
      i := i + 1;
    }
  }

  method BreakupString(s: CString) returns (name: CString)
    ensures name == BreakupName(s)
  {
    var start := SpacesFrom(s);
    var end := EqFrom(s, start);
    name := s[start..end];
    assert name == s[start..][..end - start];
  }

  /** A name that survives being written in front of an equals sign and read back. */
  predicate GoodName(n: CString) {
    n != [] && n[0] != SPACE && n[|n| - 1] != SPACE && EQ !in n
  }

  predicate GoodValue(v: CString) {
    v != [] && v[0] != SPACE
  }

  function Pair(n: CString, v: CString): CString {
    n + ([EQ] + v)
  }

  /** A text all three readings agree on. */
  predicate Proper(s: CString) {
    NameValue(s).Some? && s[0] != SPACE
  }

  lemma FindEqPair(n: CString, v: CString)
    requires EQ !in n
    ensures FindEq(Pair(n, v)) == |n|
    ensures Pair(n, v)[..|n|] == n && Pair(n, v)[|n| + 1..] == v
  {
    assert Pair(n, v)[|n|] == EQ;
    assert forall k :: 0 <= k < |n| ==> Pair(n, v)[k] == n[k] && n[k] in n;
  }

  /** What a written pair reads back as. */
  lemma PairParts(n: CString, v: CString)
    requires GoodName(n)
    ensures BreakupName(Pair(n, v)) == n
    ensures Remaining(Pair(n, v)) == if SkipSpaces(v) == [] then None else Some(SkipSpaces(v))
    ensures GoodValue(v) ==>
      NameValue(Pair(n, v)) == Some((n, v)) && Proper(Pair(n, v)) && Remaining(Pair(n, v)) == Some(v)
  {
    FindEqPair(n, v);
    assert Pair(n, v)[0] == n[0] && Pair(n, v)[|n| - 1] == n[|n| - 1];
    if v != [] {
      assert Pair(n, v)[|n| + 1] == v[0];
    }
  }

  /** A proper text is the pair of its name and value. */
  lemma ProperParts(s: CString)
    requires Proper(s)
    ensures var (n, v) := NameValue(s).value;
      GoodName(n) && GoodValue(v) && s == Pair(n, v) && BreakupName(s) == n && Remaining(s) == Some(v)
  {
    var (n, v) := NameValue(s).value;
    assert s == Pair(n, v);
    assert n[0] == s[0];
    PairParts(n, v);
  }

  lemma PairInjective(n: CString, v: CString, m: CString, w: CString)
    requires EQ !in n && EQ !in m && Pair(n, v) == Pair(m, w)
    ensures n == m && v == w
  {
    FindEqPair(n, v);
    FindEqPair(m, w);
  }
}
