/** Decimal numerals in the order of the list: inside any text they compare by value. */
module NumeralOrder {
  import opened CStrings
  import opened NaturalOrder
  import opened Comparison
  import opened Sequences

  /** The decimal digits of n, most significant first. */
  function Dec(n: nat): CString {
    if n < 10 then [48 + n] else Dec(n / 10) + [48 + n % 10]
  }

  /** k leading zeros before the numeral of n. */
  function Numeral(k: nat, n: nat): CString {
    if k == 0 then Dec(n) else [48] + Numeral(k - 1, n)
  }

  ghost predicate AllDigits(s: CString) {
    forall i :: 0 <= i < |s| ==> 48 <= s[i] <= 57
  }

  /** Neither the first nor the last character of a text that stands next to a numeral may be a digit. */
  predicate NoDigitFirst(s: CString) {
    s == [] || !(48 <= s[0] <= 57)
  }

  predicate NoDigitLast(s: CString) {
    s == [] || !(48 <= s[|s| - 1] <= 57)
  }

  lemma {:induction false} DecReads(n: nat)
    ensures Dec(n) != [] && AllDigits(Dec(n)) && DecimalValue(Dec(n)) == n
  {
    if n < 10 {
      assert Dec(n)[..0] == [];
    } else {
      DecReads(n / 10);
      assert Dec(n)[..|Dec(n)| - 1] == Dec(n / 10);
    }
  }

  lemma {:induction false} ZeroFirst(s: CString)
    requires AllDigits(s)
    ensures DecimalValue([48] + s) == DecimalValue(s)
  {
    if s == [] {
      assert ([48] + s)[..0] == [];
    } else {
      ZeroFirst(s[..|s| - 1]);
      assert ([48] + s)[..|s|] == [48] + s[..|s| - 1];
    }
  }

  lemma {:induction false} NumeralValue(k: nat, n: nat)
    ensures Numeral(k, n) != [] && AllDigits(Numeral(k, n)) && DecimalValue(Numeral(k, n)) == n
  {
    if k == 0 {
      DecReads(n);
    } else {
      NumeralValue(k - 1, n);
      ZeroFirst(Numeral(k - 1, n));
    }
  }

  lemma {:induction false} RunOf(digits: CString, rest: CString)
    requires AllDigits(digits) && NoDigitFirst(rest)
    ensures RunLength(digits + rest) == |digits|
  {
    if digits == [] {
      assert digits + rest == rest;
    } else {
      assert (digits + rest)[1..] == digits[1..] + rest;
      RunOf(digits[1..], rest);
    }
  }

  /** A numeral reads as its number, whatever zeros it starts with and whatever follows. */
  lemma NumeralReads(k: nat, n: nat, rest: CString)
    requires NoDigitFirst(rest)
    ensures Atoi(Numeral(k, n) + rest) == n
    ensures AfterRun(Numeral(k, n) + rest) == if rest == [] then [] else rest[1..]
  {
    NumeralValue(k, n);
    RunOf(Numeral(k, n), rest);
    TakeFront(Numeral(k, n), rest);
    if rest != [] {
      assert (Numeral(k, n) + rest)[|Numeral(k, n)| + 1..] == rest[1..];
    }
  }

  /** Its token comes first, and the character after it does not count. */
  lemma NumeralTokens(k: nat, n: nat, rest: CString)
    requires NoDigitFirst(rest)
    ensures Tokens(Numeral(k, n) + rest) == [Number(n)] + Tokens(if rest == [] then [] else rest[1..])
  {
    NumeralReads(k, n, rest);
    NumeralValue(k, n);
    assert (Numeral(k, n) + rest)[0] == Numeral(k, n)[0];
  }

  lemma {:induction false} RunInFront(a: CString, s: CString)
    requires RunLength(a) < |a|
    ensures RunLength(a + s) == RunLength(a)
  {
    if IsDigit(a[0]) {
      assert (a + s)[1..] == a[1..] + s;
      RunInFront(a[1..], s);
    }
  }

  lemma RunAlone(a: CString, s: CString)
    requires RunLength(a) < |a|
    ensures Atoi(a + s) == Atoi(a) && AfterRun(a + s) == AfterRun(a) + s
  {
    RunInFront(a, s);
    CutFront(a, s, RunLength(a));
    CutFront(a, s, RunLength(a) + 1);
  }

  lemma RunTokens(a: CString, s: CString)
    requires RunLength(a) < |a| && IsDigit(a[0])
    requires Tokens(AfterRun(a) + s) == Tokens(AfterRun(a)) + Tokens(s)
    ensures Tokens(a + s) == Tokens(a) + Tokens(s)
  {
    RunAlone(a, s);
    assert (a + s)[0] == a[0];
    Associative([Number(Atoi(a))], Tokens(AfterRun(a)), Tokens(s));
  }

  lemma LetterTokens(a: CString, s: CString)
    requires a != [] && !IsDigit(a[0]) && Tokens(a[1..] + s) == Tokens(a[1..]) + Tokens(s)
    ensures Tokens(a + s) == Tokens(a) + Tokens(s)
  {
    CutFront(a, s, 1);
    assert (a + s)[0] == a[0];
    Associative([Letter(ToLower(a[0]))], Tokens(a[1..]), Tokens(s));
  }

  /** A text that does not end in a digit is tokenised on its own. */
  lemma {:induction false} TokensAppend(a: CString, s: CString)
    requires NoDigitLast(a)
    ensures Tokens(a + s) == Tokens(a) + Tokens(s)
    decreases |a|
  {
    if a == [] {
      assert a + s == s;
    } else if IsDigit(a[0]) {
      assert RunLength(a) == |a| ==> IsDigit(a[|a| - 1]);
      TokensAppend(AfterRun(a), s);
      RunTokens(a, s);
    } else {
      TokensAppend(a[1..], s);
      LetterTokens(a, s);
    }
  }

  lemma {:induction false} SameFront(front: seq<Token>, ts: seq<Token>, us: seq<Token>)
    ensures CompareTokens(front + ts, front + us) == CompareTokens(ts, us)
  {
    if front == [] {
      assert front + ts == ts && front + us == us;
    } else {
      assert (front + ts)[1..] == front[1..] + ts && (front + us)[1..] == front[1..] + us;
      SameFront(front[1..], ts, us);
    }
  }

  /** After the same beginning, different numbers decide by value: R2 comes before R10. */
  lemma NumbersByValue(prefix: CString, k: nat, m: nat, x: CString, l: nat, n: nat, y: CString)
    requires NoDigitLast(prefix) && NoDigitFirst(x) && NoDigitFirst(y) && m != n
    ensures CompareTokens(Tokens(prefix + (Numeral(k, m) + x)), Tokens(prefix + (Numeral(l, n) + y))) == Sign(m - n)
  {
    NumeralTokens(k, m, x);
    NumeralTokens(l, n, y);
    TokensAppend(prefix, Numeral(k, m) + x);
    TokensAppend(prefix, Numeral(l, n) + y);
    SameFront(Tokens(prefix), Tokens(Numeral(k, m) + x), Tokens(Numeral(l, n) + y));
  }

  /** Equal numbers leave the decision to what follows them, less one character. */
  lemma EqualNumbers(prefix: CString, k: nat, n: nat, x: CString, l: nat, y: CString)
    requires NoDigitLast(prefix) && NoDigitFirst(x) && NoDigitFirst(y)
    ensures CompareTokens(Tokens(prefix + (Numeral(k, n) + x)), Tokens(prefix + (Numeral(l, n) + y))) ==
      CompareTokens(Tokens(if x == [] then [] else x[1..]), Tokens(if y == [] then [] else y[1..]))
  {
    NumeralTokens(k, n, x);
    NumeralTokens(l, n, y);
    TokensAppend(prefix, Numeral(k, n) + x);
    TokensAppend(prefix, Numeral(l, n) + y);
    SameFront(Tokens(prefix), Tokens(Numeral(k, n) + x), Tokens(Numeral(l, n) + y));
    SameFront([Number(n)], Tokens(if x == [] then [] else x[1..]), Tokens(if y == [] then [] else y[1..]));
  }

  /** So cells that hold numbered names are ordered by the numbers: cmp has the sign of this comparison. */
  lemma NumberedCells(al: Node, bl: Node, prefix: CString, k: nat, m: nat, x: CString, l: nat, n: nat, y: CString)
    requires NoDigitLast(prefix) && NoDigitFirst(x) && NoDigitFirst(y) && m != n && al.pos == bl.pos
    requires al.data == Text(prefix + (Numeral(k, m) + x)) && bl.data == Text(prefix + (Numeral(l, n) + y))
    ensures CompareKeys(KeyOf(al), KeyOf(bl)) == Sign(m - n)
  {
    NumbersByValue(prefix, k, m, x, l, n, y);
  }

  const CAPITALS: seq<char> := "ABCDEFGHIJKLMNOPQRSTUVWXYZ"

  const SMALL: seq<char> := "abcdefghijklmnopqrstuvwxyz"

  /** Capital letters count as small ones, and everything else as itself. */
  lemma LetterCase(c: CChar)
    ensures |CAPITALS| == |SMALL| == 26
    ensures forall i :: 0 <= i < 26 && c == CAPITALS[i] as int ==> ToLower(c) == SMALL[i] as int
    ensures (forall i :: 0 <= i < 26 ==> c != CAPITALS[i] as int) ==> ToLower(c) == c
  {
    if 65 <= c <= 90 {
      assert CAPITALS[c - 65] as int == c;
    }
  }
}
