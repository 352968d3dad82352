/** The natural-order key behind the list comparison, and the proof that it is a total preorder. */
module NaturalOrder {
  import opened CStrings

  datatype Token = Number(value: int) | Letter(c: int)

  datatype SortKey = SortKey(pos: int, tokens: seq<Token>)

  /** A run of digits is one token; the character just after the run is swallowed with it. */
  function Tokens(s: CString): seq<Token>
    decreases |s|
  {
    if s == [] then []
    else if IsDigit(s[0]) then [Number(Atoi(s))] + Tokens(AfterRun(s))
    else [Letter(ToLower(s[0]))] + Tokens(s[1..])
  }

  /** What is left after a leading digit run and the one character that follows it, if any. */
  function AfterRun(s: CString): CString {
    var n := RunLength(s);
    if n < |s| then s[n + 1..] else []
  }

  /** The character a token is weighed by against a token of the other kind. All digits weigh the same. */
  function Weight(t: Token): int {
    match t
    case Number(_) => 48
    case Letter(c) => c
  }

  function CompareToken(t: Token, u: Token): int {
    if Weight(t) != Weight(u) then Sign(Weight(t) - Weight(u))
    else if t.Number? && u.Number? then Sign(t.value - u.value)
    else if t.Number? then -1
    else if u.Number? then 1
    else 0
  }

  /** Lexicographic, a proper prefix coming first. */
  function CompareTokens(ts: seq<Token>, us: seq<Token>): int {
    if ts == [] && us == [] then 0
    else if ts == [] then -1
    else if us == [] then 1
    else
      var c := CompareToken(ts[0], us[0]);
      if c != 0 then c else CompareTokens(ts[1..], us[1..])
  }

  function CompareKeys(k: SortKey, l: SortKey): int {
    if k.pos != l.pos then Sign(k.pos - l.pos) else CompareTokens(k.tokens, l.tokens)
  }

  lemma {:induction false} TokensAntisymmetric(ts: seq<Token>, us: seq<Token>)
    ensures CompareTokens(ts, us) == -CompareTokens(us, ts)
  {
    if ts != [] && us != [] {
      TokensAntisymmetric(ts[1..], us[1..]);
    }
  }

  lemma {:induction false} TokensTransitive(ts: seq<Token>, us: seq<Token>, vs: seq<Token>)
    requires CompareTokens(ts, us) <= 0 && CompareTokens(us, vs) <= 0
    ensures CompareTokens(ts, vs) <= 0
    ensures CompareTokens(ts, us) < 0 || CompareTokens(us, vs) < 0 ==> CompareTokens(ts, vs) < 0
  {
    if ts != [] && us != [] && vs != [] {
      if CompareToken(ts[0], us[0]) == 0 && CompareToken(us[0], vs[0]) == 0 {
        TokensTransitive(ts[1..], us[1..], vs[1..]);
      }
    }
  }

  /** Ties are exactly equal token sequences. */
  lemma {:induction false} TokensTie(ts: seq<Token>, us: seq<Token>)
    ensures CompareTokens(ts, us) == 0 <==> ts == us
  {
    if ts != [] && us != [] {
      TokensTie(ts[1..], us[1..]);
      assert ts == [ts[0]] + ts[1..] && us == [us[0]] + us[1..];
    }
  }

  /** The comparison is a total preorder on keys: antisymmetric in sign, reflexive, transitive, and
      it ties exactly on equal keys. */
  lemma TotalPreorder(k: SortKey, l: SortKey, m: SortKey)
    ensures CompareKeys(k, l) == -CompareKeys(l, k)
    ensures CompareKeys(k, l) == 0 <==> k == l
    ensures CompareKeys(k, l) <= 0 && CompareKeys(l, m) <= 0 ==>
      CompareKeys(k, m) <= 0 &&
      (CompareKeys(k, l) < 0 || CompareKeys(l, m) < 0 ==> CompareKeys(k, m) < 0)
  {
    TokensAntisymmetric(k.tokens, l.tokens);
    TokensTie(k.tokens, l.tokens);
    if CompareTokens(k.tokens, l.tokens) <= 0 && CompareTokens(l.tokens, m.tokens) <= 0 {
      TokensTransitive(k.tokens, l.tokens, m.tokens);
    }
  }
}
