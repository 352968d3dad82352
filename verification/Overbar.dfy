/** Overbar markup in text: what the parser puts out, and which stretches it marks. */
module Overbar {
  import opened Sequences
  import opened Wrappers

  const ESCAPE: char := '\\'

  const MARK: char := '_'

  const NUL: char := '\0'

  /** A marked stretch of the output; the source computes the end of one that is never closed from a null
      pointer, which is no end at all. */
  datatype Range = Range(start: nat, end: Option<nat>)

  datatype Parsed = Parsed(text: string, ranges: seq<Range>)

  // ---- the markup as tokens

  datatype Token = Letter(c: char) | Delimiter

  /** A backslash takes the next character with it: an underscore makes a delimiter, anything else itself.
      A backslash with nothing after it disappears. */
  function Tokens(t: string): seq<Token> {
    if t == "" then []
    else if t[0] != ESCAPE then [Letter(t[0])] + Tokens(t[1..])
    else if |t| == 1 then []
    else [if t[1] == MARK then Delimiter else Letter(t[1])] + Tokens(t[2..])
  }

  /** Letters in order. */
  function Text(tokens: seq<Token>): string {
    if tokens == [] then ""
    else
      var front := Text(tokens[..|tokens| - 1]);
      match tokens[|tokens| - 1] case Letter(c) => front + [c] case Delimiter => front
  }

  /** Delimiters by twos: where the stretch that is open at the end begins, if one is. */
  function Pending(tokens: seq<Token>): Option<nat> {
    if tokens == [] then None
    else
      var front := tokens[..|tokens| - 1];
      match tokens[|tokens| - 1]
      case Letter(c) => Pending(front)
      case Delimiter => if Pending(front).Some? then None else Some(|Text(front)|)
  }

  function Closed(tokens: seq<Token>): seq<Range> {
    if tokens == [] then []
    else
      var front := tokens[..|tokens| - 1];
      match tokens[|tokens| - 1]
      case Letter(c) => Closed(front)
      case Delimiter =>
        if Pending(front).Some? then Closed(front) + [Range(Pending(front).value, Some(|Text(front)|))]
        else Closed(front)
  }

  /** What parsing a text gives. */
  function Meaning(t: string): Parsed {
    var tokens := Tokens(t);
    Parsed(Text(tokens), Closed(tokens) + if Pending(tokens).Some? then [Range(Pending(tokens).value, None)] else [])
  }

  lemma TextNext(tokens: seq<Token>, k: Token)
    ensures Text(tokens + [k]) == match k case Letter(c) => Text(tokens) + [c] case Delimiter => Text(tokens)
    ensures Pending(tokens + [k]) == match k
      case Letter(c) => Pending(tokens)
      case Delimiter => if Pending(tokens).Some? then None else Some(|Text(tokens)|)
    ensures Closed(tokens + [k]) == Closed(tokens) +
      if k.Delimiter? && Pending(tokens).Some? then [Range(Pending(tokens).value, Some(|Text(tokens)|))] else []
  {
    assert (tokens + [k])[..|tokens|] == tokens;
  }

  /** The token a character makes, after a backslash or not. */
  function TokenOf(c: char, escaped: bool): Token {
    if escaped && c == MARK then Delimiter else Letter(c)
  }

  lemma TokensFrom(t: string, i: nat, escaped: bool, done: seq<Token>)
    requires i < |t| && (if escaped then i > 0 && t[i - 1] == ESCAPE else t[i] != ESCAPE)
    ensures done + Tokens(t[if escaped then i - 1 else i..]) == (done + [TokenOf(t[i], escaped)]) + Tokens(t[i + 1..])
  {
    var rest := t[if escaped then i - 1 else i..];
    if escaped {
      assert rest[1] == t[i] && rest[2..] == t[i + 1..];
    } else {
      assert rest[0] == t[i] && rest[1..] == t[i + 1..];
    }
    Associative(done, [TokenOf(t[i], escaped)], Tokens(t[i + 1..]));
  }

  /** eda_pango_parse_overbars on a text that ends in its only NUL. */
  method Parse(t: string) returns (r: Parsed)
    requires NUL !in t
    ensures r == Meaning(t)
  {
    var input := t + [NUL];
    var out: string := "";
    var start: Option<nat> := None;
    var ranges: seq<Range> := [];
    var escaped := false;
    ghost var done: seq<Token> := [];
    var i := 0;
    while i < |t|
      invariant i <= |t| && (escaped ==> i > 0 && t[i - 1] == ESCAPE)
      invariant Tokens(t) == done + Tokens(t[if escaped then i - 1 else i..])
      invariant out == Text(done) && start == Pending(done) && ranges == Closed(done)
    {
      var c := input[i];
      assert c == t[i];
      if c == ESCAPE && !escaped {
        escaped := true;
      } else {
        ghost var k := TokenOf(c, escaped);
        TextNext(done, k);
        TokensFrom(t, i, escaped, done);
        var end: Option<nat> := None;
        if c == MARK && escaped {
          if start.Some? {
            end := Some(|out|);
          } else {
            start := Some(|out|);
          }
        } else {
          out := out + [c];
        }
        escaped := false;
        if start.Some? && end.Some? {
          ranges := ranges + [Range(start.value, end)];
          start := None;
        }
        done := done + [k];
      }
      i := i + 1;
    }
    assert Tokens(t[if escaped then i - 1 else i..]) == [];
    assert done + [] == done;
    if start.Some? {
      ranges := ranges + [Range(start.value, None)];
    }
    return Parsed(out, ranges);
  }

  // ---- properties of the result

  lemma {:induction false} TokensShort(t: string)
    ensures |Tokens(t)| <= |t|
    decreases |t|
  {
    if t != "" {
      if t[0] != ESCAPE {
        TokensShort(t[1..]);
      } else if |t| > 1 {
        TokensShort(t[2..]);
      }
    }
  }

  /** Closed stretches lie one after the other inside the text, and before the open one. */
  ghost predicate Ordered(ranges: seq<Range>, limit: nat) {
    && (forall i :: 0 <= i < |ranges| ==> ranges[i].end.Some? && ranges[i].start <= ranges[i].end.value <= limit)
    && forall i, j :: 0 <= i < j < |ranges| ==> ranges[i].end.value <= ranges[j].start
  }

  lemma {:induction false} RangesOrdered(tokens: seq<Token>)
    ensures |Text(tokens)| <= |tokens|
    ensures Pending(tokens).Some? ==> Pending(tokens).value <= |Text(tokens)|
    ensures Ordered(Closed(tokens), if Pending(tokens).Some? then Pending(tokens).value else |Text(tokens)|)
  {
    if tokens != [] {
      RangesOrdered(tokens[..|tokens| - 1]);
    }
  }

  /** The output is no longer than the input; closed ranges are ordered, disjoint and inside it, and an
      unclosed one begins after them. */
  lemma MeaningOrdered(t: string)
    ensures |Meaning(t).text| <= |t|
    ensures var r, n := Meaning(t).ranges, |Closed(Tokens(t))|;
      && n <= |r| <= n + 1 && Ordered(r[..n], |Meaning(t).text|)
      && (n < |r| ==> r[n].end.None? && r[n].start <= |Meaning(t).text| && Ordered(r[..n], r[n].start))
  {
    TokensShort(t);
    RangesOrdered(Tokens(t));
    assert Meaning(t).ranges[..|Closed(Tokens(t))|] == Closed(Tokens(t));
  }

  // ---- writing markup

  function PrintToken(k: Token): string {
    match k
    case Letter(c) => if c == ESCAPE then [ESCAPE, ESCAPE] else [c]
    case Delimiter => [ESCAPE, MARK]
  }

  function Print(tokens: seq<Token>): string {
    if tokens == [] then "" else PrintToken(tokens[0]) + Print(tokens[1..])
  }

  /** Every token sequence can be written and is read back as it was. */
  lemma {:induction false} TokensPrint(tokens: seq<Token>)
    ensures Tokens(Print(tokens)) == tokens
  {
    if tokens != [] {
      TokensPrint(tokens[1..]);
      var k, rest := tokens[0], Print(tokens[1..]);
      assert tokens == [k] + tokens[1..];
      if k.Letter? && k.c != ESCAPE {
        assert Print(tokens)[1..] == rest;
      } else {
        assert Print(tokens)[2..] == rest;
      }
    }
  }

  function Letters(s: string): seq<Token> {
    seq(|s|, i requires 0 <= i < |s| => Letter(s[i]))
  }

  lemma {:induction false} TextLetters(s: string)
    ensures Text(Letters(s)) == s && Closed(Letters(s)) == [] && Pending(Letters(s)).None?
  {
    if s != "" {
      var m := |s| - 1;
      TextLetters(s[..m]);
      assert Letters(s) == Letters(s[..m]) + [Letter(s[m])];
      TextNext(Letters(s[..m]), Letter(s[m]));
      assert s == s[..m] + [s[m]];
    }
  }

  /** Escaping a plain text and parsing it gives that text and marks nothing. */
  lemma PlainRoundTrip(s: string)
    ensures Meaning(Print(Letters(s))) == Parsed(s, [])
  {
    TokensPrint(Letters(s));
    TextLetters(s);
  }

  function Barred(a: string, b: string): seq<Token> {
    Letters(a) + [Delimiter] + Letters(b) + [Delimiter]
  }

  lemma OpenParts(a: string)
    ensures var open := Letters(a) + [Delimiter];
      Text(open) == a && Pending(open) == Some(|a|) && Closed(open) == []
  {
    TextLetters(a);
    TextNext(Letters(a), Delimiter);
  }

  lemma BarredParts(a: string, b: string)
    ensures Text(Barred(a, b)) == a + b && Pending(Barred(a, b)).None?
    ensures Closed(Barred(a, b)) == [Range(|a|, Some(|a| + |b|))]
  {
    var open := Letters(a) + [Delimiter];
    OpenParts(a);
    MoreLetters(open, b);
    TextNext(open + Letters(b), Delimiter);
  }

  /** Text in front, text between two delimiters, text behind: exactly the middle one is marked. */
  lemma BarRoundTrip(a: string, b: string, c: string)
    ensures Meaning(Print(Barred(a, b) + Letters(c))) == Parsed(a + b + c, [Range(|a|, Some(|a| + |b|))])
  {
    TokensPrint(Barred(a, b) + Letters(c));
    BarredParts(a, b);
    MoreLetters(Barred(a, b), c);
  }

  lemma {:induction false} MoreLetters(tokens: seq<Token>, s: string)
    ensures Text(tokens + Letters(s)) == Text(tokens) + s
    ensures Closed(tokens + Letters(s)) == Closed(tokens) && Pending(tokens + Letters(s)) == Pending(tokens)
  {
    if s == "" {
      assert tokens + Letters(s) == tokens;
    } else {
      var m := |s| - 1;
      MoreLetters(tokens, s[..m]);
      assert tokens + Letters(s) == (tokens + Letters(s[..m])) + [Letter(s[m])];
      TextNext(tokens + Letters(s[..m]), Letter(s[m]));
      assert s == s[..m] + [s[m]];
    }
  }
}
