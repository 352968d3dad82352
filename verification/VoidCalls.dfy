/** Rewriting `call (void)` as `call ()` in a callback body. */
module VoidCalls {
  import opened Sequences
  import opened Wrappers
  import opened PyText
  import opened BodyText
  import opened GapText

  predicate IdentStart(c: char) {
    'a' <= c <= 'z' || 'A' <= c <= 'Z' || c == '_'
  }

  predicate IdentChar(c: char) {
    IdentStart(c) || '0' <= c <= '9'
  }

  /** \w: which characters outside ASCII are letters or digits is left open. */
  predicate IsWord(c: char, wide: char -> bool) {
    IdentChar(c) || (c >= '\U{80}' && !IsSpace(c) && wide(c))
  }

  function IdentRun(t: string): (n: nat)
    ensures n <= |t|
  {
    if t == "" || !IdentChar(t[0]) then 0 else 1 + IdentRun(t[1..])
  }

  function Skip(t: string): (r: string)
    ensures |r| <= |t|
  {
    t[Spaces(t)..]
  }

  /** What follows "void)" and any spaces within it. */
  function VoidClose(b: string): (rest: Option<string>)
    ensures rest.Some? ==> |rest.value| < |b|
  {
    if !("void" <= b) then None
    else
      var d := Skip(b[4..]);
      if d == "" || d[0] != ')' then None else Some(d[1..])
  }

  /** What follows "(void)" and any spaces before or within it. */
  function VoidArgs(t: string): (rest: Option<string>)
    ensures rest.Some? ==> |rest.value| < |t|
  {
    var a := Skip(t);
    if a == "" || a[0] != '(' then None
    else VoidClose(Skip(a[1..]))
  }

  /** The pattern at the start of t: the name it calls, and what follows the match. */
  function CallAt(t: string): (m: Option<(string, string)>)
    ensures m.Some? ==> |m.value.1| < |t|
  {
    if t == "" || !IdentStart(t[0]) then None
    else
      var n := IdentRun(t);
      var rest := VoidArgs(t[n..]);
      if rest.None? then None else Some((t[..n], rest.value))
  }

  /** The substitution from one position on; `word` says whether a word character stands before it. */
  function Sub(word: bool, t: string, wide: char -> bool): string
    decreases |t|
  {
    if t == "" then ""
    else if !word && CallAt(t).Some? then
      var (name, rest) := CallAt(t).value;
      name + (" ()" + Sub(false, rest, wide))
    else [t[0]] + Sub(IsWord(t[0], wide), t[1..], wide)
  }

  /** What rewrite_body returns. */
  function Rewrite(body: string, wide: char -> bool): string {
    Sub(false, body, wide)
  }

  // ---- the same on characters and gaps

  predicate WordGoesOn(g: Gapped) {
    g.Tok? && g.gap == "" && g.rest.Tok? && IdentChar(g.rest.c)
  }

  /** What follows the identifier whose characters start at g. */
  function AfterWord(g: Gapped): Gapped
    requires g.Tok?
  {
    if WordGoesOn(g) then AfterWord(g.rest) else g.rest
  }

  /** The gap after that identifier. */
  function WordGap(g: Gapped): string
    requires g.Tok?
  {
    if WordGoesOn(g) then WordGap(g.rest) else g.gap
  }

  /** The identifier with one space after it, then k. */
  function WordThen(g: Gapped, k: Gapped): Gapped
    requires g.Tok?
  {
    if WordGoesOn(g) then Tok(g.c, "", WordThen(g.rest, k)) else Tok(g.c, " ", k)
  }

  predicate Is(g: Gapped, c: char, tight: bool) {
    g.Tok? && g.c == c && (tight ==> g.gap == "")
  }

  predicate IsVoid(g: Gapped) {
    Is(g, 'v', true) && Is(g.rest, 'o', true) && Is(g.rest.rest, 'i', true) && Is(g.rest.rest.rest, 'd', false)
  }

  /** From the closing parenthesis on, if b reads void ). */
  function CloseTail(b: Gapped): (t: Gapped)
    ensures t.Tok? ==> t.c == ')' && t < b
  {
    if IsVoid(b) && Is(b.rest.rest.rest.rest, ')', false) then b.rest.rest.rest.rest else End
  }

  /** From the closing parenthesis on, if g reads ( void ). */
  function VoidTail(g: Gapped): (t: Gapped)
    ensures t.Tok? ==> t.c == ')' && t < g
  {
    if Is(g, '(', false) then CloseTail(g.rest) else End
  }

  lemma {:induction false} AfterWordSmaller(g: Gapped)
    requires g.Tok?
    ensures AfterWord(g) < g
  {
    if WordGoesOn(g) {
      AfterWordSmaller(g.rest);
    }
  }

  function SubGaps(word: bool, g: Gapped, wide: char -> bool): Gapped
    decreases g
  {
    if g.End? then End
    else
      AfterWordSmaller(g);
      var close := VoidTail(AfterWord(g));
      if !word && IdentStart(g.c) && close.Tok? then
        WordThen(g, Tok('(', "", Tok(')', close.gap, SubGaps(false, close.rest, wide))))
      else Tok(g.c, g.gap, SubGaps(g.gap == "" && IsWord(g.c, wide), g.rest, wide))
  }

  // ---- both agree

  lemma {:induction false} SkipGap(gap: string, t: string)
    requires AllSpace(gap) && (t != "" ==> !IsSpace(t[0]))
    ensures Skip(gap + t) == t
  {
    if gap == "" {
      assert gap + t == t;
    } else {
      assert (gap + t)[1..] == gap[1..] + t;
      SkipGap(gap[1..], t);
    }
  }

  lemma TextCons(g: Gapped)
    requires g.Tok?
    ensures Text(g) == [g.c] + (g.gap + Text(g.rest)) && Text(g)[0] == g.c && Text(g)[1..] == g.gap + Text(g.rest)
  {
    Associative([g.c], g.gap, Text(g.rest));
  }

  lemma IdentCons(c: char, u: string)
    requires IdentChar(c)
    ensures var n := IdentRun(u); var t := [c] + u;
      IdentRun(t) == n + 1 && t[n + 1..] == u[n..] && t[..n + 1] == [c] + u[..n]
  {
    assert ([c] + u)[1..] == u;
  }

  lemma WordStops(g: Gapped)
    requires Wf(g) && g.Tok? && !WordGoesOn(g)
    ensures IdentRun(g.gap + Text(g.rest)) == 0
  {
    var u := g.gap + Text(g.rest);
    if g.gap != "" {
      assert u[0] == g.gap[0];
    } else if g.rest.Tok? {
      TextCons(g.rest);
      assert u == Text(g.rest);
    }
  }

  lemma {:induction false} IdentText(g: Gapped)
    requires Wf(g) && g.Tok? && IdentChar(g.c)
    ensures Wf(AfterWord(g)) && AllSpace(WordGap(g))
    ensures var n := IdentRun(Text(g)); 0 < n <= |Text(g)| && Text(g)[n..] == WordGap(g) + Text(AfterWord(g))
  {
    TextCons(g);
    IdentCons(g.c, g.gap + Text(g.rest));
    if WordGoesOn(g) {
      assert g.gap + Text(g.rest) == Text(g.rest);
      IdentText(g.rest);
    } else {
      WordStops(g);
    }
  }

  lemma {:induction false} WordThenText(g: Gapped, k: Gapped)
    requires Wf(g) && g.Tok? && IdentChar(g.c)
    ensures Text(WordThen(g, k)) == Text(g)[..IdentRun(Text(g))] + (" " + Text(k))
  {
    TextCons(g);
    IdentCons(g.c, g.gap + Text(g.rest));
    TextCons(WordThen(g, k));
    if WordGoesOn(g) {
      assert g.gap + Text(g.rest) == Text(g.rest);
      WordThenText(g.rest, k);
      Associative([g.c], Text(g.rest)[..IdentRun(Text(g.rest))], " " + Text(k));
      assert "" + Text(WordThen(g.rest, k)) == Text(WordThen(g.rest, k));
    } else {
      WordStops(g);
    }
  }

  lemma SkipToks(gap: string, g: Gapped)
    requires AllSpace(gap) && Wf(g)
    ensures Skip(gap + Text(g)) == Text(g)
  {
    SkipGap(gap, Text(g));
  }

  /** The texts of a, b, ... that begin with a given non-space character. */
  lemma Begins(g: Gapped, c: char, t: string)
    requires Wf(g) && t != "" && !IsSpace(t[0]) && !IsSpace(c)
    ensures [c] + t <= Text(g) <==> Is(g, c, true) && t <= Text(g.rest)
  {
    if g.Tok? {
      TextCons(g);
      var u := g.gap + Text(g.rest);
      assert [c] + t <= Text(g) <==> c == g.c && t <= u;
      if g.gap == "" {
        assert u == Text(g.rest);
      } else {
        assert u[0] == g.gap[0];
      }
    }
  }

  lemma VoidWord(g: Gapped)
    requires Wf(g)
    ensures "void" <= Text(g) <==> IsVoid(g)
    ensures IsVoid(g) ==> Text(g)[4..] == g.rest.rest.rest.gap + Text(g.rest.rest.rest.rest)
  {
    assert "void" == ['v'] + "oid" && "oid" == ['o'] + "id" && "id" == ['i'] + "d";
    Begins(g, 'v', "oid");
    if Is(g, 'v', true) {
      Begins(g.rest, 'o', "id");
      TextCons(g);
      if Is(g.rest, 'o', true) {
        Begins(g.rest.rest, 'i', "d");
        TextCons(g.rest);
        if Is(g.rest.rest, 'i', true) {
          TextCons(g.rest.rest);
          VoidD(g.rest.rest.rest);
        }
      }
    }
  }

  lemma VoidD(g: Gapped)
    ensures "d" <= Text(g) <==> Is(g, 'd', false)
    ensures Is(g, 'd', false) ==> Text(g)[1..] == g.gap + Text(g.rest)
  {
    if g.Tok? {
      TextCons(g);
    }
  }

  lemma CloseText(b: Gapped)
    requires Wf(b)
    ensures VoidClose(Text(b)).Some? <==> CloseTail(b).Tok?
    ensures CloseTail(b).Tok? ==>
      VoidClose(Text(b)) == Some(CloseTail(b).gap + Text(CloseTail(b).rest)) && Wf(CloseTail(b))
  {
    VoidWord(b);
    if IsVoid(b) {
      var d := b.rest.rest.rest;
      assert Wf(b.rest) && Wf(b.rest.rest) && Wf(d);
      SkipToks(d.gap, d.rest);
      if d.rest.Tok? {
        TextCons(d.rest);
      }
    }
  }

  lemma VoidText(gap: string, a: Gapped)
    requires AllSpace(gap) && Wf(a)
    ensures VoidArgs(gap + Text(a)).Some? <==> VoidTail(a).Tok?
    ensures var close := VoidTail(a); close.Tok? ==>
      VoidArgs(gap + Text(a)) == Some(close.gap + Text(close.rest)) && Wf(close)
  {
    SkipToks(gap, a);
    if a.Tok? {
      TextCons(a);
      SkipToks(a.gap, a.rest);
      CloseText(a.rest);
    }
  }

  lemma CallText(g: Gapped)
    requires Wf(g) && g.Tok? && IdentStart(g.c)
    ensures CallAt(Text(g)).Some? <==> VoidTail(AfterWord(g)).Tok?
    ensures var close := VoidTail(AfterWord(g)); close.Tok? ==>
      CallAt(Text(g)) == Some((Text(g)[..IdentRun(Text(g))], close.gap + Text(close.rest))) && Wf(close)
  {
    TextCons(g);
    IdentText(g);
    VoidText(WordGap(g), AfterWord(g));
  }

  lemma SubCons(word: bool, c: char, u: string, wide: char -> bool)
    requires word || !IdentStart(c)
    ensures Sub(word, [c] + u, wide) == [c] + Sub(IsWord(c, wide), u, wide)
  {
    assert ([c] + u)[1..] == u;
  }

  lemma {:induction false} SubSpace(word: bool, gap: string, t: string, wide: char -> bool)
    requires AllSpace(gap)
    ensures Sub(word, gap + t, wide) == gap + Sub(word && gap == "", t, wide)
  {
    if gap == "" {
      assert gap + t == t;
    } else {
      assert gap == [gap[0]] + gap[1..];
      Associative([gap[0]], gap[1..], t);
      SubCons(word, gap[0], gap[1..] + t, wide);
      SubSpace(false, gap[1..], t, wide);
      Associative([gap[0]], gap[1..], Sub(false, t, wide));
    }
  }

  lemma {:induction false} SubText(word: bool, g: Gapped, wide: char -> bool)
    requires Wf(g)
    ensures Sub(word, Text(g), wide) == Text(SubGaps(word, g, wide))
    decreases g
  {
    if g.Tok? {
      TextCons(g);
      AfterWordSmaller(g);
      var close := VoidTail(AfterWord(g));
      if IdentStart(g.c) {
        CallText(g);
      }
      if !word && IdentStart(g.c) && close.Tok? {
        SubText(false, close.rest, wide);
        SubCall(g, close, wide);
      } else {
        var next := g.gap == "" && IsWord(g.c, wide);
        SubText(next, g.rest, wide);
        SubSpace(IsWord(g.c, wide), g.gap, Text(g.rest), wide);
        Associative([g.c], g.gap, Sub(next, Text(g.rest), wide));
      }
    }
  }

  lemma SubCall(g: Gapped, close: Gapped, wide: char -> bool)
    requires Wf(g) && g.Tok? && IdentStart(g.c) && close == VoidTail(AfterWord(g)) && close.Tok? && Wf(close)
    requires Sub(false, Text(close.rest), wide) == Text(SubGaps(false, close.rest, wide))
    ensures Sub(false, Text(g), wide) == Text(SubGaps(false, g, wide))
  {
    var s := Text(SubGaps(false, close.rest, wide));
    var k := Tok('(', "", Tok(')', close.gap, SubGaps(false, close.rest, wide)));
    CallText(g);
    TextCons(g);
    SubSpace(false, close.gap, Text(close.rest), wide);
    WordThenText(g, k);
    ParensText(close.gap, SubGaps(false, close.rest, wide));
  }

  lemma ParensText(gap: string, g: Gapped)
    ensures " " + Text(Tok('(', "", Tok(')', gap, g))) == " ()" + (gap + Text(g))
  {
    var u := gap + Text(g);
    TextCons(Tok(')', gap, g));
    TextCons(Tok('(', "", Tok(')', gap, g)));
    assert "" + (")" + u) == ")" + u;
    Associative("(", ")", u);
    Associative(" ", "()", u);
    assert "(" + ")" == "()" && " " + "()" == " ()";
  }
}
