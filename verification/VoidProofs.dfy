/** The rewrite is idempotent and does not see trailing space, so an accepted body is the rendered one. */
module VoidProofs {
  import opened Wrappers
  import opened PyText
  import opened BodyText
  import opened GapText
  import opened VoidCalls

  lemma {:induction false} SubWf(word: bool, g: Gapped, wide: char -> bool)
    requires Wf(g)
    ensures Wf(SubGaps(word, g, wide)) && SubGaps(word, g, wide).End? == g.End?
    ensures g.Tok? ==> SubGaps(word, g, wide).c == g.c
    decreases g
  {
    if g.Tok? {
      AfterWordSmaller(g);
      var close := VoidTail(AfterWord(g));
      if !word && IdentStart(g.c) && close.Tok? {
        CallText(g);
        SubWf(false, close.rest, wide);
        var k := Tok('(', "", Tok(')', close.gap, SubGaps(false, close.rest, wide)));
        assert Wf(k.rest);
        WordThenWf(g, k);
      } else {
        SubWf(g.gap == "" && IsWord(g.c, wide), g.rest, wide);
      }
    }
  }

  lemma {:induction false} WordThenWf(g: Gapped, k: Gapped)
    requires Wf(g) && Wf(k) && g.Tok?
    ensures Wf(WordThen(g, k)) && WordThen(g, k).Tok? && WordThen(g, k).c == g.c
  {
    if WordGoesOn(g) {
      WordThenWf(g.rest, k);
    }
  }

  // ---- idempotence

  /** Copying an identifier commutes with finding its end. */
  lemma {:induction false} SubAfterWord(g: Gapped, wide: char -> bool)
    requires Wf(g) && g.Tok? && IdentChar(g.c)
    ensures AfterWord(Tok(g.c, g.gap, SubGaps(g.gap == "", g.rest, wide))) ==
      SubGaps(WordGap(g) == "", AfterWord(g), wide)
  {
    SubWf(g.gap == "", g.rest, wide);
    if WordGoesOn(g) {
      SubAfterWord(g.rest, wide);
    }
  }

  lemma {:induction false} AfterWordThen(g: Gapped, k: Gapped)
    requires g.Tok? && k.Tok? && !IdentChar(k.c)
    ensures AfterWord(WordThen(g, k)) == k
  {
    if WordGoesOn(g) {
      AfterWordThen(g.rest, k);
    }
  }

  lemma VoidAfterWord(w: Gapped)
    requires CloseTail(w).Tok?
    ensures AfterWord(w) == CloseTail(w)
  {
    assert AfterWord(w.rest.rest.rest) == w.rest.rest.rest.rest;
    assert AfterWord(w.rest.rest) == AfterWord(w.rest.rest.rest);
    assert AfterWord(w) == AfterWord(w.rest) == AfterWord(w.rest.rest);
  }

  /** A name that is called cannot be the void in front of a closing parenthesis. */
  lemma WordThenOpen(g: Gapped, k: Gapped)
    requires Is(k, '(', false) && g.Tok?
    ensures CloseTail(WordThen(g, k)).End?
  {
    AfterWordThen(g, k);
    if CloseTail(WordThen(g, k)).Tok? {
      VoidAfterWord(WordThen(g, k));
    }
  }

  lemma SubClose(b: Gapped, wide: char -> bool)
    requires Wf(b) && CloseTail(SubGaps(false, b, wide)).Tok?
    ensures CloseTail(b).Tok?
  {
    SubWf(false, b, wide);
    AfterWordSmaller(b);
    var close := VoidTail(AfterWord(b));
    if IdentStart(b.c) && close.Tok? {
      WordThenOpen(b, Tok('(', "", Tok(')', close.gap, SubGaps(false, close.rest, wide))));
    } else {
      SubWf(true, b.rest, wide);
      SubWf(true, b.rest.rest, wide);
      SubWf(true, b.rest.rest.rest, wide);
      var d := b.rest.rest.rest;
      SubWf(d.gap == "", d.rest, wide);
    }
  }

  lemma SubNoNewCall(g: Gapped, wide: char -> bool)
    requires Wf(g) && g.Tok? && IdentStart(g.c) && VoidTail(AfterWord(g)).End?
    ensures VoidTail(AfterWord(Tok(g.c, g.gap, SubGaps(g.gap == "", g.rest, wide)))).End?
  {
    SubAfterWord(g, wide);
    IdentText(g);
    var a := AfterWord(g);
    SubWf(WordGap(g) == "", a, wide);
    if Is(a, '(', false) {
      if CloseTail(SubGaps(false, a.rest, wide)).Tok? {
        SubClose(a.rest, wide);
      }
    }
  }

  lemma {:induction false} SubWordThen(word: bool, g: Gapped, k: Gapped, wide: char -> bool)
    requires g.Tok? && IdentChar(g.c) && k.Tok? && !IdentChar(k.c) && (word || VoidTail(k).End?)
    ensures SubGaps(word, WordThen(g, k), wide) == WordThen(g, SubGaps(false, k, wide))
    decreases g
  {
    AfterWordThen(g, k);
    if WordGoesOn(g) {
      SubWordThen(true, g.rest, k, wide);
    }
  }

  /** A call stays as it was rewritten, if what follows it does. */
  lemma CallTwice(g: Gapped, gap: string, s: Gapped, wide: char -> bool)
    requires g.Tok? && IdentChar(g.c) && SubGaps(false, s, wide) == s
    ensures var w := WordThen(g, Tok('(', "", Tok(')', gap, s))); SubGaps(false, w, wide) == w
  {
    var k := Tok('(', "", Tok(')', gap, s));
    SubWordThen(false, g, k, wide);
    assert SubGaps(false, k.rest, wide) == k.rest;
  }

  /** A copied character stays as it was, if what follows it does. */
  lemma CopyTwice(word: bool, g: Gapped, wide: char -> bool)
    requires Wf(g) && g.Tok? && (word || !IdentStart(g.c) || VoidTail(AfterWord(g)).End?)
    requires var next := g.gap == "" && IsWord(g.c, wide);
      SubGaps(next, SubGaps(next, g.rest, wide), wide) == SubGaps(next, g.rest, wide)
    ensures SubGaps(word, SubGaps(word, g, wide), wide) == SubGaps(word, g, wide)
  {
    if !word && IdentStart(g.c) {
      SubNoNewCall(g, wide);
    }
  }

  lemma {:induction false} SubTwice(word: bool, g: Gapped, wide: char -> bool)
    requires Wf(g)
    ensures SubGaps(word, SubGaps(word, g, wide), wide) == SubGaps(word, g, wide)
    decreases g
  {
    if g.Tok? {
      AfterWordSmaller(g);
      var close := VoidTail(AfterWord(g));
      if !word && IdentStart(g.c) && close.Tok? {
        CallText(g);
        SubTwice(false, close.rest, wide);
        CallTwice(g, close.gap, SubGaps(false, close.rest, wide), wide);
      } else {
        SubTwice(g.gap == "" && IsWord(g.c, wide), g.rest, wide);
        CopyTwice(word, g, wide);
      }
    }
  }

  // ---- normalising first makes no difference

  lemma {:induction false} InnerEmpty(gap: string)
    requires AllSpace(gap)
    ensures Inner(gap) == "" <==> gap == ""
    ensures AllSpace(Inner(gap))
    decreases |gap|
  {
    if FindBreak(gap) < |gap| {
      InnerEmpty(gap[BreakEnd(gap, FindBreak(gap))..]);
    }
  }

  lemma {:induction false} InnerTwice(gap: string)
    ensures Inner(Inner(gap)) == Inner(gap)
    decreases |gap|
  {
    var b := FindBreak(gap);
    if b < |gap| {
      var rest := gap[BreakEnd(gap, b)..];
      InnerTwice(rest);
      assert "\n" + Inner(rest) == "" + ("\n" + Inner(rest));
      InnerBreak("", "\n", Inner(rest));
    }
  }

  lemma {:induction false} NormalWf(g: Gapped)
    requires Wf(g)
    ensures Wf(Normal(g)) && Normal(g).End? == g.End? && (g.Tok? ==> Normal(g).c == g.c)
  {
    if g.Tok? {
      NormalWf(g.rest);
      InnerEmpty(g.gap);
    }
  }

  lemma NormalIs(g: Gapped, c: char, tight: bool)
    requires Wf(g) && g.Tok? && g.rest.Tok?
    ensures Is(Normal(g), c, tight) == Is(g, c, tight)
  {
    InnerEmpty(g.gap);
  }

  lemma {:induction false} NormalWord(g: Gapped)
    requires Wf(g) && g.Tok?
    ensures AfterWord(Normal(g)) == Normal(AfterWord(g)) && Wf(AfterWord(g))
    ensures forall k :: WordThen(Normal(g), k) == WordThen(g, k)
  {
    NormalWf(g.rest);
    InnerEmpty(g.gap);
    assert WordGoesOn(Normal(g)) == WordGoesOn(g);
    if WordGoesOn(g) {
      NormalWord(g.rest);
    }
  }

  lemma NormalVoid(b: Gapped)
    requires Wf(b)
    ensures IsVoid(b) && b.rest.rest.rest.rest.Tok? ==>
      IsVoid(Normal(b)) && Normal(b).rest.rest.rest.rest == Normal(b.rest.rest.rest.rest)
    ensures IsVoid(Normal(b)) && Normal(b).rest.rest.rest.rest.Tok? ==> IsVoid(b) && b.rest.rest.rest.rest.Tok?
  {
    if b.Tok? && b.rest.Tok? {
      NormalIs(b, 'v', true);
      if b.rest.rest.Tok? {
        NormalIs(b.rest, 'o', true);
        if b.rest.rest.rest.Tok? {
          NormalIs(b.rest.rest, 'i', true);
        }
      }
    }
  }

  lemma NormalTail(a: Gapped)
    requires Wf(a)
    ensures VoidTail(Normal(a)) == Normal(VoidTail(a))
  {
    if a.Tok? {
      var b := a.rest;
      NormalVoid(b);
      if IsVoid(b) && b.rest.rest.rest.rest.Tok? {
        assert Wf(b.rest);
        assert Wf(b.rest.rest);
        assert Wf(b.rest.rest.rest);
        NormalWf(b.rest.rest.rest.rest);
      }
    }
  }

  lemma {:induction false} NormalWordThen(g: Gapped, k: Gapped)
    requires g.Tok? && k.Tok?
    ensures Normal(WordThen(g, k)) == WordThen(g, Normal(k))
  {
    assert Inner("") == "" && Inner(" ") == " ";
    if WordGoesOn(g) {
      NormalWordThen(g.rest, k);
    }
  }

  lemma {:induction false} SubNormal(word: bool, g: Gapped, wide: char -> bool)
    requires Wf(g)
    ensures Normal(SubGaps(word, Normal(g), wide)) == Normal(SubGaps(word, g, wide))
    decreases g
  {
    if g.Tok? {
      AfterWordSmaller(g);
      NormalWf(g);
      NormalWord(g);
      NormalTail(AfterWord(g));
      var close := VoidTail(AfterWord(g));
      if !word && IdentStart(g.c) && close.Tok? {
        CallText(g);
        SubNormal(false, close.rest, wide);
        SubNormalCall(g, close, wide);
      } else {
        var next := g.gap == "" && IsWord(g.c, wide);
        SubNormal(next, g.rest, wide);
        SubWf(next, g.rest, wide);
        NormalWf(g.rest);
        SubWf(next, Normal(g.rest), wide);
        InnerEmpty(g.gap);
        InnerTwice(g.gap);
      }
    }
  }

  lemma SubNormalCall(g: Gapped, close: Gapped, wide: char -> bool)
    requires Wf(g) && g.Tok? && IdentStart(g.c) && close == VoidTail(AfterWord(g)) && close.Tok? && Wf(close)
    requires Normal(SubGaps(false, Normal(close.rest), wide)) == Normal(SubGaps(false, close.rest, wide))
    ensures Normal(SubGaps(false, Normal(g), wide)) == Normal(SubGaps(false, g, wide))
  {
    NormalWf(g);
    NormalWord(g);
    NormalTail(AfterWord(g));
    var close' := VoidTail(AfterWord(Normal(g)));
    assert close' == Normal(close);
    NormalWf(close.rest);
    var s, s' := SubGaps(false, close.rest, wide), SubGaps(false, close'.rest, wide);
    SubWf(false, close.rest, wide);
    SubWf(false, Normal(close.rest), wide);
    var k, k' := Tok('(', "", Tok(')', close.gap, s)), Tok('(', "", Tok(')', close'.gap, s'));
    NormalWordThen(g, k);
    NormalWordThen(g, k');
    InnerTwice(close.gap);
    assert Normal(Tok(')', close.gap, s)) == Normal(Tok(')', close'.gap, s'));
  }

  /** Rewriting a normal text leaves it normal. */
  lemma {:induction false} SubStaysNormal(word: bool, g: Gapped, wide: char -> bool)
    requires Wf(g) && Normal(g) == g
    ensures Normal(SubGaps(word, g, wide)) == SubGaps(word, g, wide)
    decreases g
  {
    if g.Tok? {
      AfterWordSmaller(g);
      NormalWord(g);
      NormalTail(AfterWord(g));
      var close := VoidTail(AfterWord(g));
      if !word && IdentStart(g.c) && close.Tok? {
        CallText(g);
        NormalAfterWord(g);
        NormalClose(AfterWord(g));
        SubStaysNormal(false, close.rest, wide);
        SubWf(false, close.rest, wide);
        var k := Tok('(', "", Tok(')', close.gap, SubGaps(false, close.rest, wide)));
        assert Inner("") == "";
        assert Normal(k.rest) == k.rest;
        NormalWordThen(g, k);
      } else {
        var next := g.gap == "" && IsWord(g.c, wide);
        SubStaysNormal(next, g.rest, wide);
        SubWf(next, g.rest, wide);
      }
    }
  }

  lemma {:induction false} NormalAfterWord(g: Gapped)
    requires g.Tok? && Normal(g) == g
    ensures Normal(AfterWord(g)) == AfterWord(g)
  {
    if WordGoesOn(g) {
      NormalAfterWord(g.rest);
    }
  }

  lemma NormalClose(a: Gapped)
    requires Normal(a) == a && VoidTail(a).Tok?
    ensures var close := VoidTail(a); Normal(close.rest) == close.rest && Normal(close) == close
  {
    var b := a.rest;
    assert Normal(b) == b;
    assert Normal(b.rest) == b.rest;
    assert Normal(b.rest.rest) == b.rest.rest;
    assert Normal(b.rest.rest.rest) == b.rest.rest.rest;
  }

  // ---- on texts

  /** Every text is a gap followed by characters and gaps. */
  lemma Decompose(t: string) returns (gap: string, g: Gapped)
    ensures AllSpace(gap) && Wf(g) && t == gap + Text(g)
  {
    var n := Spaces(t);
    gap, g := t[..n], Toks(t[n..]);
  }

  lemma RewriteGaps(gap: string, g: Gapped, wide: char -> bool)
    requires AllSpace(gap) && Wf(g)
    ensures Rewrite(gap + Text(g), wide) == gap + Text(SubGaps(false, g, wide)) && Wf(SubGaps(false, g, wide))
  {
    SubSpace(false, gap, Text(g), wide);
    SubText(false, g, wide);
    SubWf(false, g, wide);
  }

  lemma RewriteTwice(body: string, wide: char -> bool)
    ensures Rewrite(Rewrite(body, wide), wide) == Rewrite(body, wide)
  {
    var gap, g := Decompose(body);
    RewriteGaps(gap, g, wide);
    RewriteGaps(gap, SubGaps(false, g, wide), wide);
    SubTwice(false, g, wide);
  }

  lemma {:induction false} OuterGap(gap: string)
    requires AllSpace(gap)
    ensures AllSpace(Outer(gap)) && Outer(Outer(gap)) == Outer(gap)
    decreases |gap|
  {
    if FindBreak(gap) < |gap| {
      OuterGap(gap[BreakEnd(gap, FindBreak(gap))..]);
    }
  }

  lemma {:induction false} NormalTwice(g: Gapped)
    requires Wf(g)
    ensures Normal(Normal(g)) == Normal(g)
  {
    if g.Tok? {
      NormalTwice(g.rest);
      NormalWf(g.rest);
      InnerTwice(g.gap);
    }
  }

  lemma NormalizeTwice(body: string)
    ensures Normalize(Normalize(body)) == Normalize(body)
  {
    var gap, g := Decompose(body);
    NormalizeGaps(gap, g);
    OuterGap(gap);
    if g.End? {
      NormalizeGaps("", End);
    } else {
      NormalWf(g);
      NormalTwice(g);
      NormalizeGaps(Outer(gap), Normal(g));
    }
  }

  /** Normalising before the rewrite makes no difference afterwards. */
  lemma RewriteNormal(body: string, wide: char -> bool)
    ensures Normalize(Rewrite(Normalize(body), wide)) == Normalize(Rewrite(body, wide))
  {
    var gap, g := Decompose(body);
    NormalizeGaps(gap, g);
    RewriteGaps(gap, g, wide);
    NormalizeGaps(gap, SubGaps(false, g, wide));
    SubWf(false, g, wide);
    if g.End? {
      RewriteGaps("", End, wide);
      NormalizeGaps("", End);
    } else {
      OuterGap(gap);
      NormalWf(g);
      RewriteGaps(Outer(gap), Normal(g), wide);
      SubWf(false, Normal(g), wide);
      NormalizeGaps(Outer(gap), SubGaps(false, Normal(g), wide));
      SubNormal(false, g, wide);
    }
  }

  /** The rewrite leaves no trailing space or blank end where there was none. */
  lemma RewriteStaysNormal(body: string, wide: char -> bool)
    ensures Normalize(Rewrite(Normalize(body), wide)) == Rewrite(Normalize(body), wide)
  {
    var gap, g := Decompose(body);
    NormalizeGaps(gap, g);
    if g.End? {
      RewriteGaps("", End, wide);
      NormalizeGaps("", End);
    } else {
      OuterGap(gap);
      NormalWf(g);
      NormalTwice(g);
      RewriteGaps(Outer(gap), Normal(g), wide);
      SubWf(false, Normal(g), wide);
      SubStaysNormal(false, Normal(g), wide);
      NormalizeGaps(Outer(gap), SubGaps(false, Normal(g), wide));
    }
  }

  /** A reply whose body matches the oracle's is, once rewritten and normalised, the oracle's body as rendered. */
  lemma AcceptedBody(oracleBody: string, replyBody: string, wide: char -> bool)
    requires Normalize(oracleBody) == oracleBody
    requires Normalize(replyBody) == Normalize(Rewrite(oracleBody, wide))
    ensures Normalize(Rewrite(replyBody, wide)) == Rewrite(oracleBody, wide)
  {
    RewriteStaysNormal(oracleBody, wide);
    RewriteNormal(replyBody, wide);
    RewriteTwice(oracleBody, wide);
  }
}
