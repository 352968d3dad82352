/** Text without its spaces: what normalising leaves as it is. */
module SolidText {
  import opened PyText
  import opened BodyText
  import opened GapText
  import opened VoidProofs

  function Solid(t: string): string {
    if t == "" then "" else (if IsSpace(t[0]) then "" else [t[0]]) + Solid(t[1..])
  }

  lemma {:induction false} SolidAppend(a: string, b: string)
    ensures Solid(a + b) == Solid(a) + Solid(b)
  {
    if a == "" {
      assert a + b == b;
    } else {
      assert (a + b)[1..] == a[1..] + b;
      SolidAppend(a[1..], b);
    }
  }

  lemma {:induction false} SolidSpace(t: string)
    requires AllSpace(t)
    ensures Solid(t) == ""
  {
    if t != "" {
      SolidSpace(t[1..]);
    }
  }

  lemma {:induction false} SolidKeeps(t: string)
    requires forall i :: 0 <= i < |t| ==> !IsSpace(t[i])
    ensures Solid(t) == t
  {
    if t != "" {
      SolidKeeps(t[1..]);
    }
  }

  lemma SolidTok(c: char, gap: string, rest: string)
    requires AllSpace(gap)
    ensures Solid([c] + gap + rest) == Solid([c]) + Solid(rest)
  {
    SolidAppend([c] + gap, rest);
    SolidAppend([c], gap);
    SolidSpace(gap);
  }

  lemma {:induction false} SolidNormal(g: Gapped)
    requires Wf(g)
    ensures Solid(Text(Normal(g))) == Solid(Text(g))
  {
    if g.Tok? {
      SolidTok(g.c, g.gap, Text(g.rest));
      if g.rest.Tok? {
        NormalWf(g);
        SolidTok(g.c, Inner(g.gap), Text(Normal(g.rest)));
        SolidNormal(g.rest);
      } else {
        SolidTok(g.c, "", "");
      }
    }
  }

  /** Normalising only moves space about. */
  lemma SolidNormalize(t: string)
    ensures Solid(Normalize(t)) == Solid(t)
  {
    var gap, g := Decompose(t);
    NormalizeGaps(gap, g);
    SolidAppend(gap, Text(g));
    SolidSpace(gap);
    if g.Tok? {
      OuterGap(gap);
      SolidAppend(Outer(gap), Text(Normal(g)));
      SolidSpace(Outer(gap));
      SolidNormal(g);
    }
  }

  function SolidLines(lines: seq<string>): string {
    if lines == [] then "" else Solid(lines[0]) + SolidLines(lines[1..])
  }

  lemma {:induction false} SolidJoin(lines: seq<string>)
    ensures Solid(Join(lines)) == SolidLines(lines)
  {
    if |lines| == 1 {
      assert SolidLines(lines[1..]) == "";
    } else if lines != [] {
      SolidJoin(lines[1..]);
      SolidAppend(lines[0], "\n" + Join(lines[1..]));
      SolidAppend("\n", Join(lines[1..]));
      SolidSpace("\n");
    }
  }

  lemma {:induction false} SolidLinesAppend(a: seq<string>, b: seq<string>)
    ensures SolidLines(a + b) == SolidLines(a) + SolidLines(b)
  {
    if a == [] {
      assert a + b == b;
    } else {
      assert (a + b)[1..] == a[1..] + b;
      SolidLinesAppend(a[1..], b);
    }
  }
}
