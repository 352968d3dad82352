/** Text as characters with the gap of spaces after each; normalising acts on the gaps alone. */
module GapText {
  import opened PyText
  import opened BodyText
  import opened Sequences

  datatype Gapped = End | Tok(c: char, gap: string, rest: Gapped)

  ghost predicate Wf(g: Gapped) {
    g.Tok? ==> !IsSpace(g.c) && AllSpace(g.gap) && Wf(g.rest)
  }

  function Text(g: Gapped): string {
    if g.End? then "" else [g.c] + g.gap + Text(g.rest)
  }

  /** Everything after the leading gap, cut into characters and gaps. */
  ghost function Toks(t: string): (g: Gapped)
    requires t != "" ==> !IsSpace(t[0])
    ensures Wf(g) && Text(g) == t
    decreases |t|
  {
    if t == "" then End
    else
      var n := Spaces(t[1..]);
      assert t == [t[0]] + t[1..][..n] + t[1..][n..];
      Tok(t[0], t[1..][..n], Toks(t[1..][n..]))
  }

  // ---- what normalising does to a gap

  /** A gap between two characters: its line breaks become newlines, spaces before a break go. */
  function Inner(gap: string): string
    decreases |gap|
  {
    var b := FindBreak(gap);
    if b == |gap| then gap else "\n" + Inner(gap[BreakEnd(gap, b)..])
  }

  /** The gap in front: only what stands on the first line that is not blank stays. */
  function Outer(gap: string): string
    decreases |gap|
  {
    var b := FindBreak(gap);
    if b == |gap| then gap else Outer(gap[BreakEnd(gap, b)..])
  }

  function Normal(g: Gapped): Gapped {
    if g.End? then End
    else if g.rest.End? then Tok(g.c, "", End)
    else Tok(g.c, Inner(g.gap), Normal(g.rest))
  }

  // ---- the lines of a text, joined again

  function Flat(t: string): string
    decreases |t|
  {
    var b := FindBreak(t);
    if b == |t| then Rstrip(t)
    else
      var rest := t[BreakEnd(t, b)..];
      Rstrip(t[..b]) + (if rest == "" then "" else "\n" + Flat(rest))
  }

  lemma {:induction false} FlatIsJoin(t: string)
    ensures Flat(t) == Join(StripEach(SplitLines(t)))
    decreases |t|
  {
    var b := FindBreak(t);
    if b < |t| {
      var rest := t[BreakEnd(t, b)..];
      FlatIsJoin(rest);
      assert StripEach(SplitLines(t))[1..] == StripEach(SplitLines(rest));
    }
  }

  lemma {:induction false} FindBreakAt(x: string, t: string)
    requires NoBreak(x)
    ensures FindBreak(x + t) == |x| + FindBreak(t)
  {
    if x == "" {
      assert x + t == t;
    } else {
      assert (x + t)[1..] == x[1..] + t;
      FindBreakAt(x[1..], t);
    }
  }

  lemma {:induction false} RstripAfter(x: string, t: string)
    requires x != "" && !IsSpace(x[|x| - 1])
    ensures Rstrip(x + t) == x + Rstrip(t)
    decreases |t|
  {
    if t == "" {
      assert x + t == x;
    } else if IsSpace(t[|t| - 1]) {
      assert (x + t)[..|x + t| - 1] == x + t[..|t| - 1];
      RstripAfter(x, t[..|t| - 1]);
    }
  }

  /** One line break standing before `rest`. */
  predicate IsBrk(brk: string, rest: string) {
    || brk == "\r\n"
    || (|brk| == 1 && IsBreak(brk[0]) && !(brk[0] == '\r' && rest != "" && rest[0] == '\n'))
  }

  /** Text with a break is its first line, the break, and the rest. */
  lemma Cut(t: string) returns (line: string, brk: string, rest: string)
    requires FindBreak(t) < |t|
    ensures t == line + (brk + rest) && NoBreak(line) && IsBrk(brk, rest)
    ensures AllSpace(t) ==> AllSpace(line) && AllSpace(rest)
  {
    var b := FindBreak(t);
    var e := BreakEnd(t, b);
    line, brk, rest := t[..b], t[b..e], t[e..];
  }

  lemma CutAt(line: string, brk: string, rest: string)
    requires NoBreak(line) && IsBrk(brk, rest)
    ensures var t := line + (brk + rest);
      FindBreak(t) == |line| < |t| && BreakEnd(t, |line|) == |line| + |brk|
    ensures (line + (brk + rest))[..|line|] == line && (line + (brk + rest))[|line| + |brk|..] == rest
  {
    FindBreakAt(line, brk + rest);
  }

  lemma FlatLine(line: string)
    requires NoBreak(line)
    ensures Flat(line) == Rstrip(line)
  {
    FindBreakAt(line, "");
    assert line + "" == line;
  }

  lemma FlatBreak(line: string, brk: string, rest: string)
    requires NoBreak(line) && IsBrk(brk, rest)
    ensures Flat(line + (brk + rest)) == Rstrip(line) + Tail(rest)
  {
    CutAt(line, brk, rest);
  }

  lemma InnerBreak(line: string, brk: string, rest: string)
    requires NoBreak(line) && IsBrk(brk, rest)
    ensures Inner(line + (brk + rest)) == "\n" + Inner(rest)
  {
    CutAt(line, brk, rest);
  }

  function Tail(rest: string): string {
    if rest == "" then "" else "\n" + Flat(rest)
  }

  lemma FlatAfterBreak(x: string, line: string, brk: string, rest: string)
    requires NoBreak(x) && x != "" && !IsSpace(x[|x| - 1]) && NoBreak(line) && IsBrk(brk, rest)
    ensures Flat((x + line) + (brk + rest)) == x + Flat(line + (brk + rest))
  {
    FlatBreak(line, brk, rest);
    FlatBreak(x + line, brk, rest);
    RstripAfter(x, line);
    Associative(x, Rstrip(line), Tail(rest));
  }

  /** Text before which stands a character on the same line. */
  lemma FlatAfter(x: string, t: string)
    requires NoBreak(x) && x != "" && !IsSpace(x[|x| - 1])
    ensures Flat(x + t) == x + Flat(t)
  {
    if FindBreak(t) == |t| {
      FlatLine(t);
      FlatLine(x + t);
      RstripAfter(x, t);
    } else {
      var line, brk, rest := Cut(t);
      FlatAfterBreak(x, line, brk, rest);
      Associative(x, line, brk + rest);
    }
  }

  lemma {:induction false} FlatGap(gap: string, t: string)
    requires AllSpace(gap) && t != "" && !IsSpace(t[0])
    ensures Flat(gap + t) == Inner(gap) + Flat(t)
    decreases |gap|
  {
    if FindBreak(gap) == |gap| {
      FlatIndent(gap, t);
    } else {
      var line, brk, rest := Cut(gap);
      FlatGap(rest, t);
      FlatGapBreak(line, brk, rest, t);
    }
  }

  lemma FlatGapBreak(line: string, brk: string, rest: string, t: string)
    requires NoBreak(line) && IsBrk(brk, rest) && AllSpace(line) && t != "" && !IsSpace(t[0])
    requires Flat(rest + t) == Inner(rest) + Flat(t)
    ensures Flat((line + (brk + rest)) + t) == Inner(line + (brk + rest)) + Flat(t)
  {
    InnerBreak(line, brk, rest);
    Associative(line, brk + rest, t);
    Associative(brk, rest, t);
    FlatBreak(line, brk, rest + t);
    SpaceStrips(line);
    Associative("\n", Inner(rest), Flat(t));
  }

  lemma FlatIndent(gap: string, t: string)
    requires AllSpace(gap) && NoBreak(gap) && t != "" && !IsSpace(t[0])
    ensures Flat(gap + t) == gap + Flat(t)
  {
    var x := [t[0]];
    assert t == x + t[1..];
    Associative(gap, x, t[1..]);
    FlatAfter(gap + x, t[1..]);
    FlatAfter(x, t[1..]);
    Associative(gap, x, Flat(t[1..]));
  }

  lemma {:induction false} SpaceStrips(s: string)
    requires AllSpace(s)
    ensures Rstrip(s) == ""
  {
    if s != "" {
      SpaceStrips(s[..|s| - 1]);
    }
  }

  ghost predicate AllNewlines(s: string) {
    forall i :: 0 <= i < |s| ==> s[i] == '\n'
  }

  /** flat is s, and newlines perhaps. */
  ghost predicate Trails(s: string, flat: string) {
    s <= flat && AllNewlines(flat[|s|..])
  }

  lemma TrailsAfter(front: string, s: string, flat: string)
    requires Trails(s, flat)
    ensures Trails(front + s, front + flat)
  {
    assert (front + flat)[|front + s|..] == flat[|s|..];
  }

  lemma FlatLast(c: char, gap: string)
    requires !IsSpace(c) && AllSpace(gap)
    ensures Trails([c], Flat([c] + gap))
  {
    FlatAfter([c], gap);
    FlatSpaces(gap);
    assert ([c] + Flat(gap))[1..] == Flat(gap);
  }

  lemma FlatFirst(c: char, gap: string, t: string, s: string)
    requires !IsSpace(c) && AllSpace(gap) && t != "" && !IsSpace(t[0]) && Trails(s, Flat(t))
    ensures Trails([c] + Inner(gap) + s, Flat([c] + gap + t))
  {
    Associative([c], gap, t);
    FlatAfter([c], gap + t);
    FlatGap(gap, t);
    TrailsAfter([c] + Inner(gap), s, Flat(t));
    Associative([c], Inner(gap), Flat(t));
  }

  lemma {:induction false} FlatText(g: Gapped)
    requires Wf(g) && g.Tok?
    ensures Trails(Text(Normal(g)), Flat(Text(g)))
  {
    if g.rest.End? {
      NothingMore([g.c], g.gap);
      FlatLast(g.c, g.gap);
    } else {
      FlatText(g.rest);
      assert Text(g.rest)[0] == g.rest.c;
      FlatFirst(g.c, g.gap, Text(g.rest), Text(Normal(g.rest)));
    }
  }

  lemma NothingMore(a: string, b: string)
    ensures a + b + "" == a + b && a + "" + "" == a
  {
  }

  lemma {:induction false} FlatSpaces(gap: string)
    requires AllSpace(gap)
    ensures AllNewlines(Flat(gap))
    decreases |gap|
  {
    if FindBreak(gap) == |gap| {
      FlatLine(gap);
      SpaceStrips(gap);
    } else {
      var line, brk, rest := Cut(gap);
      FlatSpaces(rest);
      FlatSpacesBreak(line, brk, rest);
    }
  }

  lemma FlatSpacesBreak(line: string, brk: string, rest: string)
    requires NoBreak(line) && IsBrk(brk, rest) && AllSpace(line) && AllNewlines(Flat(rest))
    ensures AllNewlines(Flat(line + (brk + rest)))
  {
    FlatBlank(line, brk, rest);
    if rest != "" {
      assert Tail(rest) == "\n" + Flat(rest);
    }
  }

  lemma FlatBlank(line: string, brk: string, rest: string)
    requires NoBreak(line) && IsBrk(brk, rest) && AllSpace(line)
    ensures Flat(line + (brk + rest)) == Tail(rest)
  {
    FlatBreak(line, brk, rest);
    SpaceStrips(line);
    assert "" + Tail(rest) == Tail(rest);
  }

  // ---- dropping blank lines is trimming newlines

  function TrimLead(s: string): string {
    if s != "" && s[0] == '\n' then TrimLead(s[1..]) else s
  }

  function TrimTrail(s: string): string {
    if s != "" && s[|s| - 1] == '\n' then TrimTrail(s[..|s| - 1]) else s
  }

  ghost predicate Plain(lines: seq<string>) {
    forall i :: 0 <= i < |lines| ==> '\n' !in lines[i]
  }

  lemma {:induction false} PlainLines(t: string)
    ensures Plain(StripEach(SplitLines(t)))
    decreases |t|
  {
    var b := FindBreak(t);
    if b < |t| {
      var rest := t[BreakEnd(t, b)..];
      PlainLines(rest);
      NoNewline(t[..b]);
      PlainMore(t[..b], SplitLines(rest));
    } else if t != "" {
      assert t[..b] == t;
      NoNewline(t);
    }
  }

  lemma PlainMore(line: string, lines: seq<string>)
    requires '\n' !in Rstrip(line) && Plain(StripEach(lines))
    ensures Plain(StripEach([line] + lines))
  {
    forall i | 0 <= i < 1 + |lines|
      ensures '\n' !in StripEach([line] + lines)[i]
    {
      assert i > 0 ==> StripEach([line] + lines)[i] == StripEach(lines)[i - 1];
    }
  }

  lemma NoNewline(line: string)
    requires NoBreak(line)
    ensures '\n' !in Rstrip(line)
  {
    assert forall i :: 0 <= i < |Rstrip(line)| ==> Rstrip(line)[i] == line[i];
  }

  lemma {:induction false} TrimLeadJoin(lines: seq<string>)
    requires Plain(lines)
    ensures TrimLead(Join(lines)) == Join(DropLead(lines))
  {
    if lines != [] && lines[0] == "" {
      TrimLeadJoin(lines[1..]);
      if |lines| > 1 {
        assert "" + ("\n" + Join(lines[1..])) == "\n" + Join(lines[1..]);
        TrimCons(Join(lines[1..]));
      }
    } else if lines != [] {
      assert Join(lines)[0] == lines[0][0];
    }
  }

  lemma {:induction false} JoinSnoc(lines: seq<string>)
    requires |lines| > 1
    ensures Join(lines) == Join(lines[..|lines| - 1]) + ("\n" + lines[|lines| - 1])
  {
    if |lines| > 2 {
      JoinSnoc(lines[1..]);
      assert lines[1..][..|lines| - 2] == lines[..|lines| - 1][1..];
    }
  }

  lemma {:induction false} TrimTrailJoin(lines: seq<string>)
    requires Plain(lines)
    ensures TrimTrail(Join(lines)) == Join(DropTrail(lines))
  {
    if lines != [] {
      var n := |lines| - 1;
      if n > 0 {
        JoinSnoc(lines);
      }
      if lines[n] == "" {
        TrimTrailJoin(lines[..n]);
        if n > 0 {
          assert Join(lines)[..|Join(lines)| - 1] == Join(lines[..n]);
        }
      } else {
        assert Join(lines)[|Join(lines)| - 1] == lines[n][|lines[n]| - 1];
      }
    }
  }

  lemma {:induction false} PlainDropLead(lines: seq<string>)
    requires Plain(lines)
    ensures Plain(DropLead(lines))
  {
    if lines != [] && lines[0] == "" {
      PlainDropLead(lines[1..]);
    }
  }

  lemma NormalizeTrims(t: string)
    ensures Normalize(t) == TrimTrail(TrimLead(Flat(t)))
  {
    var lines := StripEach(SplitLines(t));
    FlatIsJoin(t);
    PlainLines(t);
    TrimLeadJoin(lines);
    PlainDropLead(lines);
    TrimTrailJoin(DropLead(lines));
  }

  // ---- normalising, gap by gap

  lemma {:induction false} TrimOuter(gap: string, s: string)
    requires AllSpace(gap) && s != "" && !IsSpace(s[0])
    ensures TrimLead(Inner(gap) + s) == Outer(gap) + s
    decreases |gap|
  {
    var b := FindBreak(gap);
    if b == |gap| {
      TrimNothing(gap + s);
    } else {
      var rest := gap[BreakEnd(gap, b)..];
      TrimOuter(rest, s);
      Associative("\n", Inner(rest), s);
      TrimCons(Inner(rest) + s);
    }
  }

  lemma TrimNothing(s: string)
    requires s == "" || s[0] != '\n'
    ensures TrimLead(s) == s
  {
  }

  lemma TrimCons(s: string)
    ensures TrimLead("\n" + s) == TrimLead(s)
  {
    assert ("\n" + s)[1..] == s;
  }

  lemma {:induction false} TrimNewlines(s: string, n: nat)
    requires n <= |s| && AllNewlines(s[n..]) && (n > 0 ==> s[n - 1] != '\n')
    ensures TrimTrail(s) == s[..n]
  {
    if n < |s| {
      assert s[|s| - 1] == s[n..][|s| - n - 1];
      assert s[..|s| - 1][n..] == s[n..][..|s| - n - 1];
      TrimNewlines(s[..|s| - 1], n);
      assert s[..|s| - 1][..n] == s[..n];
    }
  }

  lemma {:induction false} NormalEnds(g: Gapped)
    requires Wf(g) && g.Tok?
    ensures var s := Text(Normal(g)); s != "" && s[0] == g.c && !IsSpace(s[|s| - 1])
  {
    if g.rest.Tok? {
      NormalEnds(g.rest);
    }
  }

  lemma NormalizeGaps(gap: string, g: Gapped)
    requires AllSpace(gap) && Wf(g)
    ensures Normalize(gap + Text(g)) == if g.End? then "" else Outer(gap) + Text(Normal(g))
  {
    NormalizeTrims(gap + Text(g));
    if g.End? {
      assert gap + Text(g) == gap;
      FlatSpaces(gap);
      TrimAll(Flat(gap));
    } else {
      FlatGap(gap, Text(g));
      FlatText(g);
      NormalEnds(g);
      TrimOuter(gap, Flat(Text(g)));
      TrimRest(Outer(gap), Flat(Text(g)), Text(Normal(g)));
    }
  }

  lemma TrimRest(front: string, flat: string, s: string)
    requires s != "" && !IsSpace(s[|s| - 1]) && Trails(s, flat)
    ensures TrimTrail(front + flat) == front + s
  {
    var all, n := front + flat, |front| + |s|;
    assert all[n - 1] == s[|s| - 1] && all[n..] == flat[|s|..] && all[..n] == front + s;
    TrimNewlines(all, n);
  }

  lemma {:induction false} TrimAll(s: string)
    requires AllNewlines(s)
    ensures TrimLead(s) == ""
  {
    if s != "" {
      TrimAll(s[1..]);
    }
  }
}
