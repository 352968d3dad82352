/** The text of actions.c and actions.h as lines, each ended by a newline, and the patterns the checks look for. */
module ActionText {
  import opened Wrappers
  import opened PyText
  import opened VoidCalls

  type Lines = seq<string>

  const DEF_PREFIX: string := "action_callback_"

  const DEF_SUFFIX: string := " (GschemAction *action,"

  const ROW_SUFFIX: string := ", &action_"

  const PARAMS: string := "GschemToplevel *w_current)"

  /** str.split("\n"). */
  function NlSplit(t: string): (lines: Lines)
    ensures lines != [] && |lines| <= |t| + 1
  {
    if t == "" then [""]
    else if t[0] == '\n' then [""] + NlSplit(t[1..])
    else
      var rest := NlSplit(t[1..]);
      [[t[0]] + rest[0]] + rest[1..]
  }

  lemma {:induction false} JoinSplit(t: string)
    ensures Join(NlSplit(t)) == t
  {
    if t != "" {
      var rest := NlSplit(t[1..]);
      JoinSplit(t[1..]);
      if t[0] == '\n' {
        assert NlSplit(t)[1..] == rest;
      } else {
        assert NlSplit(t)[1..] == rest[1..];
      }
    }
  }

  /** Length of the run of word characters. */
  function WordRun(t: string, wide: char -> bool): (n: nat)
    ensures n <= |t|
  {
    if t == "" || !IsWord(t[0], wide) then 0 else 1 + WordRun(t[1..], wide)
  }

  predicate IsCid(cid: string, wide: char -> bool) {
    cid != "" && forall i :: 0 <= i < |cid| ==> IsWord(cid[i], wide)
  }

  lemma {:induction false} WordRunCid(cid: string, k: string, wide: char -> bool)
    requires IsCid(cid, wide) && (k == "" || !IsWord(k[0], wide))
    ensures WordRun(cid + k, wide) == |cid| && (cid + k)[..|cid|] == cid && (cid + k)[|cid|..] == k
  {
    assert (cid + k)[1..] == cid[1..] + k;
    if |cid| > 1 {
      WordRunCid(cid[1..], k, wide);
    } else {
      assert cid[1..] + k == k;
    }
  }

  /** A name between a prefix and a suffix at the start of a line, and what stands after the suffix. */
  function Named(line: string, prefix: string, suffix: string, wide: char -> bool): Option<(string, string)> {
    if !(prefix <= line) then None
    else
      var t := line[|prefix|..];
      var n := WordRun(t, wide);
      if n > 0 && suffix <= t[n..] then Some((t[..n], t[n + |suffix|..])) else None
  }

  lemma NamedIs(prefix: string, cid: string, suffix: string, after: string, wide: char -> bool)
    requires IsCid(cid, wide) && suffix != "" && !IsWord(suffix[0], wide)
    ensures Named(prefix + (cid + (suffix + after)), prefix, suffix, wide) == Some((cid, after))
  {
    var line := prefix + (cid + (suffix + after));
    assert line[|prefix|..] == cid + (suffix + after);
    WordRunCid(cid, suffix + after, wide);
    assert (cid + (suffix + after))[|cid| + |suffix|..] == after;
  }

  /** The callback a line starts to define. */
  function DefName(line: string, wide: char -> bool): Option<string> {
    var m := Named(line, DEF_PREFIX, DEF_SUFFIX, wide);
    if m.None? then None else Some(m.value.0)
  }

  function DefLine(cid: string): string {
    DEF_PREFIX + (cid + (DEF_SUFFIX + ""))
  }

  lemma DefLineName(cid: string, wide: char -> bool)
    requires IsCid(cid, wide)
    ensures Named(DefLine(cid), DEF_PREFIX, DEF_SUFFIX, wide) == Some((cid, ""))
  {
    NamedIs(DEF_PREFIX, cid, DEF_SUFFIX, "", wide);
  }

  // ---- rows of the table

  /** The end of a table row: what stands after it. */
  function RowMark(t: string, wide: char -> bool): (after: Option<string>)
    ensures after.Some? ==> |after.value| < |t|
  {
    var m := Named(t, DEF_PREFIX, ROW_SUFFIX, wide);
    if m.None? then None
    else
      var n := WordRun(m.value.1, wide);
      if n > 0 && " }," <= m.value.1[n..] then Some(m.value.1[n + 3..]) else None
  }

  /** How often a line has the pattern of a row's end. */
  function MarksIn(t: string, wide: char -> bool): nat
    decreases |t|
  {
    if t == "" then 0
    else
      var after := RowMark(t, wide);
      if after.Some? then 1 + MarksIn(after.value, wide) else MarksIn(t[1..], wide)
  }

  function Marks(lines: Lines, wide: char -> bool): nat {
    if lines == [] then 0 else MarksIn(lines[0], wide) + Marks(lines[1..], wide)
  }

  lemma {:induction false} MarksAppend(a: Lines, b: Lines, wide: char -> bool)
    ensures Marks(a + b, wide) == Marks(a, wide) + Marks(b, wide)
  {
    if a == [] {
      assert a + b == b;
    } else {
      assert (a + b)[1..] == a[1..] + b;
      MarksAppend(a[1..], b, wide);
    }
  }

  function RowTail(cid: string): string {
    DEF_PREFIX + (cid + (ROW_SUFFIX + (cid + " },")))
  }

  /** The last line of a table row. */
  function RowEnd(cid: string): string {
    "    " + RowTail(cid)
  }

  lemma RowTailMark(cid: string, wide: char -> bool)
    requires IsCid(cid, wide)
    ensures RowMark(RowTail(cid), wide) == Some("") && RowTail(cid) != ""
  {
    NamedIs(DEF_PREFIX, cid, ROW_SUFFIX, cid + " },", wide);
    WordRunCid(cid, " },", wide);
    assert (cid + " },")[|cid| + 3..] == "";
  }

  lemma RowEndMarks(cid: string, wide: char -> bool)
    requires IsCid(cid, wide)
    ensures MarksIn(RowEnd(cid), wide) == 1 && DefName(RowEnd(cid), wide).None?
  {
    RowTailMark(cid, wide);
    Indent(RowTail(cid), 4, wide);
    assert "    " == seq(4, i => ' ');
  }

  lemma {:induction false} Indent(t: string, n: nat, wide: char -> bool)
    ensures MarksIn(seq(n, i => ' ') + t, wide) == MarksIn(t, wide)
    ensures n > 0 ==> DefName(seq(n, i => ' ') + t, wide).None?
  {
    var u := seq(n, i => ' ') + t;
    if n == 0 {
      assert u == t;
    } else {
      assert u[1..] == seq(n - 1, i => ' ') + t;
      Indent(t, n - 1, wide);
      assert u[0] == ' ' && DEF_PREFIX[0] == 'a';
    }
  }

  /** No line starts a definition. */
  ghost predicate Quiet(lines: Lines, wide: char -> bool) {
    forall i :: 0 <= i < |lines| ==> DefName(lines[i], wide).None?
  }
}
