/** Python's view of text: what counts as space, and how text is cut into lines. */
module PyText {
  /** str.isspace for one character. */
  predicate IsSpace(c: char) {
    || '\t' <= c <= '\r' || '\U{1c}' <= c <= ' ' || c == '\U{85}' || c == '\U{a0}' || c == '\U{1680}'
    || '\U{2000}' <= c <= '\U{200a}' || c == '\U{2028}' || c == '\U{2029}' || c == '\U{202f}' || c == '\U{205f}'
    || c == '\U{3000}'
  }

  /** The characters str.splitlines cuts at. */
  predicate IsBreak(c: char) {
    '\n' <= c <= '\r' || '\U{1c}' <= c <= '\U{1e}' || c == '\U{85}' || c == '\U{2028}' || c == '\U{2029}'
  }

  predicate AllSpace(t: string) {
    forall i :: 0 <= i < |t| ==> IsSpace(t[i])
  }

  predicate NoBreak(t: string) {
    forall i :: 0 <= i < |t| ==> !IsBreak(t[i])
  }

  /** Number of leading spaces. */
  function Spaces(t: string): (n: nat)
    ensures n <= |t| && AllSpace(t[..n]) && (n < |t| ==> !IsSpace(t[n]))
  {
    if t == "" || !IsSpace(t[0]) then 0
    else
      assert forall i :: 0 <= i < 1 + Spaces(t[1..]) ==>
        t[i] == if i == 0 then t[0] else t[1..][..Spaces(t[1..])][i - 1];
      1 + Spaces(t[1..])
  }

  function Rstrip(t: string): (r: string)
    ensures r <= t && AllSpace(t[|r|..]) && (r != "" ==> !IsSpace(r[|r| - 1]))
  {
    if t == "" || !IsSpace(t[|t| - 1]) then t
    else
      var r := Rstrip(t[..|t| - 1]);
      assert t[|r|..] == t[..|t| - 1][|r|..] + [t[|t| - 1]];
      r
  }

  function Strip(t: string): string {
    Rstrip(t[Spaces(t)..])
  }

  function FindBreak(t: string): (n: nat)
    ensures n <= |t| && NoBreak(t[..n]) && (n < |t| ==> IsBreak(t[n]))
  {
    if t == "" || IsBreak(t[0]) then 0 else 1 + FindBreak(t[1..])
  }

  /** A carriage return and a newline make one break. */
  function BreakEnd(t: string, b: nat): (e: nat)
    requires b < |t|
    ensures b < e <= |t|
  {
    if t[b] == '\r' && b + 1 < |t| && t[b + 1] == '\n' then b + 2 else b + 1
  }

  /** str.splitlines. */
  function SplitLines(t: string): (lines: seq<string>)
    decreases |t|
  {
    var b := FindBreak(t);
    if t == "" then []
    else if b == |t| then [t]
    else [t[..b]] + SplitLines(t[BreakEnd(t, b)..])
  }

  /** "\n".join. */
  function Join(lines: seq<string>): string {
    if lines == [] then ""
    else if |lines| == 1 then lines[0]
    else lines[0] + ("\n" + Join(lines[1..]))
  }
}
