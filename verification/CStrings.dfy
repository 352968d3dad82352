/** C strings as the list code sees them: the bytes before the terminating NUL, as signed chars. */
module CStrings {

  type CChar = c: int | -128 <= c < 128 && c != 0 witness 1

  type CString = seq<CChar>

  /** A text of the C source: ASCII characters other than NUL. */
  predicate IsAscii(t: string) {
    forall i :: 0 <= i < |t| ==> '\0' < t[i] < '\U{80}'
  }

  function CText(t: string): CString
    requires IsAscii(t)
  {
    seq(|t|, i requires 0 <= i < |t| => t[i] as int)
  }

  predicate IsDigit(c: int) {
    48 <= c <= 57
  }

  /** tolower in the C locale. */
  function ToLower(c: int): int {
    if 65 <= c <= 90 then c + 32 else c
  }

  function Sign(x: int): int {
    if x < 0 then -1 else if x > 0 then 1 else 0
  }

  /** Length of the run of digits that s starts with. */
  function RunLength(s: CString): (n: nat)
    ensures n <= |s|
    ensures forall k :: 0 <= k < n ==> IsDigit(s[k])
    ensures n < |s| ==> !IsDigit(s[n])
  {
    if s == [] || !IsDigit(s[0]) then 0 else 1 + RunLength(s[1..])
  }

  /** Decimal value of a sequence of digits. */
  function DecimalValue(s: CString): int {
    if s == [] then 0
    else
      var last: int := s[|s| - 1];
      DecimalValue(s[..|s| - 1]) * 10 + (last - 48)
  }

  /** atoi on a string that starts with a digit, over unbounded integers. */
  function Atoi(s: CString): int {
    DecimalValue(s[..RunLength(s)])
  }
}
