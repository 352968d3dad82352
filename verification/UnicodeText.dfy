/** Characters written as escapes: every code point, alone or as a pair of surrogates, becomes its own UTF-8. */
module UnicodeText {
  import opened JsonSyntax
  import opened JsonReader
  import opened JsonExact
  import opened Sequences
  import opened Wrappers

  // ---- reading UTF-8

  /** n more continuation bytes, six bits each. */
  function Continued(value: nat, n: nat, s: Bytes): Option<(nat, Bytes)>
    decreases n
  {
    if n == 0 then Some((value, s))
    else if s == [] || !(0x80 <= s[0] < 0xC0) then None
    else Continued(value * 64 + (s[0] - 0x80), n - 1, s[1..])
  }

  /** The code point a text starts with and what follows it, as section 3 of RFC 3629 says, in the shortest form
      only; surrogates are let through. */
  function FirstPoint(s: Bytes): Option<(nat, Bytes)> {
    if s == [] then None
    else if s[0] < 0x80 then Some((s[0], s[1..]))
    else if 0xC0 <= s[0] < 0xE0 then AtLeast(0x80, Continued(s[0] - 0xC0, 1, s[1..]))
    else if 0xE0 <= s[0] < 0xF0 then AtLeast(0x800, Continued(s[0] - 0xE0, 2, s[1..]))
    else if 0xF0 <= s[0] < 0xF8 then AtLeast(0x10000, Continued(s[0] - 0xF0, 3, s[1..]))
    else None
  }

  function AtLeast(least: nat, r: Option<(nat, Bytes)>): Option<(nat, Bytes)> {
    if r.Some? && r.value.0 < least then None else r
  }

  lemma OneMore(value: nat, n: nat, c: nat, s: Bytes)
    requires c < 64
    ensures Continued(value, n + 1, [0x80 + c] + s) == Continued(value * 64 + c, n, s)
  {
    assert ([0x80 + c] + s)[1..] == s;
  }

  lemma SixBits(cp: nat)
    ensures cp / 4096 == cp / 64 / 64 && cp / 262144 == cp / 64 / 64 / 64
  {
  }

  /** The UTF-8 of a code point reads back as that code point. */
  lemma Utf8Reads(cp: nat, rest: Bytes)
    requires cp < 0x110000
    ensures FirstPoint(Utf8(cp) + rest) == Some((cp, rest))
  {
    var a, b, c := cp % 64, cp / 64 % 64, cp / 4096 % 64;
    SixBits(cp);
    if cp < 0x80 {
      assert (Utf8(cp) + rest)[1..] == rest;
    } else if cp < 0x800 {
      OneMore(cp / 64, 0, a, rest);
      assert (Utf8(cp) + rest)[1..] == [0x80 + a] + rest;
    } else if cp < 0x10000 {
      OneMore(cp / 64, 0, a, rest);
      OneMore(cp / 4096, 1, b, [0x80 + a] + rest);
      assert (Utf8(cp) + rest)[1..] == [0x80 + b] + ([0x80 + a] + rest);
    } else {
      OneMore(cp / 64, 0, a, rest);
      OneMore(cp / 4096, 1, b, [0x80 + a] + rest);
      OneMore(cp / 262144, 2, c, [0x80 + b] + ([0x80 + a] + rest));
      assert (Utf8(cp) + rest)[1..] == [0x80 + c] + ([0x80 + b] + ([0x80 + a] + rest));
    }
  }

  /** The code points of a whole text. */
  function Points(s: Bytes): Option<seq<nat>>
    decreases |s|
  {
    if s == [] then Some([])
    else
      var first := FirstPoint(s);
      if first.None? || |first.value.1| >= |s| then None
      else
        var rest := Points(first.value.1);
        if rest.None? then None else Some([first.value.0] + rest.value)
  }

  predicate Unicode(cps: seq<nat>) {
    forall i :: 0 <= i < |cps| ==> cps[i] < 0x110000
  }

  function Utf8All(cps: seq<nat>): Bytes
    requires Unicode(cps)
  {
    if cps == [] then [] else Utf8(cps[0]) + Utf8All(cps[1..])
  }

  lemma {:induction false} PointsRead(cps: seq<nat>)
    requires Unicode(cps)
    ensures Points(Utf8All(cps)) == Some(cps)
  {
    if cps != [] {
      Utf8Reads(cps[0], Utf8All(cps[1..]));
      PointsRead(cps[1..]);
      FirstRest(cps);
    }
  }

  // ---- writing escapes

  const SMALL_DIGITS: string := "0123456789abcdef"

  const CAPITAL_DIGITS: string := "0123456789ABCDEF"

  function Digit(v: nat, capital: bool): Byte
    requires v < 16
  {
    assert |SMALL_DIGITS| == 16 && |CAPITAL_DIGITS| == 16;
    var d := if capital then CAPITAL_DIGITS[v] else SMALL_DIGITS[v];
    assert d <= 'f';
    d as int
  }

  /** Four hexadecimal digits of a 16-bit unit, in capitals or not. */
  function UnitItem(unit: nat, capital: bool): Item
    requires unit < 0x10000
  {
    Hex([Digit(unit / 4096, capital), Digit(unit / 256 % 16, capital), Digit(unit / 16 % 16, capital),
         Digit(unit % 16, capital)])
  }

  lemma DigitReads(v: nat, capital: bool)
    requires v < 16
    ensures IsHexDigit(Digit(v, capital)) && HexDigitValue(Digit(v, capital)) == v
  {
    assert SMALL_DIGITS[v] == if v < 10 then '0' + v as char else 'a' + (v - 10) as char;
    assert CAPITAL_DIGITS[v] == if v < 10 then '0' + v as char else 'A' + (v - 10) as char;
  }

  lemma Nibbles(unit: nat)
    requires unit < 0x10000
    ensures unit == ((unit / 4096 * 16 + unit / 256 % 16) * 16 + unit / 16 % 16) * 16 + unit % 16
  {
    assert unit / 256 == unit / 16 / 16 && unit / 4096 == unit / 256 / 16;
  }

  lemma FourDigits(a: nat, b: nat, c: nat, d: nat, capital: bool)
    requires a < 16 && b < 16 && c < 16 && d < 16
    ensures var digits := [Digit(a, capital), Digit(b, capital), Digit(c, capital), Digit(d, capital)];
      WfItem(Hex(digits)) && HexValue(digits) == ((a * 16 + b) * 16 + c) * 16 + d
  {
    DigitReads(a, capital);
    DigitReads(b, capital);
    DigitReads(c, capital);
    DigitReads(d, capital);
  }

  lemma UnitReads(unit: nat, capital: bool)
    requires unit < 0x10000
    ensures WfItem(UnitItem(unit, capital)) && HexValue(UnitItem(unit, capital).digits) == unit
  {
    Nibbles(unit);
    FourDigits(unit / 4096, unit / 256 % 16, unit / 16 % 16, unit % 16, capital);
  }

  /** How a code point is written in \u escapes: as its UTF-16, by section 7 of RFC 8259. */
  function PointItems(cp: nat, capital: bool): seq<Item>
    requires cp < 0x110000
  {
    if cp < 0x10000 then [UnitItem(cp, capital)]
    else [UnitItem(0xD800 + (cp - 0x10000) / 0x400, capital), UnitItem(0xDC00 + (cp - 0x10000) % 0x400, capital)]
  }

  function AllItems(cps: seq<nat>, capital: bool): seq<Item>
    requires Unicode(cps)
  {
    if cps == [] then [] else PointItems(cps[0], capital) + AllItems(cps[1..], capital)
  }

  /** No high surrogate stands directly before a low one: those two would be another code point. */
  predicate Unpaired(cps: seq<nat>) {
    forall i :: 0 <= i < |cps| - 1 ==> !(0xD800 <= cps[i] < 0xDC00 && 0xDC00 <= cps[i + 1] < 0xE000)
  }

  lemma TwoDecode(a: Item, b: Item, more: seq<Item>)
    requires IsPair([a, b])
    ensures Decode([a, b] + more) == Utf8(Combine(HexValue(a.digits), HexValue(b.digits))) + Decode(more)
  {
    assert ([a, b] + more)[2..] == more;
  }

  lemma UnitsDecode(high: nat, low: nat, capital: bool, more: seq<Item>)
    requires IsHigh(high) && IsLow(low)
    ensures Decode([UnitItem(high, capital), UnitItem(low, capital)] + more) == Utf8(Combine(high, low)) + Decode(more)
  {
    UnitReads(high, capital);
    UnitReads(low, capital);
    TwoDecode(UnitItem(high, capital), UnitItem(low, capital), more);
  }

  lemma Surrogates(cp: nat)
    requires 0x10000 <= cp < 0x110000
    ensures var high, low := 0xD800 + (cp - 0x10000) / 0x400, 0xDC00 + (cp - 0x10000) % 0x400;
      IsHigh(high) && IsLow(low) && Combine(high, low) == cp
  {
  }

  lemma PairDecodes(cp: nat, capital: bool, more: seq<Item>)
    requires 0x10000 <= cp < 0x110000
    ensures Decode(PointItems(cp, capital) + more) == Utf8(cp) + Decode(more)
  {
    Surrogates(cp);
    UnitsDecode(0xD800 + (cp - 0x10000) / 0x400, 0xDC00 + (cp - 0x10000) % 0x400, capital, more);
  }

  lemma UnitDecodes(cp: nat, capital: bool, more: seq<Item>)
    requires cp < 0x10000
    requires more != [] && more[0].Hex? && 0xD800 <= cp < 0xDC00 ==> !(0xDC00 <= HexValue(more[0].digits) < 0xE000)
    ensures Decode(PointItems(cp, capital) + more) == Utf8(cp) + Decode(more)
  {
    var s := PointItems(cp, capital) + more;
    UnitReads(cp, capital);
    assert s[1..] == more && s[0] == UnitItem(cp, capital);
  }

  /** The first unit of a code point is a low surrogate only if the code point is one. */
  lemma PointStart(cp: nat, capital: bool)
    requires cp < 0x110000
    ensures PointItems(cp, capital)[0].Hex?
    ensures 0xDC00 <= HexValue(PointItems(cp, capital)[0].digits) < 0xE000 <==> 0xDC00 <= cp < 0xE000
  {
    if cp < 0x10000 {
      UnitReads(cp, capital);
    } else {
      UnitReads(0xD800 + (cp - 0x10000) / 0x400, capital);
    }
  }

  lemma ItemsStart(cps: seq<nat>, capital: bool)
    requires cps != [] && Unicode(cps)
    ensures AllItems(cps, capital) != [] && AllItems(cps, capital)[0] == PointItems(cps[0], capital)[0]
  {
  }

  lemma PointItemsWf(cp: nat, capital: bool)
    requires cp < 0x110000
    ensures WfItems(PointItems(cp, capital))
  {
    if cp < 0x10000 {
      UnitReads(cp, capital);
    } else {
      UnitReads(0xD800 + (cp - 0x10000) / 0x400, capital);
      UnitReads(0xDC00 + (cp - 0x10000) % 0x400, capital);
    }
  }

  /** Every sequence of escapes is such a sequence of code points, and means them one by one. */
  lemma {:induction false} EscapesDecode(cps: seq<nat>, capital: bool)
    requires Unicode(cps) && Unpaired(cps)
    ensures Decode(AllItems(cps, capital)) == Utf8All(cps)
  {
    if cps != [] {
      EscapesDecode(cps[1..], capital);
      if |cps| > 1 {
        ItemsStart(cps[1..], capital);
        PointStart(cps[1], capital);
        assert cps[1..][0] == cps[1];
      }
      if cps[0] < 0x10000 {
        UnitDecodes(cps[0], capital, AllItems(cps[1..], capital));
      } else {
        PairDecodes(cps[0], capital, AllItems(cps[1..], capital));
      }
    }
  }

  lemma {:induction false} ItemsWf(cps: seq<nat>, capital: bool)
    requires Unicode(cps)
    ensures WfItems(AllItems(cps, capital))
  {
    if cps != [] {
      ItemsWf(cps[1..], capital);
      PointItemsWf(cps[0], capital);
    }
  }

  // ---- through the reader

  function BeforeNul(cps: seq<nat>): seq<nat> {
    if cps == [] || cps[0] == 0 then [] else [cps[0]] + BeforeNul(cps[1..])
  }

  lemma {:induction false} CStrAppend(a: Bytes, b: Bytes)
    requires forall i :: 0 <= i < |a| ==> a[i] != 0
    ensures CStr(a + b) == a + CStr(b)
  {
    if a == [] {
      assert a + b == b;
    } else {
      assert (a + b)[1..] == a[1..] + b;
      CStrAppend(a[1..], b);
    }
  }

  lemma {:induction false} Utf8Cut(cps: seq<nat>)
    requires Unicode(cps)
    ensures Unicode(BeforeNul(cps)) && CStr(Utf8All(cps)) == Utf8All(BeforeNul(cps))
  {
    if cps != [] && cps[0] != 0 {
      Utf8Cut(cps[1..]);
      CStrAppend(Utf8(cps[0]), Utf8All(cps[1..]));
      assert BeforeNul(cps)[1..] == BeforeNul(cps[1..]);
    }
  }

  /** A string literal that writes code points as escapes is read as those code points in UTF-8, up to the first
      U+0000. */
  lemma EscapesRead(cps: seq<nat>, capital: bool, rest: Bytes)
    requires Unicode(cps) && Unpaired(cps)
    ensures var r := ReadString([QUOTE] + PrintItems(AllItems(cps, capital), rest));
      r.Ok? && r.rest == rest && Points(Text(r.value)) == Some(BeforeNul(cps))
  {
    ItemsWf(cps, capital);
    KeyComplete(AllItems(cps, capital), rest);
    EscapesDecode(cps, capital);
    Utf8Cut(cps);
    PointsRead(BeforeNul(cps));
  }
}
