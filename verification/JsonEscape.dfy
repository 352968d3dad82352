/** The string writer of the parts-supplier client, and that the reader undoes it. */
module JsonEscape {
  import opened JsonSyntax
  import opened JsonReader
  import opened JsonExact
  import opened Sequences
  import opened Wrappers

  predicate NulFree(s: Bytes) {
    forall i :: 0 <= i < |s| ==> s[i] != 0
  }

  /** Lower-case hexadecimal digit, as printf %x writes it. */
  function HexDigit(v: nat): Byte
    requires v < 16
  {
    if v < 10 then 48 + v else 87 + v
  }

  /** How json_escape writes one character. */
  function EscapedItem(c: Byte): (i: Item)
    ensures WfItem(i)
  {
    if c == QUOTE || c == BACKSLASH then Escape(c)
    else if c == 10 then Escape(110)
    else if c == 13 then Escape(114)
    else if c == 9 then Escape(116)
    else if c < 32 then Hex([48, 48, HexDigit(c / 16), HexDigit(c % 16)])
    else Raw(c)
  }

  function EscapedItems(s: Bytes): (r: seq<Item>)
    ensures WfItems(r)
  {
    if s == [] then [] else [EscapedItem(s[0])] + EscapedItems(s[1..])
  }

  /** The text between the quotes. */
  function Escaped(s: Bytes): Bytes {
    if s == [] then [] else PrintItem(EscapedItem(s[0])) + Escaped(s[1..])
  }

  /** json_escape. */
  method JsonEscape(text: Bytes) returns (out: Bytes)
    requires NulFree(text)
    ensures out == Escaped(text)
  {
    out := [];
    var p := 0;
    while p < |text|
      invariant p <= |text| && out + Escaped(text[p..]) == Escaped(text)
    {
      var c := text[p];
      ghost var piece := PrintItem(EscapedItem(c));
      assert text[p..][1..] == text[p + 1..];
      Associative(out, piece, Escaped(text[p + 1..]));
      if c == QUOTE {
        out := out + [BACKSLASH, QUOTE];
      } else if c == BACKSLASH {
        out := out + [BACKSLASH, BACKSLASH];
      } else if c == 10 {
        out := out + [BACKSLASH, 110];
      } else if c == 13 {
        out := out + [BACKSLASH, 114];
      } else if c == 9 {
        out := out + [BACKSLASH, 116];
      } else if c < 32 {
        var digits: Bytes := [48, 48, HexDigit(c / 16), HexDigit(c % 16)];
        out := out + ([BACKSLASH, 117] + digits);
      } else {
        out := out + [c];
      }
      p := p + 1;
    }
    assert out + [] == out;
  }

  lemma {:induction false} EscapedPrinted(s: Bytes, rest: Bytes)
    ensures Escaped(s) + ([QUOTE] + rest) == PrintItems(EscapedItems(s), rest)
  {
    if s != [] {
      EscapedPrinted(s[1..], rest);
      assert EscapedItems(s)[1..] == EscapedItems(s[1..]);
      Associative(PrintItem(EscapedItem(s[0])), Escaped(s[1..]), [QUOTE] + rest);
    } else {
      assert [] + ([QUOTE] + rest) == [QUOTE] + rest;
    }
  }

  lemma EscapedMeaning(c: Byte)
    requires c != 0
    ensures DecodeItem(EscapedItem(c)) == [c]
    ensures EscapedItem(c).Hex? ==> HexValue(EscapedItem(c).digits) == c
  {
  }

  lemma {:induction false} EscapedDecoded(s: Bytes)
    requires NulFree(s)
    ensures Decode(EscapedItems(s)) == s && CStr(s) == s
  {
    if s != [] {
      EscapedDecoded(s[1..]);
      EscapedMeaning(s[0]);
      assert EscapedItems(s)[1..] == EscapedItems(s[1..]);
      assert s == [s[0]] + s[1..];
    }
  }

  /** Reading a quoted escaped string gives the string back and stops just past the closing quote. */
  lemma EscapeRoundTrip(s: Bytes, rest: Bytes)
    requires NulFree(s)
    ensures var r := ReadString([QUOTE] + (Escaped(s) + ([QUOTE] + rest)));
      r.Ok? && Text(r.value) == s && r.rest == rest
  {
    EscapedPrinted(s, rest);
    EscapedDecoded(s);
    KeyComplete(EscapedItems(s), rest);
  }

  // ---- the variables of a part query: an object with three string members

  /** s between quotes, then the rest. */
  function Quote(s: Bytes, rest: Bytes): Bytes {
    [QUOTE] + (s + ([QUOTE] + rest))
  }

  function Entry(key: Bytes, value: Bytes, rest: Bytes): Bytes {
    Quote(key, [COLON] + Quote(value, rest))
  }

  /** The text octopart_lookup formats: three keys with the values already escaped. */
  function Variables(q: Bytes, a: Bytes, country: Bytes, b: Bytes, currency: Bytes, c: Bytes): Bytes {
    [LBRACE] + Entry(q, a, [COMMA] + Entry(country, b, [COMMA] + Entry(currency, c, [RBRACE])))
  }

  /** "q", "country", "currency" */
  const Q: Bytes := [113]

  const COUNTRY: Bytes := [99, 111, 117, 110, 116, 114, 121]

  const CURRENCY: Bytes := [99, 117, 114, 114, 101, 110, 99, 121]

  method QueryVariables(mpn: Bytes, country: Bytes, currency: Bytes) returns (variables: Bytes)
    requires NulFree(mpn) && NulFree(country) && NulFree(currency)
    ensures variables == Variables(Q, Escaped(mpn), COUNTRY, Escaped(country), CURRENCY, Escaped(currency))
  {
    var q := JsonEscape(mpn);
    var c := JsonEscape(country);
    var u := JsonEscape(currency);
    variables := Variables(Q, q, COUNTRY, c, CURRENCY, u);
  }

  /** Lower-case letters only: nothing to escape. */
  predicate Plain(s: Bytes) {
    forall i :: 0 <= i < |s| ==> 97 <= s[i] <= 122
  }

  lemma {:induction false} PlainEscaped(s: Bytes)
    requires Plain(s)
    ensures Escaped(s) == s && NulFree(s)
  {
    if s != [] {
      PlainEscaped(s[1..]);
      assert s == [s[0]] + s[1..];
    }
  }

  function QueryMember(key: Bytes, value: Bytes): Member {
    Member([], EscapedItems(key), [], Tree([], Str(EscapedItems(value))), [])
  }

  function ThreeMembers(q: Bytes, a: Bytes, country: Bytes, b: Bytes, currency: Bytes, c: Bytes): Members {
    MoreMembers(QueryMember(q, a), MoreMembers(QueryMember(country, b), LastMember(QueryMember(currency, c))))
  }

  lemma NothingBefore(s: Bytes)
    ensures [] + s == s && s + [] == s
  {
  }

  lemma EntryPrinted(key: Bytes, value: Bytes, rest: Bytes)
    requires Plain(key)
    ensures Entry(key, Escaped(value), rest) == PrintMember(QueryMember(key, value), rest)
  {
    var t := Tree([], Str(EscapedItems(value)));
    var v := [QUOTE] + PrintItems(EscapedItems(value), rest);
    PlainEscaped(key);
    EscapedPrinted(value, rest);
    EscapedPrinted(key, [COLON] + v);
    NothingBefore(rest);
    NothingBefore(v);
    assert PrintTree(t, [] + rest) == v;
    NothingBefore([COLON] + v);
    NothingBefore([QUOTE] + PrintItems(EscapedItems(key), [COLON] + v));
  }

  lemma ThreePrinted(q: Bytes, a: Bytes, country: Bytes, b: Bytes, currency: Bytes, c: Bytes)
    requires Plain(q) && Plain(country) && Plain(currency)
    ensures Variables(q, Escaped(a), country, Escaped(b), currency, Escaped(c)) ==
      [LBRACE] + PrintMembers(ThreeMembers(q, a, country, b, currency, c), [])
  {
    NothingBefore([RBRACE]);
    EntryPrinted(currency, c, [RBRACE]);
    var third := PrintMembers(LastMember(QueryMember(currency, c)), []);
    EntryPrinted(country, b, [COMMA] + third);
    var second := PrintMembers(MoreMembers(QueryMember(country, b), LastMember(QueryMember(currency, c))), []);
    EntryPrinted(q, a, [COMMA] + second);
  }

  lemma MemberMeaning(key: Bytes, value: Bytes)
    requires Plain(key) && NulFree(value)
    ensures Text(QueryMember(key, value).key) == key && Meaning(QueryMember(key, value).t.v) == JString(value)
  {
    PlainEscaped(key);
    EscapedDecoded(key);
    EscapedDecoded(value);
  }

  lemma ThreeMeaning(q: Bytes, a: Bytes, country: Bytes, b: Bytes, currency: Bytes, c: Bytes)
    requires Plain(q) && NulFree(a) && Plain(country) && NulFree(b) && Plain(currency) && NulFree(c)
    requires q != country && q != currency && country != currency
    ensures MembersMeaning(ThreeMembers(q, a, country, b, currency, c)) ==
      map[q := JString(a), country := JString(b), currency := JString(c)]
  {
    MemberMeaning(q, a);
    MemberMeaning(country, b);
    MemberMeaning(currency, c);
    var last := LastMember(QueryMember(currency, c));
    assert MembersMeaning(last) == map[currency := JString(c)];
    assert MembersMeaning(MoreMembers(QueryMember(country, b), last)) ==
      map[country := JString(b)] + map[currency := JString(c)];
    ThreeKeys(q, JString(a), country, JString(b), currency, JString(c));
  }

  lemma ThreeKeys<V>(q: Bytes, a: V, country: Bytes, b: V, currency: Bytes, c: V)
    requires q != country && q != currency && country != currency
    ensures map[q := a] + (map[country := b] + map[currency := c]) == map[q := a, country := b, currency := c]
  {
  }

  /** The variables text is a printed tree that means the three strings, whatever they are. */
  lemma VariablesPrinted(accepts: Bytes -> bool, q: Bytes, a: Bytes, country: Bytes, b: Bytes, currency: Bytes,
                         c: Bytes)
    requires Plain(q) && NulFree(a) && Plain(country) && NulFree(b) && Plain(currency) && NulFree(c)
    requires q != country && q != currency && country != currency
    ensures var d := ObjectDocument(ThreeMembers(q, a, country, b, currency, c));
      && PrintDocument(d) == Variables(q, Escaped(a), country, Escaped(b), currency, Escaped(c))
      && WfDocument(accepts, d) && Fits(d.t.v, 0)
      && Meaning(d.t.v) == JObject(map[q := JString(a), country := JString(b), currency := JString(c)])
  {
    ThreePrinted(q, a, country, b, currency, c);
    ThreeMeaning(q, a, country, b, currency, c);
    ThreeFit(accepts, q, a, country, b, currency, c);
    ObjectPrinted(accepts, ThreeMembers(q, a, country, b, currency, c));
  }

  function ObjectDocument(ms: Members): Document {
    Document(Tree([], Obj(ms)), [])
  }

  lemma ObjectPrinted(accepts: Bytes -> bool, ms: Members)
    requires WfMembers(accepts, ms) && FitsMembers(ms, 1)
    ensures var d := ObjectDocument(ms);
      && PrintDocument(d) == [LBRACE] + PrintMembers(ms, [])
      && WfDocument(accepts, d) && Fits(d.t.v, 0) && Meaning(d.t.v) == JObject(MembersMeaning(ms))
  {
    NothingBefore([LBRACE] + PrintMembers(ms, []));
    assert PrintValue(Obj(ms), []) == [LBRACE] + PrintMembers(ms, []);
    assert WfValue(accepts, Obj(ms));
    assert WfTree(accepts, ObjectDocument(ms).t) && Fits(Obj(ms), 0);
  }

  /** Parsing the variables text gives back the three strings. */
  lemma VariablesRoundTrip(accepts: Bytes -> bool, text: Bytes,
                           q: Bytes, a: Bytes, country: Bytes, b: Bytes, currency: Bytes, c: Bytes)
    requires Plain(q) && NulFree(a) && Plain(country) && NulFree(b) && Plain(currency) && NulFree(c)
    requires q != country && q != currency && country != currency
    requires text == Variables(q, Escaped(a), country, Escaped(b), currency, Escaped(c))
    ensures var d := ReadDocument(accepts, text);
      d.Some? && Meaning(d.value.t.v) == JObject(map[q := JString(a), country := JString(b), currency := JString(c)])
  {
    VariablesPrinted(accepts, q, a, country, b, currency, c);
    ReadPrinted(accepts, text, ObjectDocument(ThreeMembers(q, a, country, b, currency, c)));
  }

  lemma ReadPrinted(accepts: Bytes -> bool, text: Bytes, d: Document)
    requires text == PrintDocument(d) && WfDocument(accepts, d) && Fits(d.t.v, 0)
    ensures ReadDocument(accepts, text) == Some(d)
  {
    ReadExactly(accepts, text, d);
  }

  lemma MemberFits(accepts: Bytes -> bool, key: Bytes, value: Bytes)
    ensures var m := QueryMember(key, value); WfMember(accepts, m) && Fits(m.t.v, 1)
  {
    assert WfValue(accepts, Str(EscapedItems(value)));
    assert WfTree(accepts, Tree([], Str(EscapedItems(value))));
  }

  lemma ThreeFit(accepts: Bytes -> bool, q: Bytes, a: Bytes, country: Bytes, b: Bytes, currency: Bytes, c: Bytes)
    ensures var ms := ThreeMembers(q, a, country, b, currency, c); WfMembers(accepts, ms) && FitsMembers(ms, 1)
  {
    MemberFits(accepts, q, a);
    MemberFits(accepts, country, b);
    MemberFits(accepts, currency, c);
    var last := LastMember(QueryMember(currency, c));
    assert WfMembers(accepts, last) && FitsMembers(last, 1);
    var two := MoreMembers(QueryMember(country, b), last);
    assert WfMembers(accepts, two) && FitsMembers(two, 1);
  }

  /** The keys the client uses meet the conditions of the round trip. */
  lemma QueryKeys()
    ensures Plain(Q) && Plain(COUNTRY) && Plain(CURRENCY)
    ensures Q != COUNTRY && Q != CURRENCY && COUNTRY != CURRENCY
  {
    assert |Q| == 1 && |COUNTRY| == 7 && |CURRENCY| == 8;
  }
}
