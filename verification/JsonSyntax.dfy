/** JSON texts: concrete syntax trees, their printed form, and the values they mean. */
module JsonSyntax {
  type Byte = b: int | 0 <= b < 256

  type Bytes = seq<Byte>

  const MAX_DEPTH := 256

  const QUOTE: Byte := 34

  const BACKSLASH: Byte := 92

  const COMMA: Byte := 44

  const COLON: Byte := 58

  const LBRACKET: Byte := 91

  const RBRACKET: Byte := 93

  const LBRACE: Byte := 123

  const RBRACE: Byte := 125

  const TRUE: Bytes := [116, 114, 117, 101]

  const FALSE: Bytes := [102, 97, 108, 115, 101]

  const NULL: Bytes := [110, 117, 108, 108]

  const NAN: Bytes := [78, 97, 78]

  const INFINITY: Bytes := [73, 110, 102, 105, 110, 105, 116, 121]

  const MINUS_INFINITY: Bytes := [45] + INFINITY

  /** Values the reader builds. A number keeps its text; what floating-point value the text has is
      the decoder's business. Strings and keys are C strings: they end before their first NUL. */
  datatype Json =
    | JNull
    | JBool(b: bool)
    | JNaN
    | JInfinity(negative: bool)
    | JNumber(text: Bytes)
    | JString(s: Bytes)
    | JArray(items: seq<Json>)
    | JObject(members: map<Bytes, Json>)

  datatype Literal = True | False | Null

  /** A character of a string literal, as written. */
  datatype Item = Raw(c: Byte) | Escape(c: Byte) | Hex(digits: Bytes)

  datatype Value =
    | Lit(lit: Literal)
    | Num(lexeme: Bytes)
    | Str(items: seq<Item>)
    | EmptyArr(space: Bytes)
    | Arr(elems: Elems)
    | EmptyObj(space: Bytes)
    | Obj(members: Members)

  /** A value with the white space in front of it. */
  datatype Tree = Tree(before: Bytes, v: Value)

  datatype Elems =
    | LastElem(t: Tree, after: Bytes)
    | MoreElems(t: Tree, after: Bytes, rest: Elems)

  datatype Member = Member(before: Bytes, key: seq<Item>, beforeColon: Bytes, t: Tree, after: Bytes)

  datatype Members = LastMember(m: Member) | MoreMembers(m: Member, rest: Members)

  datatype Document = Document(t: Tree, after: Bytes)

  // ---- well-formedness

  predicate IsSpace(c: Byte) {
    c == 32 || c == 9 || c == 10 || c == 13
  }

  predicate Blank(s: Bytes) {
    forall i :: 0 <= i < |s| ==> IsSpace(s[i])
  }

  predicate IsHexDigit(c: Byte) {
    48 <= c <= 57 || 97 <= c <= 102 || 65 <= c <= 70
  }

  /** The letters after a backslash that stand for one character: " \ / b f n r t */
  predicate IsSimpleEscape(c: Byte) {
    c == QUOTE || c == BACKSLASH || c == 47 || c == 98 || c == 102 || c == 110 || c == 114 || c == 116
  }

  predicate WfItem(i: Item) {
    match i
    case Raw(c) => c != QUOTE && c != BACKSLASH
    case Escape(c) => IsSimpleEscape(c)
    case Hex(d) => |d| == 4 && IsHexDigit(d[0]) && IsHexDigit(d[1]) && IsHexDigit(d[2]) && IsHexDigit(d[3])
  }

  predicate WfItems(s: seq<Item>) {
    forall i :: 0 <= i < |s| ==> WfItem(s[i])
  }

  /** Characters a number run is made of: digits - + . e E n N i I f F a A t T y */
  predicate IsNumberChar(c: Byte) {
    || 48 <= c <= 57 || c == 45 || c == 43 || c == 46 || c == 101 || c == 69 || c == 110 || c == 78
    || c == 105 || c == 73 || c == 102 || c == 70 || c == 97 || c == 65 || c == 116 || c == 84 || c == 121
  }

  predicate AllNumberChars(s: Bytes) {
    forall i :: 0 <= i < |s| ==> IsNumberChar(s[i])
  }

  /** A number is one of the three named values or a run of number characters that the decoder
      (`accepts`: g_ascii_strtod uses up the whole text) takes and no earlier rule claims. */
  predicate WfNumber(accepts: Bytes -> bool, s: Bytes) {
    s == NAN || s == INFINITY || s == MINUS_INFINITY || (
      && s != [] && AllNumberChars(s) && accepts(s)
      && s[0] != 116 && s[0] != 102 && s[0] != 110
      && !(NAN <= s) && !(INFINITY <= s) && !(MINUS_INFINITY <= s))
  }

  predicate WfValue(accepts: Bytes -> bool, v: Value) {
    match v
    case Lit(_) => true
    case Num(s) => WfNumber(accepts, s)
    case Str(items) => WfItems(items)
    case EmptyArr(space) => Blank(space)
    case Arr(es) => WfElems(accepts, es)
    case EmptyObj(space) => Blank(space)
    case Obj(ms) => WfMembers(accepts, ms)
  }

  predicate WfTree(accepts: Bytes -> bool, t: Tree) {
    Blank(t.before) && WfValue(accepts, t.v)
  }

  predicate WfElems(accepts: Bytes -> bool, es: Elems) {
    WfTree(accepts, es.t) && Blank(es.after) && (es.MoreElems? ==> WfElems(accepts, es.rest))
  }

  predicate WfMember(accepts: Bytes -> bool, m: Member) {
    Blank(m.before) && WfItems(m.key) && Blank(m.beforeColon) && WfTree(accepts, m.t) && Blank(m.after)
  }

  predicate WfMembers(accepts: Bytes -> bool, ms: Members) {
    WfMember(accepts, ms.m) && (ms.MoreMembers? ==> WfMembers(accepts, ms.rest))
  }

  predicate WfDocument(accepts: Bytes -> bool, d: Document) {
    WfTree(accepts, d.t) && Blank(d.after)
  }

  // ---- nesting

  /** v, with `depth` containers around it, and everything inside it has fewer than 256 enclosing containers. */
  predicate Fits(v: Value, depth: nat) {
    depth < MAX_DEPTH && (
      match v
      case Arr(es) => FitsElems(es, depth + 1)
      case Obj(ms) => FitsMembers(ms, depth + 1)
      case _ => true)
  }

  predicate FitsElems(es: Elems, depth: nat) {
    Fits(es.t.v, depth) && (es.MoreElems? ==> FitsElems(es.rest, depth))
  }

  predicate FitsMembers(ms: Members, depth: nat) {
    Fits(ms.m.t.v, depth) && (ms.MoreMembers? ==> FitsMembers(ms.rest, depth))
  }

  // ---- printing: each function gives the written form followed by `rest`

  function PrintLiteral(l: Literal): Bytes {
    match l
    case True => TRUE
    case False => FALSE
    case Null => NULL
  }

  function PrintItem(i: Item): Bytes {
    match i
    case Raw(c) => [c]
    case Escape(c) => [BACKSLASH, c]
    case Hex(d) => [BACKSLASH, 117] + d
  }

  /** The characters, the closing quote, the rest. */
  function PrintItems(s: seq<Item>, rest: Bytes): Bytes {
    if s == [] then [QUOTE] + rest else PrintItem(s[0]) + PrintItems(s[1..], rest)
  }

  function PrintValue(v: Value, rest: Bytes): Bytes {
    match v
    case Lit(l) => PrintLiteral(l) + rest
    case Num(s) => s + rest
    case Str(items) => [QUOTE] + PrintItems(items, rest)
    case EmptyArr(space) => [LBRACKET] + (space + ([RBRACKET] + rest))
    case Arr(es) => [LBRACKET] + PrintElems(es, rest)
    case EmptyObj(space) => [LBRACE] + (space + ([RBRACE] + rest))
    case Obj(ms) => [LBRACE] + PrintMembers(ms, rest)
  }

  function PrintTree(t: Tree, rest: Bytes): Bytes {
    t.before + PrintValue(t.v, rest)
  }

  /** The elements, the closing bracket, the rest. */
  function PrintElems(es: Elems, rest: Bytes): Bytes {
    match es
    case LastElem(t, after) => PrintTree(t, after + ([RBRACKET] + rest))
    case MoreElems(t, after, more) => PrintTree(t, after + ([COMMA] + PrintElems(more, rest)))
  }

  function PrintMember(m: Member, rest: Bytes): Bytes {
    m.before + ([QUOTE] + PrintItems(m.key, m.beforeColon + ([COLON] + PrintTree(m.t, m.after + rest))))
  }

  function PrintMembers(ms: Members, rest: Bytes): Bytes {
    match ms
    case LastMember(m) => PrintMember(m, [RBRACE] + rest)
    case MoreMembers(m, more) => PrintMember(m, [COMMA] + PrintMembers(more, rest))
  }

  function PrintDocument(d: Document): Bytes {
    PrintTree(d.t, d.after)
  }

  // ---- meaning

  function HexDigitValue(c: Byte): (v: nat)
    ensures v < 16
  {
    if 48 <= c <= 57 then c - 48 else if 65 <= c <= 70 then c - 55 else if 97 <= c <= 102 then c - 87 else 0
  }

  function HexValue(d: Bytes): (v: nat)
    ensures v < 0x10000
  {
    if |d| != 4 then 0
    else ((HexDigitValue(d[0]) * 16 + HexDigitValue(d[1])) * 16 + HexDigitValue(d[2])) * 16 + HexDigitValue(d[3])
  }

  predicate IsHigh(cp: nat) {
    0xD800 <= cp <= 0xDBFF
  }

  predicate IsLow(cp: nat) {
    0xDC00 <= cp <= 0xDFFF
  }

  function Combine(high: nat, low: nat): nat
    requires IsHigh(high) && IsLow(low)
  {
    0x10000 + (high - 0xD800) * 1024 + (low - 0xDC00)
  }

  /** g_unichar_to_utf8; lone surrogates are encoded like any other code point. */
  function Utf8(cp: nat): Bytes
    requires cp < 0x110000
  {
    if cp < 0x80 then [cp]
    else if cp < 0x800 then [0xC0 + cp / 64, 0x80 + cp % 64]
    else if cp < 0x10000 then [0xE0 + cp / 4096, 0x80 + cp / 64 % 64, 0x80 + cp % 64]
    else [0xF0 + cp / 262144, 0x80 + cp / 4096 % 64, 0x80 + cp / 64 % 64, 0x80 + cp % 64]
  }

  function EscapeValue(c: Byte): Byte
  {
    if c == 98 then 8 else if c == 102 then 12 else if c == 110 then 10
    else if c == 114 then 13 else if c == 116 then 9 else c
  }

  function DecodeItem(i: Item): Bytes
  {
    match i
    case Raw(c) => [c]
    case Escape(c) => [EscapeValue(c)]
    case Hex(d) => Utf8(HexValue(d))
  }

  predicate IsPair(s: seq<Item>)
  {
    |s| >= 2 && s[0].Hex? && s[1].Hex? && IsHigh(HexValue(s[0].digits)) && IsLow(HexValue(s[1].digits))
  }

  /** A high surrogate directly followed by a low one is a single code point. */
  function Decode(s: seq<Item>): Bytes
  {
    if s == [] then []
    else if IsPair(s) then Utf8(Combine(HexValue(s[0].digits), HexValue(s[1].digits))) + Decode(s[2..])
    else DecodeItem(s[0]) + Decode(s[1..])
  }

  /** What a C reader sees of a buffer: the bytes before the first NUL. */
  function CStr(s: Bytes): Bytes {
    if s == [] || s[0] == 0 then [] else [s[0]] + CStr(s[1..])
  }

  function Text(s: seq<Item>): Bytes
  {
    CStr(Decode(s))
  }

  function NumberMeaning(s: Bytes): Json {
    if s == NAN then JNaN
    else if s == INFINITY then JInfinity(false)
    else if s == MINUS_INFINITY then JInfinity(true)
    else JNumber(s)
  }

  function Meaning(v: Value): Json
  {
    match v
    case Lit(True) => JBool(true)
    case Lit(False) => JBool(false)
    case Lit(Null) => JNull
    case Num(s) => NumberMeaning(s)
    case Str(items) => JString(Text(items))
    case EmptyArr(_) => JArray([])
    case Arr(es) => JArray(ElemsMeaning(es))
    case EmptyObj(_) => JObject(map[])
    case Obj(ms) => JObject(MembersMeaning(ms))
  }

  function ElemsMeaning(es: Elems): seq<Json>
  {
    [Meaning(es.t.v)] + if es.MoreElems? then ElemsMeaning(es.rest) else []
  }

  /** A later member with the same key replaces an earlier one. */
  function MembersMeaning(ms: Members): map<Bytes, Json>
  {
    map[Text(ms.m.key) := Meaning(ms.m.t.v)] +
      if ms.MoreMembers? then MembersMeaning(ms.rest) else map[]
  }
}
