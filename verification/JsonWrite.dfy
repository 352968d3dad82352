/** JSON values written out and read back, and the reader's tables of characters. */
module JsonWrite {
  import opened JsonSyntax
  import opened JsonReader
  import opened JsonExact
  import opened JsonEscape
  import opened Sequences
  import opened Wrappers

  /** Characters below 256 as bytes. */
  function Ascii(t: string): Bytes {
    seq(|t|, i requires 0 <= i < |t| => t[i] as int % 256)
  }

  // ---- characters

  /** The escapes of section 7 of RFC 8259, in the order " \ / b f n r t. */
  lemma EscapeTable(i: nat)
    requires i < 8
    ensures var letters: Bytes := Ascii("\"\\/bfnrt");
      IsSimpleEscape(letters[i]) && [EscapeValue(letters[i])] == Ascii("\"\\/\U{08}\U{0C}\n\r\t")[i..i + 1]
  {
    var letters, values := Ascii("\"\\/bfnrt"), Ascii("\"\\/\U{08}\U{0C}\n\r\t");
    assert letters == [34, 92, 47, 98, 102, 110, 114, 116];
    assert values == [34, 92, 47, 8, 12, 10, 13, 9];
    assert values[i..i + 1] == [values[i]];
  }

  /** No other letters are escapes of one character, and these are the blanks, the digits of code units and the
      characters of numbers. */
  lemma CharacterTables(c: Byte)
    ensures IsSimpleEscape(c) <==> c in Ascii("\"\\/bfnrt")
    ensures IsSpace(c) <==> c in Ascii(" \t\n\r")
    ensures IsHexDigit(c) <==> c in Ascii("0123456789abcdefABCDEF")
  {
    assert Ascii("\"\\/bfnrt") == [34, 92, 47, 98, 102, 110, 114, 116];
    assert Ascii(" \t\n\r") == [32, 9, 10, 13];
    assert Ascii("0123456789abcdefABCDEF") ==
      [48, 49, 50, 51, 52, 53, 54, 55, 56, 57, 97, 98, 99, 100, 101, 102, 65, 66, 67, 68, 69, 70];
  }

  lemma NumberTable(c: Byte)
    ensures IsNumberChar(c) <==> c in Ascii("0123456789-+.eEnNiIfFaAtTy")
  {
    assert Ascii("0123456789-+.eEnNiIfFaAtTy") ==
      [48, 49, 50, 51, 52, 53, 54, 55, 56, 57, 45, 43, 46, 101, 69, 110, 78, 105, 73, 102, 70, 97, 65, 116, 84, 121];
  }

  const HEX_DIGITS: string := "0123456789abcdef"

  /** What the writer does to each character: a backslash before quote and backslash, letters for newline, carriage
      return and tab, four digits for the other control characters, and nothing to any other. */
  lemma WriterTable(c: Byte)
    ensures PrintItem(EscapedItem(c)) ==
      if [c] == Ascii("\"") then Ascii("\\\"")
      else if [c] == Ascii("\\") then Ascii("\\\\")
      else if [c] == Ascii("\n") then Ascii("\\n")
      else if [c] == Ascii("\r") then Ascii("\\r")
      else if [c] == Ascii("\t") then Ascii("\\t")
      else if c < ' ' as int then Ascii("\\u00" + HEX_DIGITS[c / 16..c / 16 + 1] + HEX_DIGITS[c % 16..c % 16 + 1])
      else [c]
  {
    WriterTexts();
    if c < 32 {
      ControlText(c);
    }
  }

  lemma WriterTexts()
    ensures Ascii("\"") == [34] && Ascii("\\") == [92] && Ascii("\n") == [10] && Ascii("\r") == [13]
    ensures Ascii("\t") == [9] && Ascii("\\n") == [92, 110] && Ascii("\\r") == [92, 114] && Ascii("\\t") == [92, 116]
    ensures Ascii("\\\"") == [92, 34] && Ascii("\\\\") == [92, 92]
  {
  }

  lemma AsciiAppend(a: string, b: string)
    ensures Ascii(a + b) == Ascii(a) + Ascii(b)
  {
  }

  lemma ControlText(c: Byte)
    requires c < 32
    ensures Ascii("\\u00" + HEX_DIGITS[c / 16..c / 16 + 1] + HEX_DIGITS[c % 16..c % 16 + 1]) ==
      PrintItem(Hex([48, 48, HexDigit(c / 16), HexDigit(c % 16)]))
  {
    var a, b := HEX_DIGITS[c / 16..c / 16 + 1], HEX_DIGITS[c % 16..c % 16 + 1];
    DigitText(c / 16);
    DigitText(c % 16);
    AsciiAppend("\\u00" + a, b);
    AsciiAppend("\\u00", a);
    assert Ascii("\\u00") == [92, 117, 48, 48];
  }

  lemma DigitText(v: nat)
    requires v < 16
    ensures Ascii(HEX_DIGITS[v..v + 1]) == [HexDigit(v)]
  {
    assert HEX_DIGITS[v] == if v < 10 then '0' + v as char else 'a' + (v - 10) as char;
    assert HEX_DIGITS[v..v + 1] == [HEX_DIGITS[v]];
  }

  // ---- values

  datatype Val =
    | Nothing
    | Truth(b: bool)
    | NotANumber
    | Infinite(negative: bool)
    | Numeric(text: Bytes)
    | Words(s: Bytes)
    | List(items: Vals)
    | Table(fields: Fields)

  datatype Vals = NoVals | Vals(v: Val, rest: Vals)

  datatype Fields = NoFields | Field(key: Bytes, v: Val, rest: Fields)

  function Quoted(s: Bytes, rest: Bytes): Bytes {
    Ascii("\"") + (Escaped(s) + (Ascii("\"") + rest))
  }

  /** A value as text, without blanks, then the rest. */
  function Write(v: Val, rest: Bytes): Bytes
    decreases v
  {
    match v
    case Nothing => Ascii("null") + rest
    case Truth(b) => Ascii(if b then "true" else "false") + rest
    case NotANumber => Ascii("NaN") + rest
    case Infinite(negative) => Ascii(if negative then "-Infinity" else "Infinity") + rest
    case Numeric(text) => text + rest
    case Words(s) => Quoted(s, rest)
    case List(items) => Ascii("[") + WriteVals(items, Ascii("]") + rest)
    case Table(fields) => Ascii("{") + WriteFields(fields, Ascii("}") + rest)
  }

  function WriteVals(vs: Vals, rest: Bytes): Bytes
    decreases vs
  {
    if vs.NoVals? then rest
    else Write(vs.v, if vs.rest.NoVals? then rest else Ascii(",") + WriteVals(vs.rest, rest))
  }

  function WriteFields(fs: Fields, rest: Bytes): Bytes
    decreases fs
  {
    if fs.NoFields? then rest
    else
      Quoted(fs.key, Ascii(":") +
        Write(fs.v, if fs.rest.NoFields? then rest else Ascii(",") + WriteFields(fs.rest, rest)))
  }

  /** What the reader builds: arrays in order, and tables filled field by field. */
  function Built(v: Val): Json {
    match v
    case Nothing => JNull
    case Truth(b) => JBool(b)
    case NotANumber => JNaN
    case Infinite(negative) => JInfinity(negative)
    case Numeric(text) => JNumber(text)
    case Words(s) => JString(s)
    case List(items) => JArray(BuiltAll(items))
    case Table(fields) => JObject(Filled(map[], fields))
  }

  function BuiltAll(vs: Vals): seq<Json> {
    if vs.NoVals? then [] else [Built(vs.v)] + BuiltAll(vs.rest)
  }

  function Filled(table: map<Bytes, Json>, fs: Fields): map<Bytes, Json>
    decreases fs
  {
    if fs.NoFields? then table else Filled(table[fs.key := Built(fs.v)], fs.rest)
  }

  /** Texts without NUL, and numbers the decoder takes that are none of the named values. */
  predicate Writable(accepts: Bytes -> bool, v: Val) {
    match v
    case Numeric(text) => WfNumber(accepts, text) && text != NAN && text != INFINITY && text != MINUS_INFINITY
    case Words(s) => NulFree(s)
    case List(items) => AllWritable(accepts, items)
    case Table(fields) => FieldsWritable(accepts, fields)
    case _ => true
  }

  predicate AllWritable(accepts: Bytes -> bool, vs: Vals) {
    vs.Vals? ==> Writable(accepts, vs.v) && AllWritable(accepts, vs.rest)
  }

  predicate FieldsWritable(accepts: Bytes -> bool, fs: Fields) {
    fs.Field? ==> NulFree(fs.key) && Writable(accepts, fs.v) && FieldsWritable(accepts, fs.rest)
  }

  /** Levels of nesting: one for the value, one more for each container around the deepest value. */
  function Height(v: Val): nat {
    match v
    case List(items) => 1 + Tallest(items)
    case Table(fields) => 1 + TallestField(fields)
    case _ => 1
  }

  function Tallest(vs: Vals): nat {
    if vs.NoVals? then 0
    else if Height(vs.v) >= Tallest(vs.rest) then Height(vs.v) else Tallest(vs.rest)
  }

  function TallestField(fs: Fields): nat {
    if fs.NoFields? then 0
    else if Height(fs.v) >= TallestField(fs.rest) then Height(fs.v) else TallestField(fs.rest)
  }

  // ---- the syntax tree of the text

  function TreeOf(v: Val): Value {
    match v
    case Nothing => Lit(Null)
    case Truth(b) => Lit(if b then True else False)
    case NotANumber => Num(NAN)
    case Infinite(negative) => Num(if negative then MINUS_INFINITY else INFINITY)
    case Numeric(text) => Num(text)
    case Words(s) => Str(EscapedItems(s))
    case List(items) => if items.NoVals? then EmptyArr([]) else Arr(ElemsOf(items))
    case Table(fields) => if fields.NoFields? then EmptyObj([]) else Obj(MembersOf(fields))
  }

  function ElemsOf(vs: Vals): Elems
    requires vs.Vals?
  {
    var t := Tree([], TreeOf(vs.v));
    if vs.rest.NoVals? then LastElem(t, []) else MoreElems(t, [], ElemsOf(vs.rest))
  }

  function MembersOf(fs: Fields): Members
    requires fs.Field?
  {
    var m := Member([], EscapedItems(fs.key), [], Tree([], TreeOf(fs.v)), []);
    if fs.rest.NoFields? then LastMember(m) else MoreMembers(m, MembersOf(fs.rest))
  }

  lemma NamedTexts()
    ensures Ascii("null") == NULL && Ascii("true") == TRUE && Ascii("false") == FALSE && Ascii("NaN") == NAN
    ensures Ascii("Infinity") == INFINITY && Ascii("-Infinity") == MINUS_INFINITY
  {
  }

  lemma Punctuation()
    ensures Ascii("[") == [LBRACKET] && Ascii("]") == [RBRACKET] && Ascii("{") == [LBRACE] && Ascii("}") == [RBRACE]
    ensures Ascii(",") == [COMMA] && Ascii(":") == [COLON] && Ascii("\"") == [QUOTE]
  {
  }

  lemma QuotedPrinted(s: Bytes, rest: Bytes)
    ensures Quoted(s, rest) == [QUOTE] + PrintItems(EscapedItems(s), rest)
  {
    Punctuation();
    EscapedPrinted(s, rest);
  }

  lemma {:induction false} WritePrints(v: Val, rest: Bytes)
    ensures Write(v, rest) == PrintValue(TreeOf(v), rest)
    decreases v
  {
    NamedTexts();
    Punctuation();
    match v
    case Words(s) => QuotedPrinted(s, rest);
    case List(items) =>
      if items.Vals? {
        ElemsPrint(items, rest);
      } else {
        NothingFirst([RBRACKET] + rest);
      }
    case Table(fields) =>
      if fields.Field? {
        FieldsPrint(fields, rest);
      } else {
        NothingFirst([RBRACE] + rest);
      }
    case _ =>
  }

  lemma {:induction false} ElemsPrint(vs: Vals, rest: Bytes)
    requires vs.Vals?
    ensures WriteVals(vs, [RBRACKET] + rest) == PrintElems(ElemsOf(vs), rest)
    decreases vs
  {
    Punctuation();
    var more := if vs.rest.NoVals? then [RBRACKET] + rest else [COMMA] + PrintElems(ElemsOf(vs.rest), rest);
    if vs.rest.Vals? {
      ElemsPrint(vs.rest, rest);
    }
    WritePrints(vs.v, more);
    NothingFirst(more);
    NothingFirst(PrintValue(TreeOf(vs.v), more));
  }

  lemma FieldPrinted(key: Bytes, t: Value, more: Bytes)
    ensures PrintMember(Member([], EscapedItems(key), [], Tree([], t), []), more) ==
      [QUOTE] + PrintItems(EscapedItems(key), [COLON] + PrintValue(t, more))
  {
    NothingFirst(more);
    NothingFirst(PrintValue(t, more));
    NothingFirst([COLON] + PrintValue(t, more));
    NothingFirst([QUOTE] + PrintItems(EscapedItems(key), [COLON] + PrintValue(t, more)));
  }

  lemma {:induction false} FieldsPrint(fs: Fields, rest: Bytes)
    requires fs.Field?
    ensures WriteFields(fs, [RBRACE] + rest) == PrintMembers(MembersOf(fs), rest)
    decreases fs
  {
    Punctuation();
    var more := if fs.rest.NoFields? then [RBRACE] + rest else [COMMA] + PrintMembers(MembersOf(fs.rest), rest);
    if fs.rest.Field? {
      FieldsPrint(fs.rest, rest);
    }
    WritePrints(fs.v, more);
    QuotedPrinted(fs.key, [COLON] + PrintValue(TreeOf(fs.v), more));
    FieldPrinted(fs.key, TreeOf(fs.v), more);
  }

  // ---- it is well formed, fits, and means the value

  lemma {:induction false} TreeWf(accepts: Bytes -> bool, v: Val)
    requires Writable(accepts, v)
    ensures WfValue(accepts, TreeOf(v))
    decreases v
  {
    match v
    case List(items) =>
      if items.Vals? {
        ElemsWf(accepts, items);
      }
    case Table(fields) =>
      if fields.Field? {
        FieldsWf(accepts, fields);
      }
    case _ =>
  }

  lemma {:induction false} ElemsWf(accepts: Bytes -> bool, vs: Vals)
    requires vs.Vals? && AllWritable(accepts, vs)
    ensures WfElems(accepts, ElemsOf(vs))
    decreases vs
  {
    TreeWf(accepts, vs.v);
    if vs.rest.Vals? {
      ElemsWf(accepts, vs.rest);
    }
  }

  lemma {:induction false} FieldsWf(accepts: Bytes -> bool, fs: Fields)
    requires fs.Field? && FieldsWritable(accepts, fs)
    ensures WfMembers(accepts, MembersOf(fs))
    decreases fs
  {
    TreeWf(accepts, fs.v);
    assert WfTree(accepts, Tree([], TreeOf(fs.v)));
    if fs.rest.Field? {
      FieldsWf(accepts, fs.rest);
    }
  }

  lemma {:induction false} TreeFits(v: Val, depth: nat)
    ensures Fits(TreeOf(v), depth) <==> depth + Height(v) <= 256
    decreases v
  {
    match v
    case List(items) =>
      if items.Vals? {
        ElemsFit(items, depth + 1);
      }
    case Table(fields) =>
      if fields.Field? {
        FieldsFit(fields, depth + 1);
      }
    case _ =>
  }

  lemma {:induction false} ElemsFit(vs: Vals, depth: nat)
    requires vs.Vals?
    ensures FitsElems(ElemsOf(vs), depth) <==> depth + Tallest(vs) <= 256
    ensures Tallest(vs) >= 1
    decreases vs
  {
    TreeFits(vs.v, depth);
    if vs.rest.Vals? {
      ElemsFit(vs.rest, depth);
    }
  }

  lemma {:induction false} FieldsFit(fs: Fields, depth: nat)
    requires fs.Field?
    ensures FitsMembers(MembersOf(fs), depth) <==> depth + TallestField(fs) <= 256
    ensures TallestField(fs) >= 1
    decreases fs
  {
    TreeFits(fs.v, depth);
    if fs.rest.Field? {
      FieldsFit(fs.rest, depth);
    }
  }

  lemma {:induction false} TreeMeans(accepts: Bytes -> bool, v: Val)
    requires Writable(accepts, v)
    ensures Meaning(TreeOf(v)) == Built(v)
    decreases v
  {
    match v
    case Words(s) => EscapedDecoded(s);
    case List(items) =>
      if items.Vals? {
        ElemsMean(accepts, items);
      }
    case Table(fields) =>
      if fields.Field? {
        FieldsMean(accepts, fields, map[]);
        NothingMapped(MembersMeaning(MembersOf(fields)));
      }
    case _ => NamedValues();
  }

  lemma NamedValues()
    ensures NAN != INFINITY && NAN != MINUS_INFINITY && INFINITY != MINUS_INFINITY
  {
    assert |NAN| == 3 && |INFINITY| == 8 && |MINUS_INFINITY| == 9;
  }

  lemma NothingMapped(m: map<Bytes, Json>)
    ensures map[] + m == m
  {
  }

  lemma {:induction false} ElemsMean(accepts: Bytes -> bool, vs: Vals)
    requires vs.Vals? && AllWritable(accepts, vs)
    ensures ElemsMeaning(ElemsOf(vs)) == BuiltAll(vs)
    decreases vs
  {
    TreeMeans(accepts, vs.v);
    if vs.rest.Vals? {
      ElemsMean(accepts, vs.rest);
    }
  }

  lemma MapLater<K, V>(table: map<K, V>, k: K, v: V, more: map<K, V>)
    ensures table[k := v] + more == table + (map[k := v] + more)
  {
  }

  lemma {:induction false} FieldsMean(accepts: Bytes -> bool, fs: Fields, table: map<Bytes, Json>)
    requires fs.Field? && FieldsWritable(accepts, fs)
    ensures Filled(table, fs) == table + MembersMeaning(MembersOf(fs))
    decreases fs
  {
    TreeMeans(accepts, fs.v);
    EscapedDecoded(fs.key);
    var value := Built(fs.v);
    if fs.rest.Field? {
      FieldsMean(accepts, fs.rest, table[fs.key := value]);
      MapLater(table, fs.key, value, MembersMeaning(MembersOf(fs.rest)));
    } else {
      MapLater(table, fs.key, value, map[]);
    }
  }

  /** Every value that fits in 256 levels, written out, is read back as that value. */
  lemma WriteRead(accepts: Bytes -> bool, v: Val)
    requires Writable(accepts, v) && Height(v) <= 256
    ensures var d := ReadDocument(accepts, Write(v, [])); d.Some? && Meaning(d.value.t.v) == Built(v)
  {
    var d := Document(Tree([], TreeOf(v)), []);
    WritePrints(v, []);
    NothingFirst(PrintValue(TreeOf(v), []));
    TreeWf(accepts, v);
    TreeFits(v, 0);
    TreeMeans(accepts, v);
    ReadPrinted(accepts, Write(v, []), d);
  }

  // ---- and nothing deeper

  function Brackets(n: nat, rest: Bytes): Bytes {
    if n == 0 then rest else Ascii("[") + Brackets(n - 1, rest)
  }

  lemma BracketFails(accepts: Bytes -> bool, s: Bytes, depth: nat)
    requires ReadTree(accepts, s, depth + 1).Fail? && s != [] && s[0] == LBRACKET
    ensures ReadTree(accepts, [LBRACKET] + s, depth).Fail?
  {
    var t := [LBRACKET] + s;
    assert t[1..] == s && t[0] == LBRACKET && SpaceLength(t) == 0 && SkipSpace(t) == t;
    assert SpaceLength(s) == 0 && SkipSpace(s) == s;
    assert ReadElems(accepts, s, depth + 1).Fail?;
    assert depth < MAX_DEPTH ==> ReadValue(accepts, t, depth).Fail?;
  }

  /** A text that opens more than 256 arrays is not accepted, whatever follows. */
  lemma {:induction false} TooDeep(accepts: Bytes -> bool, n: nat, rest: Bytes, depth: nat)
    requires n > 0 && depth + n > 256
    ensures ReadTree(accepts, Brackets(n, rest), depth).Fail?
    decreases n
  {
    Punctuation();
    assert Brackets(n, rest)[0] == LBRACKET;
    if n > 1 {
      TooDeep(accepts, n - 1, rest, depth + 1);
      BracketFails(accepts, Brackets(n - 1, rest), depth);
    }
  }
}
