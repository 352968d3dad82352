/** Rows of the component export: a row of a known width gives back its refdes and every cell. */
module CsvExport {
  import opened Wrappers

  /** Bytes of a C string. */
  type Char = c: int | 1 <= c < 256 witness 1

  type Text = seq<Char>

  const COMMA: Char := 44
  const BLANK: Char := 32
  const QUOTE: Char := 34
  const ESCAPE: Char := 92
  const NEWLINE: Char := 10
  const ZERO: Char := 48

  const SEPARATOR: Text := [COMMA, BLANK]

  /** The letter g_strescape puts after a backslash, if the character has one. */
  function Letter(c: Char): Option<Char> {
    if c == 8 then Some(98)
    else if c == 12 then Some(102)
    else if c == 10 then Some(110)
    else if c == 13 then Some(114)
    else if c == 9 then Some(116)
    else if c == 11 then Some(118)
    else if c == QUOTE || c == ESCAPE then Some(c)
    else None
  }

  function EscapeChar(c: Char): Text {
    if Letter(c).Some? then [ESCAPE, Letter(c).value]
    else if c < 32 || c >= 127 then [ESCAPE, ZERO + c / 64, ZERO + c / 8 % 8, ZERO + c % 8]
    else [c]
  }

  /** g_strescape. */
  function Escape(t: Text): Text {
    if t == [] then [] else EscapeChar(t[0]) + Escape(t[1..])
  }

  function Field(value: Option<Text>): Text {
    if value.None? then []
    else
      var e := Escape(value.value);
      if COMMA in e then [QUOTE] + e + [QUOTE] else e
  }

  function Fields(cells: seq<Option<Text>>): Text {
    if cells == [] then [] else Fields(cells[..|cells| - 1]) + SEPARATOR + Field(cells[|cells| - 1])
  }

  /** One row, without its newline. */
  function Row(refdes: Text, cells: seq<Option<Text>>): Text {
    refdes + Fields(cells)
  }

  lemma RowNext(refdes: Text, cells: seq<Option<Text>>, j: nat)
    requires j < |cells|
    ensures Row(refdes, cells[..j + 1]) == Row(refdes, cells[..j]) + SEPARATOR + Field(cells[j])
  {
    assert cells[..j + 1][..j] == cells[..j];
    Regroup(refdes, Fields(cells[..j]), SEPARATOR, Field(cells[j]));
  }

  lemma Regroup(a: Text, b: Text, c: Text, d: Text)
    ensures a + (b + c + d) == a + b + c + d
  {
  }

  /** The loop of f_export_components over the columns of one row; with no column at all the source reads
      past the end of the table. */
  method WriteRow(refdes: Text, cells: seq<Option<Text>>) returns (out: Text)
    requires cells != []
    ensures out == Row(refdes, cells) + [NEWLINE]
  {
    assert Row(refdes, cells[..0]) == refdes;
    out := refdes + SEPARATOR;
    var j := 0;
    while j < |cells| - 1
      invariant 0 <= j <= |cells| - 1 && out == Row(refdes, cells[..j]) + SEPARATOR
    {
      RowNext(refdes, cells, j);
      var field := WriteField(cells[j]);
      out := out + field + SEPARATOR;
      j := j + 1;
    }
    RowNext(refdes, cells, j);
    assert cells[..j + 1] == cells;
    var field := WriteField(cells[j]);
    out := out + field + [NEWLINE];
  }

  method WriteField(value: Option<Text>) returns (out: Text)
    ensures out == Field(value)
  {
    if value.None? {
      return [];
    }
    var text := Escape(value.value);
    var hasComma := COMMA in text;
    out := if hasComma then [QUOTE] else [];
    out := out + text;
    out := out + if hasComma then [QUOTE] else [];
  }

  // ---- the characters

  /** Characters below 256 as bytes. */
  predicate IsLatin(t: string) {
    forall i :: 0 <= i < |t| ==> '\0' < t[i] < '\U{100}'
  }

  function Chars(t: string): Text
    requires IsLatin(t)
  {
    seq(|t|, i requires 0 <= i < |t| => t[i] as int)
  }

  lemma Punctuation()
    ensures SEPARATOR == Chars(", ") && [COMMA] == Chars(",") && [QUOTE] == Chars("\"")
    ensures [ESCAPE] == Chars("\\") && [NEWLINE] == Chars("\n")
  {
  }

  const SPECIAL: string := "\U{08}\U{0C}\n\r\t\U{0B}\"\\"

  const LETTERS: string := "bfnrtv\"\\"

  /** Backspace, form feed, newline, carriage return, tab, vertical tab, quote and backslash have letters; other
      characters from blank to tilde stay; the rest is written with three octal digits. */
  lemma EscapeTable(c: Char)
    ensures |SPECIAL| == |LETTERS| == 8
    ensures forall i :: 0 <= i < 8 && c == SPECIAL[i] as int ==> EscapeChar(c) == [92, LETTERS[i] as int]
    ensures (forall i :: 0 <= i < 8 ==> c != SPECIAL[i] as int) ==>
      EscapeChar(c) == if ' ' as int <= c <= '~' as int then [c] else [92, 48 + c / 64, 48 + c / 8 % 8, 48 + c % 8]
  {
    assert SPECIAL[0] as int == 8 && SPECIAL[1] as int == 12 && SPECIAL[2] as int == 10 && SPECIAL[3] as int == 13;
    assert SPECIAL[4] as int == 9 && SPECIAL[5] as int == 11 && SPECIAL[6] as int == 34 && SPECIAL[7] as int == 92;
  }

  // ---- undoing the escaping

  function Digit(c: Char): int {
    c - ZERO
  }

  predicate IsOctal(c: Char) {
    ZERO <= c < ZERO + 8
  }

  /** The character a letter after a backslash stands for. */
  function FromLetter(l: Char): Option<Char> {
    if l == 98 then Some(8)
    else if l == 102 then Some(12)
    else if l == 110 then Some(10)
    else if l == 114 then Some(13)
    else if l == 116 then Some(9)
    else if l == 118 then Some(11)
    else if l == QUOTE || l == ESCAPE then Some(l)
    else None
  }

  /** g_strcompress, as far as escaped texts need it. */
  function Unescape(e: Text): Option<Text>
    decreases |e|
  {
    if e == [] then Some([])
    else if e[0] != ESCAPE then Then(e[0], Unescape(e[1..]))
    else if |e| >= 2 && FromLetter(e[1]).Some? then Then(FromLetter(e[1]).value, Unescape(e[2..]))
    else if |e| >= 4 && IsOctal(e[1]) && IsOctal(e[2]) && IsOctal(e[3]) then
      var n := Digit(e[1]) * 64 + Digit(e[2]) * 8 + Digit(e[3]);
      if 1 <= n < 256 then Then(n, Unescape(e[4..])) else None
    else None
  }

  function Then(c: Char, rest: Option<Text>): Option<Text> {
    if rest.None? then None else Some([c] + rest.value)
  }

  lemma OctalParts(c: Char)
    ensures 0 <= c / 64 < 8 && 0 <= c / 8 % 8 < 8 && c == c / 64 * 64 + c / 8 % 8 * 8 + c % 8
  {
    assert c / 64 == c / 8 / 8;
  }

  lemma UnescapeLetter(c: Char, rest: Text)
    requires Letter(c).Some?
    ensures Unescape(EscapeChar(c) + rest) == Then(c, Unescape(rest))
  {
    var e := EscapeChar(c) + rest;
    assert e[2..] == rest && FromLetter(e[1]) == Some(c);
  }

  lemma UnescapeOctal(c: Char, a: Char, b: Char, d: Char, rest: Text)
    requires IsOctal(a) && IsOctal(b) && IsOctal(d) && c == Digit(a) * 64 + Digit(b) * 8 + Digit(d)
    ensures Unescape([ESCAPE, a, b, d] + rest) == Then(c, Unescape(rest))
  {
    var e := [ESCAPE, a, b, d] + rest;
    assert e[4..] == rest && FromLetter(e[1]).None?;
  }

  /** The digits of an octal escape. */
  lemma OctalDigits(c: Char) returns (a: Char, b: Char, d: Char)
    requires Letter(c).None? && (c < 32 || c >= 127)
    ensures IsOctal(a) && IsOctal(b) && IsOctal(d) && c == Digit(a) * 64 + Digit(b) * 8 + Digit(d)
    ensures EscapeChar(c) == [ESCAPE, a, b, d]
  {
    OctalParts(c);
    a, b, d := ZERO + c / 64, ZERO + c / 8 % 8, ZERO + c % 8;
  }

  lemma UnescapeChar(c: Char, rest: Text)
    ensures Unescape(EscapeChar(c) + rest) == Then(c, Unescape(rest))
  {
    if Letter(c).Some? {
      UnescapeLetter(c, rest);
    } else if c < 32 || c >= 127 {
      var a, b, d := OctalDigits(c);
      UnescapeOctal(c, a, b, d, rest);
    } else {
      UnescapePlain(c, rest);
    }
  }

  lemma UnescapePlain(c: Char, rest: Text)
    requires c != ESCAPE
    ensures Unescape([c] + rest) == Then(c, Unescape(rest))
  {
    assert ([c] + rest)[1..] == rest;
  }

  lemma {:induction false} UnescapeEscape(t: Text)
    ensures Unescape(Escape(t)) == Some(t)
  {
    if t != [] {
      UnescapeEscape(t[1..]);
      UnescapeChar(t[0], Escape(t[1..]));
      assert [t[0]] + t[1..] == t;
    }
  }

  // ---- the shape of escaped text

  /** No bare quote, and no backslash without a character after it. */
  predicate Escaped(t: Text) {
    if t == [] then true
    else if t[0] == ESCAPE then |t| >= 2 && Escaped(t[2..])
    else t[0] != QUOTE && Escaped(t[1..])
  }

  lemma {:induction false} EscapedAppend(a: Text, b: Text)
    requires Escaped(a)
    ensures Escaped(a + b) <==> Escaped(b)
    decreases |a|
  {
    if a == [] {
      assert a + b == b;
    } else if a[0] == ESCAPE {
      assert (a + b)[2..] == a[2..] + b;
      EscapedAppend(a[2..], b);
    } else {
      assert (a + b)[1..] == a[1..] + b;
      EscapedAppend(a[1..], b);
    }
  }

  lemma EscapedChar(c: Char)
    ensures Escaped(EscapeChar(c))
  {
    if Letter(c).Some? {
      assert EscapeChar(c)[2..] == [];
    } else if c < 32 || c >= 127 {
      var a, b, d := OctalDigits(c);
      var e: Text := [b, d];
      var last: Text := [d];
      assert EscapeChar(c)[2..] == e && e[1..] == last && last[1..] == [];
      assert Escaped(last) && Escaped(e);
    } else {
      assert EscapeChar(c)[1..] == [];
    }
  }

  lemma {:induction false} EscapeEscaped(t: Text)
    ensures Escaped(Escape(t))
  {
    if t != [] {
      EscapedChar(t[0]);
      EscapeEscaped(t[1..]);
      EscapedAppend(EscapeChar(t[0]), Escape(t[1..]));
    }
  }

  /** What follows a comma and a space in escaped text is escaped text. */
  lemma {:induction false} AfterSeparator(u: Text, q: Text)
    requires Escaped(u + SEPARATOR + q)
    ensures Escaped(q)
    decreases |u|
  {
    var t := u + SEPARATOR + q;
    if u == [] {
      assert t[1..][1..] == q;
    } else if u[0] != ESCAPE {
      assert t[1..] == u[1..] + SEPARATOR + q;
      AfterSeparator(u[1..], q);
    } else if |u| >= 2 {
      assert t[2..] == u[2..] + SEPARATOR + q;
      AfterSeparator(u[2..], q);
    } else {
      assert t[2..][1..] == q;
    }
  }

  /** Escaped text that ends in a quote is not escaped any more without it. */
  lemma {:induction false} LastQuote(t: Text)
    requires Escaped(t + [QUOTE])
    ensures !Escaped(t)
    decreases |t|
  {
    var all := t + [QUOTE];
    if t != [] {
      if t[0] == ESCAPE {
        if |t| >= 2 {
          assert all[2..] == t[2..] + [QUOTE];
          LastQuote(t[2..]);
        }
      } else {
        assert all[1..] == t[1..] + [QUOTE];
        LastQuote(t[1..]);
      }
    }
  }

  // ---- reading a row from its end

  function Shown(e: Text, quoted: bool): Text {
    if quoted then [QUOTE] + e + [QUOTE] else e
  }

  /** A field's text is escaped, and quoted exactly when it holds a comma. */
  ghost predicate IsField(f: Text, e: Text, quoted: bool) {
    Escaped(e) && (quoted <==> COMMA in e) && f == Shown(e, quoted)
  }

  lemma FieldShape(value: Option<Text>) returns (e: Text, quoted: bool)
    ensures IsField(Field(value), e, quoted) && e == Escape(Content(value))
  {
    if value.None? {
      e, quoted := [], false;
    } else {
      e := Escape(value.value);
      quoted := COMMA in e;
      EscapeEscaped(value.value);
    }
  }

  /** No field ends in a separator and another field. */
  lemma NoFieldWithin(f: Text, e: Text, quoted: bool, u: Text, f2: Text, e2: Text, quoted2: bool)
    requires IsField(f, e, quoted) && IsField(f2, e2, quoted2)
    ensures f2 != u + SEPARATOR + f
  {
    if f2 == u + SEPARATOR + f {
      assert f2[|u|] == COMMA;
      assert quoted2 && f2[0] == QUOTE && f2[|f2| - 1] == QUOTE && u != [];
      assert f2[|u| + 1] == BLANK;
      assert f != [] && f[|f| - 1] == f2[|f2| - 1];
      var front := f[..|f| - 1];
      assert f == front + [QUOTE];
      assert e2 == f2[1..|f2| - 1] == u[1..] + SEPARATOR + front;
      AfterSeparator(u[1..], front);
      FieldEnd(f, e, quoted, front);
    }
  }

  /** A field that ends in a quote is not escaped text without it. */
  lemma FieldEnd(f: Text, e: Text, quoted: bool, front: Text)
    requires IsField(f, e, quoted) && f == front + [QUOTE]
    ensures !Escaped(front)
  {
    if quoted {
      assert front == f[..|f| - 1] == [QUOTE] + e;
    } else {
      LastQuote(front);
    }
  }

  /** The last field of a row is determined by the row. */
  lemma LastField(x: Text, f: Text, x2: Text, f2: Text, e: Text, quoted: bool, e2: Text, quoted2: bool)
    requires IsField(f, e, quoted) && IsField(f2, e2, quoted2) && |f| <= |f2|
    requires x + SEPARATOR + f == x2 + SEPARATOR + f2
    ensures x == x2 && f == f2
  {
    var t := x + SEPARATOR + f;
    var d := |f2| - |f|;
    assert t[|x|] == COMMA && t[|x2| + 1] == BLANK && |x| == |x2| + d;
    if d >= 2 {
      var u := f2[..d - 2];
      assert f2 == t[|x2| + 2..] && t[|x|..] == SEPARATOR + f;
      assert f2 == t[|x2| + 2..|x|] + t[|x|..];
      assert u == t[|x2| + 2..|x|];
      NoFieldWithin(f, e, quoted, u, f2, e2, quoted2);
    } else {
      assert d == 0;
      assert x == t[..|x|] == x2;
      assert f == t[|x| + 2..] == f2;
    }
  }

  /** What a cell says: nothing and the empty text are the same. */
  function Content(value: Option<Text>): Text {
    if value.None? then [] else value.value
  }

  lemma FieldContent(v: Option<Text>, w: Option<Text>)
    ensures Field(v) == Field(w) <==> Content(v) == Content(w)
  {
    var e, quoted := FieldShape(v);
    var e2, quoted2 := FieldShape(w);
    if Field(v) == Field(w) {
      assert quoted ==> Field(v)[0] == QUOTE;
      assert quoted2 ==> Field(w)[0] == QUOTE;
      assert quoted == quoted2;
      assert quoted ==> e == Field(v)[1..|Field(v)| - 1] == e2;
      UnescapeEscape(Content(v));
      UnescapeEscape(Content(w));
    }
  }

  /** Texts that end in a separator and a field have the same field there. */
  lemma LastColumn(x: Text, v: Option<Text>, x2: Text, w: Option<Text>)
    ensures x + SEPARATOR + Field(v) == x2 + SEPARATOR + Field(w) <==> x == x2 && Content(v) == Content(w)
  {
    FieldContent(v, w);
    if x + SEPARATOR + Field(v) == x2 + SEPARATOR + Field(w) {
      var e, quoted := FieldShape(v);
      var e2, quoted2 := FieldShape(w);
      if |Field(v)| <= |Field(w)| {
        LastField(x, Field(v), x2, Field(w), e, quoted, e2, quoted2);
      } else {
        LastField(x2, Field(w), x, Field(v), e2, quoted2, e, quoted);
      }
    }
  }

  ghost predicate SameContents(cells: seq<Option<Text>>, cells2: seq<Option<Text>>)
    requires |cells| == |cells2|
  {
    forall j :: 0 <= j < |cells| ==> Content(cells[j]) == Content(cells2[j])
  }

  lemma SameContentsLast(cells: seq<Option<Text>>, cells2: seq<Option<Text>>)
    requires |cells| == |cells2| > 0
    ensures var m := |cells| - 1;
      SameContents(cells, cells2) <==> SameContents(cells[..m], cells2[..m]) && Content(cells[m]) == Content(cells2[m])
  {
    var m := |cells| - 1;
    if SameContents(cells[..m], cells2[..m]) && Content(cells[m]) == Content(cells2[m]) {
      forall j | 0 <= j < |cells|
        ensures Content(cells[j]) == Content(cells2[j])
      {
        assert j < m ==> cells[..m][j] == cells[j] && cells2[..m][j] == cells2[j];
      }
    }
  }

  lemma RowLast(refdes: Text, cells: seq<Option<Text>>)
    requires cells != []
    ensures var m := |cells| - 1; Row(refdes, cells) == Row(refdes, cells[..m]) + SEPARATOR + Field(cells[m])
  {
    var m := |cells| - 1;
    RowNext(refdes, cells, m);
    assert cells[..m + 1] == cells;
  }

  /** Two rows of the same width are the same text exactly when refdes and cells are the same, whatever the
      refdes holds. */
  lemma {:induction false} RowsDistinct(refdes: Text, cells: seq<Option<Text>>, refdes2: Text,
                                        cells2: seq<Option<Text>>)
    requires |cells| == |cells2|
    ensures Row(refdes, cells) == Row(refdes2, cells2) <==> refdes == refdes2 && SameContents(cells, cells2)
  {
    if cells == [] {
      assert Row(refdes, cells) == refdes && Row(refdes2, cells2) == refdes2;
    } else {
      var m := |cells| - 1;
      RowsDistinct(refdes, cells[..m], refdes2, cells2[..m]);
      RowLast(refdes, cells);
      RowLast(refdes2, cells2);
      LastColumn(Row(refdes, cells[..m]), cells[m], Row(refdes2, cells2[..m]), cells2[m]);
      SameContentsLast(cells, cells2);
    }
  }

  // ---- reading a row from its start

  /** How far the next comma outside quotes is; a character after a backslash is never looked at. */
  function FieldLength(t: Text, quoted: bool): (n: nat)
    ensures n <= |t|
  {
    if t == [] then 0
    else if t[0] == ESCAPE && |t| >= 2 then 2 + FieldLength(t[2..], quoted)
    else if t[0] == QUOTE then 1 + FieldLength(t[1..], !quoted)
    else if t[0] == COMMA && !quoted then 0
    else 1 + FieldLength(t[1..], quoted)
  }

  /** What a field says, its quotes taken off and its escaping undone. */
  function CellText(f: Text): Option<Text> {
    if |f| >= 2 && f[0] == QUOTE && f[|f| - 1] == QUOTE then Unescape(f[1..|f| - 1]) else Unescape(f)
  }

  /** The cells of a row after its refdes: fields up to unquoted commas, each of which a blank follows. */
  function ReadCells(t: Text): Option<seq<Text>>
    decreases |t|
  {
    var n := FieldLength(t, false);
    var cell := CellText(t[..n]);
    if cell.None? then None
    else if n == |t| then Some([cell.value])
    else if !(SEPARATOR <= t[n..]) then None
    else
      var rest := ReadCells(t[n + 2..]);
      if rest.None? then None else Some([cell.value] + rest.value)
  }

  function UpToComma(t: Text): (n: nat)
    ensures n <= |t| && COMMA !in t[..n]
  {
    if t == [] || t[0] == COMMA then 0
    else
      assert t[..1 + UpToComma(t[1..])] == [t[0]] + t[1..][..UpToComma(t[1..])];
      1 + UpToComma(t[1..])
  }

  /** A spreadsheet's way of reading: the refdes up to the first comma, then the cells. */
  function ReadRow(t: Text): Option<(Text, seq<Text>)> {
    var n := UpToComma(t);
    if !(SEPARATOR <= t[n..]) then None
    else
      var cells := ReadCells(t[n + 2..]);
      if cells.None? then None else Some((t[..n], cells.value))
  }

  lemma {:induction false} EscapedLength(e: Text, rest: Text, quoted: bool)
    requires Escaped(e) && (quoted || COMMA !in e)
    ensures FieldLength(e + rest, quoted) == |e| + FieldLength(rest, quoted)
    decreases |e|
  {
    if e == [] {
      assert e + rest == rest;
    } else if e[0] == ESCAPE {
      assert (e + rest)[2..] == e[2..] + rest;
      EscapedLength(e[2..], rest, quoted);
    } else {
      assert (e + rest)[1..] == e[1..] + rest;
      EscapedLength(e[1..], rest, quoted);
    }
  }

  lemma QuotedLength(e: Text, rest: Text)
    requires Escaped(e)
    ensures FieldLength([QUOTE] + e + [QUOTE] + rest, false) == |e| + 2 + FieldLength(rest, false)
  {
    var tail := [QUOTE] + rest;
    assert ([QUOTE] + e + [QUOTE] + rest)[1..] == e + tail;
    EscapedLength(e, tail, true);
    assert tail[1..] == rest;
  }

  lemma FieldEnds(value: Option<Text>, rest: Text)
    requires rest == [] || rest[0] == COMMA
    ensures FieldLength(Field(value) + rest, false) == |Field(value)|
  {
    var e, quoted := FieldShape(value);
    assert FieldLength(rest, false) == 0;
    if quoted {
      QuotedLength(e, rest);
    } else {
      EscapedLength(e, rest, false);
    }
  }

  lemma FieldReads(value: Option<Text>)
    ensures CellText(Field(value)) == Some(Content(value))
  {
    var e, quoted := FieldShape(value);
    UnescapeEscape(Content(value));
    if quoted {
      assert Field(value)[1..|Field(value)| - 1] == e;
    } else {
      assert e == [] || e[0] != QUOTE;
    }
  }

  lemma {:induction false} FieldsFirst(cells: seq<Option<Text>>)
    requires cells != []
    ensures Fields(cells) == SEPARATOR + (Field(cells[0]) + Fields(cells[1..]))
  {
    var m := |cells| - 1;
    if m == 0 {
      assert cells[1..] == [] && cells[..0] == [];
      assert SEPARATOR + (Field(cells[0]) + []) == [] + SEPARATOR + Field(cells[0]);
    } else {
      FieldsFirst(cells[..m]);
      assert cells[..m][1..] == cells[1..][..m - 1] && cells[1..][m - 1] == cells[m];
      Nested(SEPARATOR, Field(cells[0]), Fields(cells[1..][..m - 1]), SEPARATOR, Field(cells[m]));
    }
  }

  lemma Nested(a: Text, b: Text, c: Text, d: Text, e: Text)
    ensures a + (b + c) + d + e == a + (b + (c + d + e))
  {
  }

  function Contents(cells: seq<Option<Text>>): seq<Text> {
    if cells == [] then [] else [Content(cells[0])] + Contents(cells[1..])
  }

  lemma {:induction false} CellsRead(cells: seq<Option<Text>>)
    requires cells != []
    ensures ReadCells(Field(cells[0]) + Fields(cells[1..])) == Some(Contents(cells))
    decreases |cells|
  {
    var f, more := Field(cells[0]), cells[1..];
    var rest := Fields(more);
    if more != [] {
      FieldsFirst(more);
      CellsRead(more);
    }
    FieldEnds(cells[0], rest);
    FieldReads(cells[0]);
    CellsReadStep(f, Content(cells[0]), rest, Contents(more));
  }

  lemma CellsReadStep(f: Text, cell: Text, rest: Text, cells: seq<Text>)
    requires FieldLength(f + rest, false) == |f| && CellText(f) == Some(cell)
    requires rest == [] ==> cells == []
    requires rest != [] ==> SEPARATOR <= rest && ReadCells(rest[2..]) == Some(cells)
    ensures ReadCells(f + rest) == Some([cell] + cells)
  {
    var t := f + rest;
    assert t[..|f|] == f && t[|f|..] == rest;
    if rest != [] {
      assert t[|f| + 2..] == rest[2..];
    } else {
      assert [cell] + cells == [cell];
    }
  }

  lemma {:induction false} CommaAt(refdes: Text, rest: Text)
    requires rest != [] && rest[0] == COMMA && COMMA !in refdes
    ensures UpToComma(refdes + rest) == |refdes|
  {
    if refdes == [] {
      assert refdes + rest == rest;
    } else {
      assert (refdes + rest)[1..] == refdes[1..] + rest;
      CommaAt(refdes[1..], rest);
    }
  }

  lemma ReadsBack(refdes: Text, cells: seq<Option<Text>>)
    requires cells != [] && COMMA !in refdes
    ensures ReadRow(Row(refdes, cells)) == Some((refdes, Contents(cells)))
  {
    var body := Field(cells[0]) + Fields(cells[1..]);
    FieldsFirst(cells);
    CellsRead(cells);
    RowStarts(refdes, body, Contents(cells));
  }

  lemma RowStarts(refdes: Text, body: Text, cells: seq<Text>)
    requires COMMA !in refdes && ReadCells(body) == Some(cells)
    ensures ReadRow(refdes + (SEPARATOR + body)) == Some((refdes, cells))
  {
    var t := refdes + (SEPARATOR + body);
    CommaAt(refdes, SEPARATOR + body);
    RowParts(t, refdes, body);
    assert SEPARATOR <= t[|refdes|..];
  }

  lemma RowParts(t: Text, refdes: Text, body: Text)
    requires t == refdes + (SEPARATOR + body)
    ensures t[|refdes|..] == SEPARATOR + body && t[|refdes| + 2..] == body && t[..|refdes|] == refdes
  {
  }

  /** Whatever is read as a refdes has no comma. */
  lemma ReadPlain(t: Text)
    ensures ReadRow(t).Some? ==> COMMA !in ReadRow(t).value.0
  {
  }

  /** Reading a row from its start gives back refdes and cells exactly when the refdes, which the source writes
      as it is, has no comma. */
  lemma ReadsExactly(refdes: Text, cells: seq<Option<Text>>)
    requires cells != []
    ensures ReadRow(Row(refdes, cells)) == Some((refdes, Contents(cells))) <==> COMMA !in refdes
  {
    if COMMA !in refdes {
      ReadsBack(refdes, cells);
    } else {
      ReadPlain(Row(refdes, cells));
    }
  }

  /** A refdes with a comma: what comes back is another one, and a cell too many. */
  lemma CommaFails()
    ensures ReadRow(Row([65, COMMA, BLANK, 66], [None])) == Some(([65], [[66], []]))
  {
    var cells: seq<Option<Text>> := [Some([66]), None];
    CommaRows();
    ReadsBack([65], cells);
    assert cells[1..] == [None] && cells[1..][1..] == [];
    assert Contents(cells[1..]) == [[]] && Contents(cells) == [[66], []];
  }

  lemma CommaRows()
    ensures Row([65, COMMA, BLANK, 66], [None]) == [65, COMMA, BLANK, 66, COMMA, BLANK]
    ensures Row([65], [Some([66]), None]) == [65, COMMA, BLANK, 66, COMMA, BLANK]
  {
    var b: Text := [66];
    assert b[1..] == [] && Escape(b) == [66];
    assert Field(Some(b)) == [66];
    var one: seq<Option<Text>> := [Some(b)];
    var two: seq<Option<Text>> := [Some(b), None];
    assert two[..1] == one && one[..0] == [];
    assert Fields(one) == [COMMA, BLANK, 66];
    assert Fields(two) == [COMMA, BLANK, 66, COMMA, BLANK];
    var none: seq<Option<Text>> := [None];
    assert none[..0] == [] && Fields(none) == [COMMA, BLANK];
  }

  // ---- whole tables

  datatype Line = Line(refdes: Text, cells: seq<Option<Text>>)

  /** The rows of an export, each ended by a newline. */
  function Table(rows: seq<Line>): Text {
    if rows == [] then [] else Row(rows[0].refdes, rows[0].cells) + ([NEWLINE] + Table(rows[1..]))
  }

  /** The loop of f_export_components over the rows. */
  method WriteTable(rows: seq<Line>) returns (out: Text)
    requires forall i :: 0 <= i < |rows| ==> rows[i].cells != []
    ensures out == Table(rows)
  {
    out := [];
    assert rows[0..] == rows;
    for i := 0 to |rows|
      invariant out + Table(rows[i..]) == Table(rows)
    {
      var line := WriteRow(rows[i].refdes, rows[i].cells);
      assert rows[i..][1..] == rows[i + 1..];
      RowThen(out, Row(rows[i].refdes, rows[i].cells), Table(rows[i + 1..]));
      out := out + line;
    }
    assert out + [] == out;
  }

  lemma RowThen(out: Text, row: Text, rest: Text)
    ensures out + (row + ([NEWLINE] + rest)) == (out + (row + [NEWLINE])) + rest
  {
  }

  /** The lines of a text of lines that all end in a newline. */
  function Split(t: Text): seq<Text> {
    if t == [] then []
    else if t[0] == NEWLINE then [[]] + Split(t[1..])
    else
      var rest := Split(t[1..]);
      if rest == [] then [[t[0]]] else [[t[0]] + rest[0]] + rest[1..]
  }

  lemma {:induction false} SplitLine(line: Text, rest: Text)
    requires NEWLINE !in line
    ensures Split(line + ([NEWLINE] + rest)) == [line] + Split(rest)
  {
    var t := line + ([NEWLINE] + rest);
    if line == [] {
      assert t[0] == NEWLINE && t[1..] == rest;
    } else {
      assert t[1..] == line[1..] + ([NEWLINE] + rest) && t[0] == line[0];
      SplitLine(line[1..], rest);
      assert [line[0]] + line[1..] == line && ([line[1..]] + Split(rest))[1..] == Split(rest);
    }
  }

  lemma {:induction false} EscapeNewline(t: Text)
    ensures NEWLINE !in Escape(t)
  {
    if t != [] {
      EscapeNewline(t[1..]);
      assert NEWLINE !in EscapeChar(t[0]);
    }
  }

  lemma {:induction false} FieldsNewline(cells: seq<Option<Text>>)
    ensures NEWLINE !in Fields(cells)
  {
    if cells != [] {
      var last := cells[|cells| - 1];
      FieldsNewline(cells[..|cells| - 1]);
      EscapeNewline(Content(last));
      assert NEWLINE !in Field(last);
    }
  }

  function Texts(rows: seq<Line>): seq<Text> {
    if rows == [] then [] else [Row(rows[0].refdes, rows[0].cells)] + Texts(rows[1..])
  }

  /** Newlines in a text, and so how many lines it has. */
  function Newlines(t: Text): nat {
    if t == [] then 0 else (if t[0] == NEWLINE then 1 else 0) + Newlines(t[1..])
  }

  lemma {:induction false} NewlinesAppend(a: Text, b: Text)
    ensures Newlines(a + b) == Newlines(a) + Newlines(b)
  {
    if a == [] {
      assert a + b == b;
    } else {
      assert (a + b)[1..] == a[1..] + b;
      NewlinesAppend(a[1..], b);
    }
  }

  lemma {:induction false} NewlinesNone(t: Text)
    ensures Newlines(t) == 0 <==> NEWLINE !in t
  {
    if t != [] {
      NewlinesNone(t[1..]);
      assert t == [t[0]] + t[1..];
    }
  }

  lemma {:induction false} SplitCount(t: Text)
    requires t == [] || t[|t| - 1] == NEWLINE
    ensures |Split(t)| == Newlines(t)
  {
    if t != [] {
      assert t[1..] == [] || t[1..][|t| - 2] == NEWLINE;
      SplitCount(t[1..]);
      if t[0] != NEWLINE {
        NewlinesNone(t[1..]);
        assert t[1..][|t| - 2] == NEWLINE;
      }
    }
  }

  lemma RowNewlines(line: Line)
    ensures Newlines(Row(line.refdes, line.cells)) == Newlines(line.refdes)
  {
    NewlinesAppend(line.refdes, Fields(line.cells));
    FieldsNewline(line.cells);
    NewlinesNone(Fields(line.cells));
  }

  ghost predicate NoneHas(rows: seq<Line>, c: Char) {
    forall i :: 0 <= i < |rows| ==> c !in rows[i].refdes
  }

  lemma {:induction false} TableCount(rows: seq<Line>)
    ensures Newlines(Table(rows)) >= |rows|
    ensures Newlines(Table(rows)) == |rows| <==> NoneHas(rows, NEWLINE)
    ensures Table(rows) == [] || Table(rows)[|Table(rows)| - 1] == NEWLINE
  {
    if rows != [] {
      TableCount(rows[1..]);
      RowNewlines(rows[0]);
      NewlinesNone(rows[0].refdes);
      var row := Row(rows[0].refdes, rows[0].cells);
      NewlinesAppend(row, [NEWLINE] + Table(rows[1..]));
      NewlinesAppend([NEWLINE], Table(rows[1..]));
      assert [NEWLINE][1..] == [];
      assert Newlines([NEWLINE]) == 1;
      assert NoneHas(rows, NEWLINE) <==> NEWLINE !in rows[0].refdes && NoneHas(rows[1..], NEWLINE);
    }
  }

  lemma {:induction false} TableSplits(rows: seq<Line>)
    requires NoneHas(rows, NEWLINE)
    ensures Split(Table(rows)) == Texts(rows)
  {
    if rows != [] {
      assert NoneHas(rows[1..], NEWLINE);
      TableSplits(rows[1..]);
      FieldsNewline(rows[0].cells);
      SplitLine(Row(rows[0].refdes, rows[0].cells), Table(rows[1..]));
    }
  }

  function ReadLines(lines: seq<Text>): Option<seq<(Text, seq<Text>)>> {
    if lines == [] then Some([])
    else
      var row, rest := ReadRow(lines[0]), ReadLines(lines[1..]);
      if row.None? || rest.None? then None else Some([row.value] + rest.value)
  }

  /** A spreadsheet's way of reading a table: line by line. */
  function ReadTable(t: Text): Option<seq<(Text, seq<Text>)>> {
    ReadLines(Split(t))
  }

  function TableContents(rows: seq<Line>): seq<(Text, seq<Text>)> {
    if rows == [] then [] else [(rows[0].refdes, Contents(rows[0].cells))] + TableContents(rows[1..])
  }

  lemma {:induction false} ReadLinesCount(lines: seq<Text>)
    ensures ReadLines(lines).Some? ==> |ReadLines(lines).value| == |lines|
  {
    if lines != [] {
      ReadLinesCount(lines[1..]);
    }
  }

  lemma {:induction false} ContentsCount(rows: seq<Line>)
    ensures |TableContents(rows)| == |rows|
  {
    if rows != [] {
      ContentsCount(rows[1..]);
    }
  }

  lemma {:induction false} LinesRead(rows: seq<Line>)
    requires forall i :: 0 <= i < |rows| ==> rows[i].cells != []
    ensures ReadLines(Texts(rows)) == Some(TableContents(rows)) <==> NoneHas(rows, COMMA)
  {
    if rows != [] {
      var row, rest := rows[0], rows[1..];
      LinesRead(rest);
      ReadsExactly(row.refdes, row.cells);
      LinesStep(Row(row.refdes, row.cells), Texts(rest), (row.refdes, Contents(row.cells)), TableContents(rest));
      assert NoneHas(rows, COMMA) <==> COMMA !in row.refdes && NoneHas(rest, COMMA);
    }
  }

  lemma LinesStep(line: Text, lines: seq<Text>, row: (Text, seq<Text>), rows: seq<(Text, seq<Text>)>)
    ensures ReadLines([line] + lines) == Some([row] + rows) <==>
      ReadRow(line) == Some(row) && ReadLines(lines) == Some(rows)
  {
    var all := [line] + lines;
    assert all[0] == line && all[1..] == lines;
    var r := ReadLines(all);
    if r.Some? && ReadRow(line).Some? && ReadLines(lines).Some? {
      assert r.value[0] == ReadRow(line).value && r.value[1..] == ReadLines(lines).value;
      assert ([row] + rows)[0] == row && ([row] + rows)[1..] == rows;
    }
  }

  /** A table reads back exactly when no refdes has a comma or a newline. */
  lemma TableExactly(rows: seq<Line>)
    requires forall i :: 0 <= i < |rows| ==> rows[i].cells != []
    ensures ReadTable(Table(rows)) == Some(TableContents(rows)) <==> NoneHas(rows, COMMA) && NoneHas(rows, NEWLINE)
  {
    if NoneHas(rows, NEWLINE) {
      TableSplits(rows);
      LinesRead(rows);
    } else {
      TableCount(rows);
      SplitCount(Table(rows));
      ReadLinesCount(Split(Table(rows)));
      ContentsCount(rows);
    }
  }
}
