/** The reader as a function from the text still to be read to a syntax tree and what is left. */
module JsonReader {
  import opened JsonSyntax
  import opened Wrappers

  datatype Result<+T> = Fail | Ok(value: T, rest: Bytes)

  function SpaceLength(s: Bytes): (n: nat)
    ensures n <= |s| && Blank(s[..n]) && (n < |s| ==> !IsSpace(s[n]))
  {
    if s == [] || !IsSpace(s[0]) then 0
    else
      var n := SpaceLength(s[1..]);
      assert s[..n + 1] == [s[0]] + s[1..][..n];
      n + 1
  }

  function Space(s: Bytes): Bytes {
    s[..SpaceLength(s)]
  }

  function SkipSpace(s: Bytes): Bytes {
    s[SpaceLength(s)..]
  }

  function StartsWith(s: Bytes, c: Byte): bool {
    s != [] && s[0] == c
  }

  /** The items up to the closing quote. */
  function ReadItems(s: Bytes): (r: Result<seq<Item>>)
    ensures r.Ok? ==> |r.rest| < |s|
  {
    if s == [] then Fail
    else if s[0] == QUOTE then Ok([], s[1..])
    else if s[0] != BACKSLASH then Prepend(Raw(s[0]), ReadItems(s[1..]))
    else if |s| < 2 then Fail
    else if IsSimpleEscape(s[1]) then Prepend(Escape(s[1]), ReadItems(s[2..]))
    else if s[1] == 117 && |s| >= 6 && WfItem(Hex(s[2..6])) then Prepend(Hex(s[2..6]), ReadItems(s[6..]))
    else Fail
  }

  function Prepend<T>(x: T, r: Result<seq<T>>): Result<seq<T>> {
    if r.Ok? then Ok([x] + r.value, r.rest) else Fail
  }

  function ReadString(s: Bytes): (r: Result<seq<Item>>)
    ensures r.Ok? ==> |r.rest| < |s|
  {
    if StartsWith(s, QUOTE) then ReadItems(s[1..]) else Fail
  }

  function RunLength(s: Bytes): (n: nat)
    ensures n <= |s| && AllNumberChars(s[..n]) && (n < |s| ==> !IsNumberChar(s[n]))
  {
    if s == [] || !IsNumberChar(s[0]) then 0
    else
      var n := RunLength(s[1..]);
      assert s[..n + 1] == [s[0]] + s[1..][..n];
      n + 1
  }

  function ReadNumber(accepts: Bytes -> bool, s: Bytes): (r: Result<Value>)
    ensures r.Ok? ==> |r.rest| < |s|
  {
    if NAN <= s then Ok(Num(NAN), s[|NAN|..])
    else if MINUS_INFINITY <= s then Ok(Num(MINUS_INFINITY), s[|MINUS_INFINITY|..])
    else if INFINITY <= s then Ok(Num(INFINITY), s[|INFINITY|..])
    else
      var n := RunLength(s);
      if n == 0 || !accepts(s[..n]) then Fail else Ok(Num(s[..n]), s[n..])
  }

  function ReadLiteral(l: Literal, s: Bytes): (r: Result<Value>)
    ensures r.Ok? ==> |r.rest| < |s|
  {
    if PrintLiteral(l) <= s then Ok(Lit(l), s[|PrintLiteral(l)|..]) else Fail
  }

  function ReadTree(accepts: Bytes -> bool, s: Bytes, depth: nat): (r: Result<Tree>)
    ensures r.Ok? ==> |r.rest| < |s|
    decreases |s|, 1
  {
    var t := SkipSpace(s);
    if t == [] || depth >= MAX_DEPTH then Fail
    else
      var r := ReadValue(accepts, t, depth);
      if r.Ok? then Ok(Tree(Space(s), r.value), r.rest) else Fail
  }

  function ReadValue(accepts: Bytes -> bool, s: Bytes, depth: nat): (r: Result<Value>)
    requires s != []
    ensures r.Ok? ==> |r.rest| < |s|
    decreases |s|, 0
  {
    if s[0] == LBRACE then
      var t := SkipSpace(s[1..]);
      if StartsWith(t, RBRACE) then Ok(EmptyObj(Space(s[1..])), t[1..])
      else
        var r := ReadMembers(accepts, s[1..], depth + 1);
        if r.Ok? then Ok(Obj(r.value), r.rest) else Fail
    else if s[0] == LBRACKET then
      var t := SkipSpace(s[1..]);
      if StartsWith(t, RBRACKET) then Ok(EmptyArr(Space(s[1..])), t[1..])
      else
        var r := ReadElems(accepts, s[1..], depth + 1);
        if r.Ok? then Ok(Arr(r.value), r.rest) else Fail
    else if s[0] == QUOTE then
      var r := ReadString(s);
      if r.Ok? then Ok(Str(r.value), r.rest) else Fail
    else if s[0] == 116 then ReadLiteral(True, s)
    else if s[0] == 102 then ReadLiteral(False, s)
    else if s[0] == 110 then ReadLiteral(Null, s)
    else ReadNumber(accepts, s)
  }

  function ReadElems(accepts: Bytes -> bool, s: Bytes, depth: nat): (r: Result<Elems>)
    ensures r.Ok? ==> |r.rest| < |s|
    decreases |s|, 2
  {
    var e := ReadTree(accepts, s, depth);
    if e.Fail? then Fail
    else
      var after := Space(e.rest);
      var u := SkipSpace(e.rest);
      if StartsWith(u, COMMA) then
        var r := ReadElems(accepts, u[1..], depth);
        if r.Ok? then Ok(MoreElems(e.value, after, r.value), r.rest) else Fail
      else if StartsWith(u, RBRACKET) then Ok(LastElem(e.value, after), u[1..])
      else Fail
  }

  function ReadMember(accepts: Bytes -> bool, s: Bytes, depth: nat): (r: Result<Member>)
    ensures r.Ok? ==> |r.rest| < |s|
    decreases |s|, 2
  {
    var k := ReadString(SkipSpace(s));
    if k.Fail? then Fail
    else
      var c := SkipSpace(k.rest);
      if !StartsWith(c, COLON) then Fail
      else
        var e := ReadTree(accepts, c[1..], depth);
        if e.Fail? then Fail
        else Ok(Member(Space(s), k.value, Space(k.rest), e.value, Space(e.rest)), SkipSpace(e.rest))
  }

  function ReadMembers(accepts: Bytes -> bool, s: Bytes, depth: nat): (r: Result<Members>)
    ensures r.Ok? ==> |r.rest| < |s|
    decreases |s|, 3
  {
    var m := ReadMember(accepts, s, depth);
    if m.Fail? then Fail
    else if StartsWith(m.rest, COMMA) then
      var r := ReadMembers(accepts, m.rest[1..], depth);
      if r.Ok? then Ok(MoreMembers(m.value, r.value), r.rest) else Fail
    else if StartsWith(m.rest, RBRACE) then Ok(LastMember(m.value), m.rest[1..])
    else Fail
  }

  function ReadDocument(accepts: Bytes -> bool, s: Bytes): Option<Document> {
    var r := ReadTree(accepts, s, 0);
    if r.Fail? || SkipSpace(r.rest) != [] then None else Some(Document(r.value, r.rest))
  }
}
