/** The cursor-moving JSON reader of gattrib, proved against the functional reader. */
module JsonParser {
  import opened JsonSyntax
  import opened JsonReader
  import opened JsonExact
  import opened Sequences
  import opened Wrappers

  datatype Error = Error(at: nat, message: string)

  const EXPECTED_STRING := "expected string"

  /** A second code unit that completes a surrogate pair is written at the start of t. */
  predicate LowNext(t: Bytes) {
    |t| >= 6 && t[0] == BACKSLASH && t[1] == 117 && WfItem(Hex(t[2..6])) && IsLow(HexValue(t[2..6]))
  }

  /** An escape that cannot be read is written at the start of t. */
  predicate BadEscapeNext(t: Bytes) {
    |t| >= 6 && t[0] == BACKSLASH && t[1] == 117 && !WfItem(Hex(t[2..6]))
  }

  /** Reading s amounts to `out` followed by reading t. */
  ghost predicate Continues(s: Bytes, out: Bytes, t: Bytes) {
    var (r, q) := (ReadItems(s), ReadItems(t));
    && (r.Ok? <==> q.Ok?)
    && (r.Ok? ==> r.rest == q.rest && Decode(r.value) == out + Decode(q.value))
  }

  lemma ContinuesStep(s: Bytes, out: Bytes, t: Bytes, more: Bytes, u: Bytes)
    requires Continues(s, out, t) && Continues(t, more, u)
    ensures Continues(s, out + more, u)
  {
    if ReadItems(u).Ok? {
      assert out + (more + Decode(ReadItems(u).value)) == out + more + Decode(ReadItems(u).value);
    }
  }

  lemma SingleStep(s: Bytes, i: Item, n: nat)
    requires 0 < n <= |s| && WfItem(i) && ReadItems(s) == Prepend(i, ReadItems(s[n..]))
    requires i.Hex? && IsHigh(HexValue(i.digits)) ==> !LowNext(s[n..])
    ensures Continues(s, DecodeItem(i), s[n..])
  {
    var q := ReadItems(s[n..]);
    if q.Ok? {
      var all := [i] + q.value;
      assert all[1..] == q.value;
      if IsPair(all) {
        assert all[1] == q.value[0];
        FirstHex(s[n..]);
      }
    }
  }

  lemma NotNamed(s: Bytes, n: nat)
    requires n <= |s| && !(NAN <= s) && !(INFINITY <= s) && !(MINUS_INFINITY <= s)
    ensures NumberMeaning(s[..n]) == JNumber(s[..n])
  {
    assert s[..n] <= s;
  }

  lemma FirstHex(t: Bytes)
    requires ReadItems(t).Ok? && ReadItems(t).value != [] && ReadItems(t).value[0].Hex?
    ensures |t| >= 6 && t[0] == BACKSLASH && t[1] == 117 && ReadItems(t).value[0] == Hex(t[2..6]) &&
      WfItem(Hex(t[2..6]))
  {
  }

  lemma PairStep(s: Bytes, high: Bytes)
    requires |s| >= 6 && s[0] == BACKSLASH && s[1] == 117 && high == s[2..6]
    requires WfItem(Hex(high)) && IsHigh(HexValue(high)) && LowNext(s[6..])
    ensures Continues(s, Utf8(Combine(HexValue(high), HexValue(s[6..][2..6]))), s[12..])
  {
    var t := s[6..];
    assert t[6..] == s[12..];
    var q := ReadItems(s[12..]);
    if q.Ok? {
      var low := t[2..6];
      var all := [Hex(high)] + ([Hex(low)] + q.value);
      assert ReadItems(t) == Prepend(Hex(low), q);
      assert ReadItems(s) == Prepend(Hex(high), ReadItems(t));
      assert all[0] == Hex(high) && all[1] == Hex(low) && all[2..] == q.value;
    }
  }

  class Parser {
    const text: Bytes
    const accepts: Bytes -> bool
    var p: nat
    var depth: nat
    var error: Option<Error>

    constructor (text: Bytes, accepts: Bytes -> bool)
      ensures this.text == text && this.accepts == accepts && p == 0 && depth == 0 && error == None
    {
      this.text, this.accepts, p, depth, error := text, accepts, 0, 0, None;
    }

    ghost predicate Ready()
      reads this
    {
      p <= |text| && error == None
    }

    /** What is still to be read. */
    ghost function Left(): Bytes
      requires p <= |text|
      reads this
    {
      text[p..]
    }

    /** parse_fail: only the first failure is recorded. */
    method Fail(message: string)
      modifies this`error
      ensures error == if old(error) == None then Some(Error(p, message)) else old(error)
    {
      if error == None {
        error := Some(Error(p, message));
      }
    }

    method SkipWs()
      requires p <= |text|
      modifies this`p
      ensures p <= |text| && Left() == SkipSpace(old(Left())) && old(p) <= p
    {
      while p < |text|
        invariant old(p) <= p <= |text|
        invariant SkipSpace(old(Left())) == SkipSpace(text[p..])
      {
        if !IsSpace(text[p]) {
          break;
        }
        assert text[p..][1..] == text[p + 1..];
        p := p + 1;
      }
    }

    predicate Peek(c: Byte)
      requires p <= |text|
      reads this`p
      ensures Peek(c) <==> StartsWith(text[p..], c)
    {
      p < |text| && text[p] == c
    }

    method MatchLiteral(lit: Bytes) returns (ok: bool)
      requires p <= |text|
      modifies this`p
      ensures p <= |text| && (ok <==> lit <= old(Left()))
      ensures p == if ok then old(p) + |lit| else old(p)
      ensures ok ==> Left() == old(Left())[|lit|..]
    {
      if |text| - p < |lit| || text[p..p + |lit|] != lit {
        assert |text| - p >= |lit| ==> text[p..][..|lit|] == text[p..p + |lit|];
        return false;
      }
      assert text[p..][..|lit|] == lit;
      p := p + |lit|;
      return true;
    }

    /** parse_hex4. */
    method ParseHex4() returns (ok: bool, v: nat)
      requires p <= |text|
      modifies this`p, this`error
      ensures old(p) <= p <= |text|
      ensures ok <==> |old(Left())| >= 4 && WfItem(Hex(old(Left())[..4]))
      ensures ok ==> p == old(p) + 4 && v == HexValue(old(Left())[..4]) && error == old(error)
      ensures !ok ==> error != None
    {
      v := 0;
      if |text| - p < 4 {
        Fail("truncated \\u escape");
        return false, 0;
      }
      ghost var d := old(Left())[..4];
      assert d == text[p..p + 4];
      var i := 0;
      while i < 4
        invariant i <= 4 && p == old(p) + i && error == old(error)
        invariant forall k :: 0 <= k < i ==> IsHexDigit(d[k])
        invariant v == HexPrefix(d, i)
      {
        var c := text[p];
        p := p + 1;
        v := v * 16;
        if 48 <= c <= 57 {
          v := v + (c - 48);
        } else if 97 <= c <= 102 {
          v := v + (c - 97 + 10);
        } else if 65 <= c <= 70 {
          v := v + (c - 65 + 10);
        } else {
          Fail("bad digit in \\u escape");
          assert !IsHexDigit(d[i]);
          return false, 0;
        }
        i := i + 1;
      }
      HexPrefixAll(d);
      return true, v;
    }

    /** The `\u` case of parse_string_raw, with its lookahead for the second half of a surrogate pair.
        A lookahead that fails leaves its error recorded, and what it tripped over is still to come. */
    method ParseUnicode(ghost s: Bytes) returns (ok: bool, bytes: Bytes)
      requires 2 <= p <= |text| && s == text[p - 2..] && s[0] == BACKSLASH && s[1] == 117
      requires error != None ==> BadEscapeNext(s)
      modifies this`p, this`error
      ensures old(p) <= p <= |text|
      ensures ok ==> p > old(p) && Continues(s, bytes, Left()) && (error != None ==> BadEscapeNext(Left()))
      ensures !ok ==> ReadItems(s).Fail? && error != None
    {
      var cp;
      assert s[2..] == Left();
      ok, cp := ParseHex4();
      if !ok {
        return false, [];
      }
      assert s[2..][..4] == s[2..6] && s[6..] == Left();
      if IsHigh(cp) && |text| - p >= 6 && text[p] == BACKSLASH && text[p + 1] == 117 {
        var saved := p;
        p := p + 2;
        assert Left()[..4] == s[6..][2..6];
        var ok2, lo := ParseHex4();
        if ok2 && IsLow(lo) {
          PairStep(s, s[2..6]);
          assert s[12..] == Left();
          return true, Utf8(Combine(cp, lo));
        }
        p := saved;
      }
      SingleStep(s, Hex(s[2..6]), 6);
      return true, Utf8(cp);
    }

    /** The switch of parse_string_raw on the character after a backslash. */
    method ParseEscape(ghost s: Bytes) returns (ok: bool, bytes: Bytes)
      requires 1 <= p < |text| && s == text[p - 1..] && s[0] == BACKSLASH
      requires error != None ==> BadEscapeNext(s)
      modifies this`p, this`error
      ensures old(p) <= p <= |text|
      ensures ok ==> p > old(p) && Continues(s, bytes, Left()) && (error != None ==> BadEscapeNext(Left()))
      ensures !ok ==> ReadItems(s).Fail? && error != None
    {
      var c := text[p];
      p := p + 1;
      assert text[p..] == s[2..];
      if c == 117 {
        ok, bytes := ParseUnicode(s);
      } else if IsSimpleEscape(c) {
        SingleStep(s, Escape(c), 2);
        return true, [EscapeValue(c)];
      } else {
        Fail("unknown escape sequence");
        return false, [];
      }
    }

    /** parse_string_raw. */
    method ParseString() returns (r: Option<Bytes>)
      requires Ready()
      modifies this`p, this`error
      ensures old(p) <= p <= |text|
      ensures r != None <==> ReadString(old(Left())).Ok?
      ensures r != None ==> var q := ReadString(old(Left()));
        r == Some(Text(q.value)) && Left() == q.rest && error == None
      ensures r == None ==> error != None
    {
      if !Peek(QUOTE) {
        Fail(EXPECTED_STRING);
        return None;
      }
      p := p + 1;
      ghost var s0 := Left();
      assert s0 == old(Left())[1..];
      var out: Bytes := [];
      while p < |text|
        invariant old(p) < p <= |text|
        invariant Continues(s0, out, text[p..])
        invariant error != None ==> BadEscapeNext(text[p..])
        decreases |text| - p
      {
        ghost var s := text[p..];
        var c := text[p];
        p := p + 1;
        if c == QUOTE {
          assert text[p..] == s[1..] && out + [] == out;
          return Some(CStr(out));
        }
        if c != BACKSLASH {
          assert text[p..] == s[1..];
          SingleStep(s, Raw(c), 1);
          ContinuesStep(s0, out, s, [c], text[p..]);
          out := out + [c];
          continue;
        }
        if p >= |text| {
          break;
        }
        var ok, bytes := ParseEscape(s);
        if !ok {
          return None;
        }
        ContinuesStep(s0, out, s, bytes, text[p..]);
        out := out + bytes;
      }
      Fail("unterminated string");
      return None;
    }

    /** parse_number. */
    method ParseNumber() returns (node: Option<Json>)
      requires Ready()
      modifies this`p, this`error
      ensures old(p) <= p <= |text|
      ensures Gives(node, error, ReadNumber(accepts, old(Left())), p, text)
    {
      var named := MatchLiteral(NAN);
      if named {
        return Some(JNaN);
      }
      named := MatchLiteral(MINUS_INFINITY);
      if named {
        return Some(JInfinity(true));
      }
      named := MatchLiteral(INFINITY);
      if named {
        return Some(JInfinity(false));
      }
      node := ParseNumberRun();
    }

    /** Moves over the number characters and returns them. */
    method TakeRun() returns (run: Bytes)
      requires p <= |text|
      modifies this`p
      ensures old(p) <= p <= |text| && |run| == p - old(p) == RunLength(old(Left()))
      ensures run == old(Left())[..|run|] && Left() == old(Left())[|run|..]
    {
      var begin := p;
      while p < |text| && IsNumberChar(text[p])
        invariant begin <= p <= |text|
        invariant RunLength(text[begin..]) == p - begin + RunLength(text[p..])
      {
        assert text[p..][1..] == text[p + 1..];
        p := p + 1;
      }
      run := text[begin..p];
    }

    /** The longest run of number characters, which the decoder must take whole. */
    method ParseNumberRun() returns (node: Option<Json>)
      requires Ready() && !(NAN <= Left()) && !(INFINITY <= Left()) && !(MINUS_INFINITY <= Left())
      modifies this`p, this`error
      ensures old(p) <= p <= |text|
      ensures Gives(node, error, ReadNumber(accepts, old(Left())), p, text)
    {
      var begin := p;
      ghost var s := Left();
      var digits := TakeRun();
      if p == begin {
        Fail("expected number");
        return None;
      }
      if !accepts(digits) {
        Fail("malformed number");
        return None;
      }
      NotNamed(s, |digits|);
      return Some(JNumber(digits));
    }

    /** parse_array, just after parse_value has counted the new container. */
    method ParseArray() returns (node: Option<Json>)
      requires Ready() && p < |text| && text[p] == LBRACKET && depth > 0
      modifies this
      ensures old(p) <= p <= |text| && depth == old(depth)
      ensures Gives(node, error, ReadValue(accepts, old(Left()), old(depth) - 1), p, text)
      decreases |text| - p, 1
    {
      p := p + 1;
      ghost var s := Left();
      assert s == old(Left())[1..];
      SkipWs();
      if Peek(RBRACKET) {
        p := p + 1;
        return Some(JArray([]));
      }
      ghost var t := Left();
      var items := ParseElems();
      ArrayDone(accepts, old(Left()), t, depth, items, error, p, text);
      node := if items == None then None else Some(JArray(items.value));
    }

    /** The element loop of parse_array. */
    method ParseElems() returns (items: Option<seq<Json>>)
      requires Ready()
      modifies this
      ensures old(p) <= p <= |text| && depth == old(depth)
      ensures GivesElems(items, error, ReadElems(accepts, old(Left()), old(depth)), p, text)
      decreases |text| - p, 5
    {
      ghost var s := Left();
      var found: seq<Json> := [];
      while true
        invariant old(p) <= p <= |text| && error == None && depth == old(depth)
        invariant ElemsContinue(accepts, s, found, text[p..], depth)
        decreases |text| - p
      {
        var item, more := ParseElem(s, found);
        if item == None {
          return None;
        }
        found := found + [item.value];
        if !more {
          return Some(found);
        }
      }
    }

    /** One turn of the element loop: a value and the comma or bracket after it. */
    method ParseElem(ghost s: Bytes, ghost found: seq<Json>) returns (item: Option<Json>, more: bool)
      requires Ready() && ElemsContinue(accepts, s, found, Left(), depth)
      modifies this
      ensures old(p) <= p <= |text| && depth == old(depth)
      ensures item == None ==> error != None && ReadElems(accepts, s, depth).Fail?
      ensures item != None ==> error == None && old(p) < p
      ensures item != None && more ==> ElemsContinue(accepts, s, found + [item.value], Left(), depth)
      ensures item != None && !more ==>
        GivesElems(Some(found + [item.value]), error, ReadElems(accepts, s, depth), p, text)
      decreases |text| - p, 4
    {
      ghost var t := Left();
      item := ParseValue();
      if item == None {
        ElemsNone(accepts, s, found, t, t, depth);
        return None, false;
      }
      SkipWs();
      assert ElemRead(accepts, t, item.value, Left(), depth);
      var ok;
      ok, more := EndElem(s, found, t, item.value);
      if !ok {
        item := None;
      }
    }

    /** The comma or bracket after an element. */
    method EndElem(ghost s: Bytes, ghost found: seq<Json>, ghost t: Bytes, ghost item: Json)
      returns (ok: bool, more: bool)
      requires Ready() && ElemsContinue(accepts, s, found, t, depth)
      requires ElemRead(accepts, t, item, Left(), depth)
      modifies this`p, this`error
      ensures old(p) <= p <= |text|
      ensures if ok then error == None else error != None && ReadElems(accepts, s, depth).Fail?
      ensures ok && more ==> ElemsContinue(accepts, s, found + [item], Left(), depth)
      ensures ok && !more ==> GivesElems(Some(found + [item]), error, ReadElems(accepts, s, depth), p, text)
    {
      ghost var u := Left();
      if Peek(COMMA) {
        p := p + 1;
        assert Left() == u[1..];
        ElemsMore(accepts, s, found, t, item, u, depth);
        return true, true;
      }
      if Peek(RBRACKET) {
        p := p + 1;
        assert Left() == u[1..];
        ElemsLast(accepts, s, found, t, item, u, depth);
        return true, false;
      }
      Fail("expected ',' or ']' in array");
      ElemsNone(accepts, s, found, t, u, depth);
      return false, false;
    }

    /** parse_object, just after parse_value has counted the new container. */
    method ParseObject() returns (node: Option<Json>)
      requires Ready() && p < |text| && text[p] == LBRACE && depth > 0
      modifies this
      ensures old(p) <= p <= |text| && depth == old(depth)
      ensures Gives(node, error, ReadValue(accepts, old(Left()), old(depth) - 1), p, text)
      decreases |text| - p, 1
    {
      p := p + 1;
      ghost var s := Left();
      assert s == old(Left())[1..];
      SkipWs();
      if Peek(RBRACE) {
        p := p + 1;
        return Some(JObject(map[]));
      }
      ghost var t := Left();
      var members := ParseMembers();
      ObjectDone(accepts, old(Left()), t, depth, members, error, p, text);
      node := if members == None then None else Some(JObject(members.value));
    }

    /** The member loop of parse_object. */
    method ParseMembers() returns (members: Option<map<Bytes, Json>>)
      requires Ready()
      modifies this
      ensures old(p) <= p <= |text| && depth == old(depth)
      ensures GivesMembers(members, error, ReadMembers(accepts, old(Left()), old(depth)), p, text)
      decreases |text| - p, 6
    {
      ghost var s := Left();
      var found: map<Bytes, Json> := map[];
      while true
        invariant old(p) <= p <= |text| && error == None && depth == old(depth)
        invariant MembersContinue(accepts, s, found, text[p..], depth)
        decreases |text| - p
      {
        var key, value, more := ParseMemberTurn(s, found);
        if value == None {
          return None;
        }
        found := found[key := value.value];
        if !more {
          return Some(found);
        }
      }
    }

    /** One turn of the member loop: a member and the comma or brace after it. */
    method ParseMemberTurn(ghost s: Bytes, ghost found: map<Bytes, Json>)
      returns (key: Bytes, value: Option<Json>, more: bool)
      requires Ready() && MembersContinue(accepts, s, found, Left(), depth)
      modifies this
      ensures old(p) <= p <= |text| && depth == old(depth)
      ensures value == None ==> error != None && ReadMembers(accepts, s, depth).Fail?
      ensures value != None ==> error == None && old(p) < p
      ensures value != None && more ==> MembersContinue(accepts, s, found[key := value.value], Left(), depth)
      ensures value != None && !more ==>
        GivesMembers(Some(found[key := value.value]), error, ReadMembers(accepts, s, depth), p, text)
      decreases |text| - p, 5
    {
      ghost var t := Left();
      key, value := ParseMember();
      if value == None {
        MembersNone(accepts, s, found, t, t, depth);
        return key, None, false;
      }
      assert MemberRead(accepts, t, key, value.value, Left(), depth);
      var ok;
      ok, more := EndMember(s, found, t, key, value.value);
      if !ok {
        value := None;
      }
    }

    /** The comma or brace after a member. */
    method EndMember(ghost s: Bytes, ghost found: map<Bytes, Json>, ghost t: Bytes, ghost key: Bytes, ghost value: Json)
      returns (ok: bool, more: bool)
      requires Ready() && MembersContinue(accepts, s, found, t, depth)
      requires MemberRead(accepts, t, key, value, Left(), depth)
      modifies this`p, this`error
      ensures old(p) <= p <= |text|
      ensures if ok then error == None else error != None && ReadMembers(accepts, s, depth).Fail?
      ensures ok && more ==> MembersContinue(accepts, s, found[key := value], Left(), depth)
      ensures ok && !more ==> GivesMembers(Some(found[key := value]), error, ReadMembers(accepts, s, depth), p, text)
    {
      ghost var u := Left();
      if Peek(COMMA) {
        p := p + 1;
        assert Left() == u[1..];
        MembersMore(accepts, s, found, t, u, key, value, depth);
        return true, true;
      }
      if Peek(RBRACE) {
        p := p + 1;
        assert Left() == u[1..];
        MembersLast(accepts, s, found, t, u, key, value, depth);
        return true, false;
      }
      Fail("expected ',' or '}' in object");
      MembersNone(accepts, s, found, t, u, depth);
      return false, false;
    }

    /** The part of the member loop from the key to the white space after the value. */
    method ParseMember() returns (key: Bytes, value: Option<Json>)
      requires Ready()
      modifies this
      ensures old(p) <= p <= |text| && depth == old(depth)
      ensures GivesMember(key, value, error, ReadMember(accepts, old(Left()), old(depth)), p, text)
      ensures value != None ==> p > old(p)
      decreases |text| - p, 4
    {
      var k := ParseKey();
      if k == None {
        return [], None;
      }
      key := k.value;
      value := ParseValue();
      if value != None {
        SkipWs();
      }
    }

    /** The key of a member and the colon after it. */
    method ParseKey() returns (key: Option<Bytes>)
      requires Ready()
      modifies this`p, this`error
      ensures old(p) <= p <= |text| && (key != None ==> old(p) < p)
      ensures Outcome(key.Some?, error, ReadKey(old(Left())), p, text)
      ensures key != None ==> key == Some(Text(ReadKey(old(Left())).value))
    {
      SkipWs();
      ghost var q := Left();
      key := ParseString();
      if key != None {
        ghost var k := ReadString(q);
        assert Left() == k.rest && key == Some(Text(k.value));
        SkipWs();
        KeyRead(old(Left()), q, k, Left());
        var ok := TakeColon();
        key := if ok then key else None;
      }
    }

    /** The colon between a key and its value. */
    method TakeColon() returns (ok: bool)
      requires Ready()
      modifies this`p, this`error
      ensures ok == StartsWith(old(Left()), COLON) && old(p) <= p <= |text| && (ok ==> old(p) < p)
      ensures if ok then error == None && Left() == old(Left())[1..] else error != None
    {
      ok := Peek(COLON);
      if !ok {
        Fail("expected ':' in object");
        return;
      }
      p := p + 1;
    }

    /** parse_value. */
    method ParseValue() returns (node: Option<Json>)
      requires Ready()
      modifies this
      ensures old(p) <= p <= |text| && depth == old(depth)
      ensures GivesTree(node, error, ReadTree(accepts, old(Left()), old(depth)), p, text)
      ensures node != None ==> p > old(p)
      decreases |text| - p, 3
    {
      SkipWs();
      if p >= |text| {
        Fail("unexpected end of input");
        return None;
      }
      if depth >= MAX_DEPTH {
        Fail("nesting too deep");
        return None;
      }
      node := ParseToken();
    }

    /** The switch of parse_value on the first character. */
    method ParseToken() returns (node: Option<Json>)
      requires Ready() && p < |text|
      modifies this
      ensures old(p) <= p <= |text| && depth == old(depth)
      ensures Gives(node, error, ReadValue(accepts, old(Left()), old(depth)), p, text)
      decreases |text| - p, 2
    {
      var c := text[p];
      if c == LBRACE {
        depth := depth + 1;
        node := ParseObject();
        depth := depth - 1;
        return;
      }
      if c == LBRACKET {
        depth := depth + 1;
        node := ParseArray();
        depth := depth - 1;
        return;
      }
      if c == QUOTE {
        var s := ParseString();
        return if s == None then None else Some(JString(s.value));
      }
      if c != 116 && c != 102 && c != 110 {
        node := ParseNumber();
        return;
      }
      node := ParseLiteral();
    }

    /** The cases t, f and n of the switch. */
    method ParseLiteral() returns (node: Option<Json>)
      requires Ready() && p < |text| && (text[p] == 116 || text[p] == 102 || text[p] == 110)
      modifies this`p, this`error
      ensures old(p) <= p <= |text|
      ensures Gives(node, error, ReadValue(accepts, old(Left()), depth), p, text)
    {
      var ok := false;
      if text[p] == 116 {
        ok := MatchLiteral(TRUE);
        node := Some(JBool(true));
      } else if text[p] == 102 {
        ok := MatchLiteral(FALSE);
        node := Some(JBool(false));
      } else {
        ok := MatchLiteral(NULL);
        node := Some(JNull);
      }
      if !ok {
        Fail("unexpected token");
        return None;
      }
    }
  }

  ghost function ReadKey(s: Bytes): Result<seq<Item>> {
    var k := ReadString(SkipSpace(s));
    if k.Ok? && StartsWith(SkipSpace(k.rest), COLON) then Ok(k.value, SkipSpace(k.rest)[1..]) else Fail
  }

  lemma KeyRead(s: Bytes, q: Bytes, k: Result<seq<Item>>, c: Bytes)
    requires q == SkipSpace(s) && k == ReadString(q) && k.Ok? && c == SkipSpace(k.rest)
    ensures ReadKey(s) == if StartsWith(c, COLON) then Ok(k.value, c[1..]) else Fail
  {
  }

  // ---- what the parsing methods promise: a node with its meaning, the cursor on the rest and no error,
  // or no node and an error

  ghost predicate Outcome<T>(got: bool, error: Option<Error>, r: Result<T>, p: nat, text: Bytes) {
    && p <= |text|
    && (got <==> r.Ok?) && (got <==> error == None)
    && (got ==> text[p..] == r.rest)
  }

  ghost predicate Gives(node: Option<Json>, error: Option<Error>, r: Result<Value>, p: nat, text: Bytes) {
    Outcome(node.Some?, error, r, p, text) && (r.Ok? ==> node == Some(Meaning(r.value)))
  }

  ghost predicate GivesTree(node: Option<Json>, error: Option<Error>, r: Result<Tree>, p: nat, text: Bytes) {
    Outcome(node.Some?, error, r, p, text) && (r.Ok? ==> node == Some(Meaning(r.value.v)))
  }

  ghost predicate GivesElems(items: Option<seq<Json>>, error: Option<Error>, r: Result<Elems>, p: nat, text: Bytes) {
    Outcome(items.Some?, error, r, p, text) && (r.Ok? ==> items == Some(ElemsMeaning(r.value)))
  }

  ghost predicate GivesMember(key: Bytes, value: Option<Json>, error: Option<Error>, r: Result<Member>,
                              p: nat, text: Bytes) {
    && Outcome(value.Some?, error, r, p, text)
    && (r.Ok? ==> key == Text(r.value.key) && value == Some(Meaning(r.value.t.v)))
  }

  ghost predicate GivesMembers(members: Option<map<Bytes, Json>>, error: Option<Error>, r: Result<Members>,
                               p: nat, text: Bytes) {
    Outcome(members.Some?, error, r, p, text) && (r.Ok? ==> members == Some(MembersMeaning(r.value)))
  }

  // ---- loops over elements and members

  /** Reading the elements at s amounts to `items` followed by the elements at t. */
  ghost predicate ElemsContinue(accepts: Bytes -> bool, s: Bytes, items: seq<Json>, t: Bytes, depth: nat) {
    var (r, q) := (ReadElems(accepts, s, depth), ReadElems(accepts, t, depth));
    && (r.Ok? <==> q.Ok?)
    && (r.Ok? ==> r.rest == q.rest && ElemsMeaning(r.value) == items + ElemsMeaning(q.value))
  }

  ghost predicate MembersContinue(accepts: Bytes -> bool, s: Bytes, members: map<Bytes, Json>, t: Bytes, depth: nat) {
    var (r, q) := (ReadMembers(accepts, s, depth), ReadMembers(accepts, t, depth));
    && (r.Ok? <==> q.Ok?)
    && (r.Ok? ==> r.rest == q.rest && MembersMeaning(r.value) == members + MembersMeaning(q.value))
  }

  lemma SkipTwice(s: Bytes)
    ensures SkipSpace(SkipSpace(s)) == SkipSpace(s)
  {
    assert SkipSpace(s) == [] || !IsSpace(SkipSpace(s)[0]);
    assert SpaceLength(SkipSpace(s)) == 0;
  }

  ghost predicate SameTree(r: Result<Tree>, q: Result<Tree>) {
    (r.Ok? <==> q.Ok?) && (r.Ok? ==> r.rest == q.rest && r.value.v == q.value.v)
  }

  lemma TreeAfterSpace(accepts: Bytes -> bool, s: Bytes, t: Bytes, depth: nat)
    requires SkipSpace(s) == SkipSpace(t)
    ensures SameTree(ReadTree(accepts, s, depth), ReadTree(accepts, t, depth))
  {
  }

  lemma ElemsSame(accepts: Bytes -> bool, s: Bytes, t: Bytes, depth: nat)
    requires SameTree(ReadTree(accepts, s, depth), ReadTree(accepts, t, depth))
    ensures ElemsContinue(accepts, s, [], t, depth)
  {
  }

  lemma ElemsAfterSpace(accepts: Bytes -> bool, s: Bytes, t: Bytes, depth: nat)
    requires t == SkipSpace(s)
    ensures ElemsContinue(accepts, s, [], t, depth)
  {
    SkipTwice(s);
    TreeAfterSpace(accepts, s, t, depth);
    ElemsSame(accepts, s, t, depth);
  }

  lemma ArrayDone(accepts: Bytes -> bool, s: Bytes, t: Bytes, depth: nat, items: Option<seq<Json>>,
                  error: Option<Error>, p: nat, text: Bytes)
    requires depth > 0 && s != [] && s[0] == LBRACKET && t == SkipSpace(s[1..]) && !StartsWith(t, RBRACKET)
    requires GivesElems(items, error, ReadElems(accepts, t, depth), p, text)
    ensures Gives(if items == None then None else Some(JArray(items.value)), error,
              ReadValue(accepts, s, depth - 1), p, text)
  {
    ElemsAfterSpace(accepts, s[1..], t, depth);
    var q := ReadElems(accepts, s[1..], depth);
    if q.Ok? {
      assert ReadValue(accepts, s, depth - 1) == Ok(Arr(q.value), q.rest);
      assert [] + items.value == items.value;
    }
  }

  ghost predicate SameMember(r: Result<Member>, q: Result<Member>) {
    (r.Ok? <==> q.Ok?) && (r.Ok? ==> r.rest == q.rest && r.value.key == q.value.key && r.value.t == q.value.t)
  }

  lemma MemberAfterSpace(accepts: Bytes -> bool, s: Bytes, t: Bytes, depth: nat)
    requires SkipSpace(s) == SkipSpace(t)
    ensures SameMember(ReadMember(accepts, s, depth), ReadMember(accepts, t, depth))
  {
  }

  lemma MembersSame(accepts: Bytes -> bool, s: Bytes, t: Bytes, depth: nat)
    requires SameMember(ReadMember(accepts, s, depth), ReadMember(accepts, t, depth))
    ensures MembersContinue(accepts, s, map[], t, depth)
  {
  }

  lemma MembersAfterSpace(accepts: Bytes -> bool, s: Bytes, t: Bytes, depth: nat)
    requires t == SkipSpace(s)
    ensures MembersContinue(accepts, s, map[], t, depth)
  {
    SkipTwice(s);
    MemberAfterSpace(accepts, s, t, depth);
    MembersSame(accepts, s, t, depth);
  }

  lemma ObjectDone(accepts: Bytes -> bool, s: Bytes, t: Bytes, depth: nat, members: Option<map<Bytes, Json>>,
                   error: Option<Error>, p: nat, text: Bytes)
    requires depth > 0 && s != [] && s[0] == LBRACE && t == SkipSpace(s[1..]) && !StartsWith(t, RBRACE)
    requires GivesMembers(members, error, ReadMembers(accepts, t, depth), p, text)
    ensures Gives(if members == None then None else Some(JObject(members.value)), error,
              ReadValue(accepts, s, depth - 1), p, text)
  {
    MembersAfterSpace(accepts, s[1..], t, depth);
    var q := ReadMembers(accepts, s[1..], depth);
    if q.Ok? {
      assert ReadValue(accepts, s, depth - 1) == Ok(Obj(q.value), q.rest);
      assert map[] + members.value == members.value;
    }
  }

  /** One element has been read at t; u is what comes after it and the white space behind it. */
  ghost predicate ElemRead(accepts: Bytes -> bool, t: Bytes, item: Json, u: Bytes, depth: nat) {
    var e := ReadTree(accepts, t, depth);
    e.Ok? && u == SkipSpace(e.rest) && item == Meaning(e.value.v)
  }

  lemma ElemsMore(accepts: Bytes -> bool, s: Bytes, items: seq<Json>, t: Bytes, item: Json, u: Bytes, depth: nat)
    requires ElemsContinue(accepts, s, items, t, depth)
    requires ElemRead(accepts, t, item, u, depth) && StartsWith(u, COMMA)
    ensures ElemsContinue(accepts, s, items + [item], u[1..], depth)
  {
    var e, q := ReadTree(accepts, t, depth), ReadElems(accepts, u[1..], depth);
    if q.Ok? {
      assert ReadElems(accepts, t, depth).value == MoreElems(e.value, Space(e.rest), q.value);
      Associative(items, [item], ElemsMeaning(q.value));
    } else {
      assert ReadElems(accepts, t, depth).Fail?;
    }
  }

  lemma ElemsLast(accepts: Bytes -> bool, s: Bytes, items: seq<Json>, t: Bytes, item: Json, u: Bytes, depth: nat)
    requires ElemsContinue(accepts, s, items, t, depth)
    requires ElemRead(accepts, t, item, u, depth) && StartsWith(u, RBRACKET)
    ensures var r := ReadElems(accepts, s, depth);
      r.Ok? && r.rest == u[1..] && ElemsMeaning(r.value) == items + [item]
  {
    var e := ReadTree(accepts, t, depth);
    assert ReadElems(accepts, t, depth) == Ok(LastElem(e.value, Space(e.rest)), u[1..]);
  }

  /** Nothing is read at t, or something that neither a comma nor a bracket follows. */
  lemma ElemsNone(accepts: Bytes -> bool, s: Bytes, items: seq<Json>, t: Bytes, u: Bytes, depth: nat)
    requires ElemsContinue(accepts, s, items, t, depth)
    requires var e := ReadTree(accepts, t, depth);
      e.Ok? ==> u == SkipSpace(e.rest) && !StartsWith(u, COMMA) && !StartsWith(u, RBRACKET)
    ensures ReadElems(accepts, s, depth).Fail?
  {
  }

  lemma MembersNone(accepts: Bytes -> bool, s: Bytes, members: map<Bytes, Json>, t: Bytes, u: Bytes, depth: nat)
    requires MembersContinue(accepts, s, members, t, depth)
    requires var m := ReadMember(accepts, t, depth);
      m.Ok? ==> u == m.rest && !StartsWith(u, COMMA) && !StartsWith(u, RBRACE)
    ensures ReadMembers(accepts, s, depth).Fail?
  {
  }

  /** One member has been read at t, leaving u. */
  ghost predicate MemberRead(accepts: Bytes -> bool, t: Bytes, key: Bytes, value: Json, u: Bytes, depth: nat) {
    var m := ReadMember(accepts, t, depth);
    m.Ok? && u == m.rest && key == Text(m.value.key) && value == Meaning(m.value.t.v)
  }

  lemma MembersMore(accepts: Bytes -> bool, s: Bytes, members: map<Bytes, Json>, t: Bytes, u: Bytes,
                    key: Bytes, value: Json, depth: nat)
    requires MembersContinue(accepts, s, members, t, depth)
    requires MemberRead(accepts, t, key, value, u, depth) && StartsWith(u, COMMA)
    ensures MembersContinue(accepts, s, members[key := value], u[1..], depth)
  {
    var m, q := ReadMember(accepts, t, depth), ReadMembers(accepts, u[1..], depth);
    if q.Ok? {
      assert ReadMembers(accepts, t, depth).value == MoreMembers(m.value, q.value);
      Override(members, key, value, MembersMeaning(q.value));
    } else {
      assert ReadMembers(accepts, t, depth).Fail?;
    }
  }

  lemma Override<K, V>(m: map<K, V>, k: K, v: V, n: map<K, V>)
    ensures m + (map[k := v] + n) == m[k := v] + n
  {
  }

  lemma MembersLast(accepts: Bytes -> bool, s: Bytes, members: map<Bytes, Json>, t: Bytes, u: Bytes,
                    key: Bytes, value: Json, depth: nat)
    requires MembersContinue(accepts, s, members, t, depth)
    requires MemberRead(accepts, t, key, value, u, depth) && StartsWith(u, RBRACE)
    ensures var r := ReadMembers(accepts, s, depth);
      r.Ok? && r.rest == u[1..] && MembersMeaning(r.value) == members[key := value]
  {
    var m := ReadMember(accepts, t, depth);
    assert ReadMembers(accepts, t, depth) == Ok(LastMember(m.value), u[1..]);
    Override(members, key, value, map[]);
  }

  /** gattrib_json_parse: exactly the texts of the grammar are accepted, the tree returned is what the text
      means, and an error is reported exactly when there is no tree. */
  method Parse(text: Bytes, accepts: Bytes -> bool) returns (root: Option<Json>, error: Option<Error>)
    ensures root != None <==>
      exists d :: text == PrintDocument(d) && WfDocument(accepts, d) && Fits(d.t.v, 0)
    ensures forall d :: text == PrintDocument(d) && WfDocument(accepts, d) && Fits(d.t.v, 0) ==>
      root == Some(Meaning(d.t.v))
    ensures error != None <==> root == None
  {
    var ps := new Parser(text, accepts);
    assert text[0..] == text;
    forall d: Document
      ensures ReadDocument(accepts, text) == Some(d) <==>
        text == PrintDocument(d) && WfDocument(accepts, d) && Fits(d.t.v, 0)
    {
      ReadExactly(accepts, text, d);
    }
    root := ps.ParseValue();
    if root != None {
      ps.SkipWs();
      if ps.p != |text| {
        ps.Fail("trailing data after document");
        root := None;
      }
    }
    error := ps.error;
    if root != None {
      var d := ReadDocument(accepts, text);
      assert d.Some? && text == PrintDocument(d.value) && WfDocument(accepts, d.value) && Fits(d.value.t.v, 0);
    }
  }

  /** Value of the first n digits. */
  function HexPrefix(d: Bytes, n: nat): nat
    requires n <= |d|
  {
    if n == 0 then 0 else HexPrefix(d, n - 1) * 16 + HexDigitValue(d[n - 1])
  }

  lemma HexPrefixAll(d: Bytes)
    requires |d| == 4
    ensures HexPrefix(d, 4) == HexValue(d)
  {
    assert HexPrefix(d, 1) == HexDigitValue(d[0]);
    assert HexPrefix(d, 2) == HexPrefix(d, 1) * 16 + HexDigitValue(d[1]);
    assert HexPrefix(d, 3) == HexPrefix(d, 2) * 16 + HexDigitValue(d[2]);
  }
}
