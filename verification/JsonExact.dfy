/** The reader is exact: it accepts precisely the printed forms of well-formed, shallow enough trees. */
module JsonExact {
  import opened JsonSyntax
  import opened JsonReader
  import opened Wrappers

  // ---- what is read is well formed and prints back to what was there

  lemma {:induction false} ItemsSound(s: Bytes)
    requires ReadItems(s).Ok?
    ensures WfItems(ReadItems(s).value) && s == PrintItems(ReadItems(s).value, ReadItems(s).rest)
    decreases |s|, 1
  {
    if s[0] == QUOTE {
    } else if s[0] != BACKSLASH {
      ItemStepSound(s, Raw(s[0]), 1);
    } else if IsSimpleEscape(s[1]) {
      ItemStepSound(s, Escape(s[1]), 2);
    } else {
      ItemStepSound(s, Hex(s[2..6]), 6);
    }
  }

  lemma {:induction false} ItemStepSound(s: Bytes, i: Item, n: nat)
    requires 0 < n <= |s| && WfItem(i) && s[..n] == PrintItem(i)
    requires ReadItems(s[n..]).Ok?
    ensures var r := Prepend(i, ReadItems(s[n..]));
      WfItems(r.value) && s == PrintItems(r.value, r.rest)
    decreases |s|, 0
  {
    ItemsSound(s[n..]);
    var r := ReadItems(s[n..]);
    assert ([i] + r.value)[1..] == r.value;
    assert s == s[..n] + s[n..];
  }

  lemma NumberSound(accepts: Bytes -> bool, s: Bytes)
    requires s != [] && s[0] != 116 && s[0] != 102 && s[0] != 110 && ReadNumber(accepts, s).Ok?
    ensures var r := ReadNumber(accepts, s); WfValue(accepts, r.value) && s == PrintValue(r.value, r.rest)
  {
    var n := RunLength(s);
    if !(NAN <= s) && !(INFINITY <= s) && !(MINUS_INFINITY <= s) {
      assert s[..n] <= s;
    }
  }

  ghost predicate TreeSoundAt(accepts: Bytes -> bool, s: Bytes, depth: nat) {
    var r := ReadTree(accepts, s, depth);
    r.Ok? ==> WfTree(accepts, r.value) && Fits(r.value.v, depth) && s == PrintTree(r.value, r.rest)
  }

  lemma SpaceSplit(s: Bytes)
    ensures s == Space(s) + SkipSpace(s) && Blank(Space(s))
  {
  }

  lemma {:induction false} TreeSound(accepts: Bytes -> bool, s: Bytes, depth: nat)
    ensures TreeSoundAt(accepts, s, depth)
    decreases |s|, 2
  {
    var r := ReadTree(accepts, s, depth);
    if r.Ok? {
      SpaceSplit(s);
      ValueSound(accepts, SkipSpace(s), depth);
    }
  }

  ghost predicate ValueSoundAt(accepts: Bytes -> bool, s: Bytes, depth: nat)
    requires s != []
  {
    var r := ReadValue(accepts, s, depth);
    r.Ok? ==> WfValue(accepts, r.value) && Fits(r.value, depth) && s == PrintValue(r.value, r.rest)
  }

  lemma {:induction false} ValueSound(accepts: Bytes -> bool, s: Bytes, depth: nat)
    requires s != [] && depth < MAX_DEPTH
    ensures ValueSoundAt(accepts, s, depth)
    decreases |s|, 1
  {
    if s[0] == LBRACE {
      ObjectSound(accepts, s, depth);
    } else if s[0] == LBRACKET {
      ArraySound(accepts, s, depth);
    } else {
      ScalarSound(accepts, s, depth);
    }
  }

  lemma {:induction false} ObjectSound(accepts: Bytes -> bool, s: Bytes, depth: nat)
    requires s != [] && s[0] == LBRACE && depth < MAX_DEPTH
    ensures ValueSoundAt(accepts, s, depth)
    decreases |s|, 0
  {
    var u := s[1..];
    if StartsWith(SkipSpace(u), RBRACE) {
      EmptyObjectSound(accepts, s, depth);
    } else if ReadMembers(accepts, u, depth + 1).Ok? {
      MembersSound(accepts, u, depth + 1);
      FullObjectSound(accepts, s, depth);
    }
  }

  lemma EmptyObjectSound(accepts: Bytes -> bool, s: Bytes, depth: nat)
    requires s != [] && s[0] == LBRACE && depth < MAX_DEPTH && StartsWith(SkipSpace(s[1..]), RBRACE)
    ensures ValueSoundAt(accepts, s, depth)
  {
    var u := s[1..];
    EmptyBodySound(u, RBRACE);
    assert s == [LBRACE] + u;
    assert s == PrintValue(EmptyObj(Space(u)), SkipSpace(u)[1..]);
  }

  lemma FullObjectSound(accepts: Bytes -> bool, s: Bytes, depth: nat)
    requires s != [] && s[0] == LBRACE && depth < MAX_DEPTH && !StartsWith(SkipSpace(s[1..]), RBRACE)
    requires var r := ReadMembers(accepts, s[1..], depth + 1);
      r.Ok? && MembersOk(accepts, r.value, depth + 1, s[1..], r.rest)
    ensures ValueSoundAt(accepts, s, depth)
  {
    var r := ReadMembers(accepts, s[1..], depth + 1);
    assert s == [LBRACE] + s[1..];
    assert ReadValue(accepts, s, depth) == Ok(Obj(r.value), r.rest);
    assert s == PrintValue(Obj(r.value), r.rest);
  }

  lemma {:induction false} ArraySound(accepts: Bytes -> bool, s: Bytes, depth: nat)
    requires s != [] && s[0] == LBRACKET && depth < MAX_DEPTH
    ensures ValueSoundAt(accepts, s, depth)
    decreases |s|, 0
  {
    var u := s[1..];
    assert s == [LBRACKET] + u;
    if StartsWith(SkipSpace(u), RBRACKET) {
      EmptyBodySound(u, RBRACKET);
      assert s == PrintValue(EmptyArr(Space(u)), SkipSpace(u)[1..]);
    } else {
      var r := ReadElems(accepts, u, depth + 1);
      if r.Ok? {
        ElemsSound(accepts, u, depth + 1);
        assert s == PrintValue(Arr(r.value), r.rest);
      }
    }
  }

  lemma EmptyBodySound(u: Bytes, c: Byte)
    requires StartsWith(SkipSpace(u), c)
    ensures Blank(Space(u)) && u == Space(u) + ([c] + SkipSpace(u)[1..])
  {
    SpaceSplit(u);
    assert SkipSpace(u) == [c] + SkipSpace(u)[1..];
  }

  lemma ScalarSound(accepts: Bytes -> bool, s: Bytes, depth: nat)
    requires s != [] && s[0] != LBRACE && s[0] != LBRACKET && depth < MAX_DEPTH
    ensures ValueSoundAt(accepts, s, depth)
  {
    if ReadValue(accepts, s, depth).Ok? {
      if s[0] == QUOTE {
        ItemsSound(s[1..]);
        assert s == [QUOTE] + s[1..];
      } else if s[0] != 116 && s[0] != 102 && s[0] != 110 {
        NumberSound(accepts, s);
      }
    }
  }

  lemma {:induction false} ElemsSound(accepts: Bytes -> bool, s: Bytes, depth: nat)
    requires ReadElems(accepts, s, depth).Ok?
    ensures var r := ReadElems(accepts, s, depth);
      WfElems(accepts, r.value) && FitsElems(r.value, depth) && s == PrintElems(r.value, r.rest)
    decreases |s|, 3
  {
    TreeSound(accepts, s, depth);
    var e := ReadTree(accepts, s, depth);
    SpaceSplit(e.rest);
    var u := SkipSpace(e.rest);
    assert u == [u[0]] + u[1..];
    if StartsWith(u, COMMA) {
      ElemsSound(accepts, u[1..], depth);
    }
  }

  /** A member printed piece by piece. */
  lemma MemberJoin(m: Member, s: Bytes, key: Bytes, colon: Bytes, tree: Bytes, after: Bytes, rest: Bytes)
    requires s == m.before + ([QUOTE] + key) && key == PrintItems(m.key, colon)
    requires colon == m.beforeColon + ([COLON] + tree) && tree == PrintTree(m.t, after)
    requires after == m.after + rest
    ensures s == PrintMember(m, rest)
  {
  }

  lemma QuotedKeySound(s: Bytes)
    requires ReadString(SkipSpace(s)).Ok?
    ensures var k, key := ReadString(SkipSpace(s)), SkipSpace(s)[1..];
      && Blank(Space(s)) && s == Space(s) + ([QUOTE] + key)
      && WfItems(k.value) && key == PrintItems(k.value, k.rest)
  {
    SpaceSplit(s);
    var q := SkipSpace(s);
    assert q == [QUOTE] + q[1..];
    ItemsSound(q[1..]);
  }

  lemma {:induction false} MemberSound(accepts: Bytes -> bool, s: Bytes, depth: nat)
    requires ReadMember(accepts, s, depth).Ok?
    ensures var r := ReadMember(accepts, s, depth);
      WfMember(accepts, r.value) && Fits(r.value.t.v, depth) && s == PrintMember(r.value, r.rest)
    decreases |s|, 3
  {
    var q := SkipSpace(s);
    var k := ReadString(q);
    var c := SkipSpace(k.rest);
    var e := ReadTree(accepts, c[1..], depth);
    QuotedKeySound(s);
    EmptyBodySound(k.rest, COLON);
    TreeSound(accepts, c[1..], depth);
    SpaceSplit(e.rest);
    var r := ReadMember(accepts, s, depth);
    MemberJoin(r.value, s, q[1..], k.rest, c[1..], e.rest, r.rest);
  }

  ghost predicate MembersOk(accepts: Bytes -> bool, ms: Members, depth: nat, s: Bytes, rest: Bytes) {
    WfMembers(accepts, ms) && FitsMembers(ms, depth) && s == PrintMembers(ms, rest)
  }

  lemma {:induction false} MembersSound(accepts: Bytes -> bool, s: Bytes, depth: nat)
    requires ReadMembers(accepts, s, depth).Ok?
    ensures MembersOk(accepts, ReadMembers(accepts, s, depth).value, depth, s, ReadMembers(accepts, s, depth).rest)
    decreases |s|, 5
  {
    var r := ReadMember(accepts, s, depth);
    var rest := r.rest;
    if StartsWith(rest, COMMA) {
      var t := ReadMembers(accepts, rest[1..], depth);
      assert ReadMembers(accepts, s, depth) == Ok(MoreMembers(r.value, t.value), t.rest);
      MembersSound(accepts, rest[1..], depth);
      assert rest == [COMMA] + rest[1..];
      MoreMembersSound(accepts, s, t.value, t.rest, depth);
    } else {
      assert rest == [RBRACE] + rest[1..];
      LastMemberSound(accepts, s, rest[1..], depth);
    }
  }

  lemma {:induction false} LastMemberSound(accepts: Bytes -> bool, s: Bytes, rest: Bytes, depth: nat)
    requires var m := ReadMember(accepts, s, depth); m.Ok? && m.rest == [RBRACE] + rest
    ensures MembersOk(accepts, LastMember(ReadMember(accepts, s, depth).value), depth, s, rest)
    decreases |s|, 4
  {
    MemberSound(accepts, s, depth);
  }

  lemma {:induction false} MoreMembersSound(accepts: Bytes -> bool, s: Bytes, more: Members, rest: Bytes, depth: nat)
    requires WfMembers(accepts, more) && FitsMembers(more, depth)
    requires var m := ReadMember(accepts, s, depth); m.Ok? && m.rest == [COMMA] + PrintMembers(more, rest)
    ensures MembersOk(accepts, MoreMembers(ReadMember(accepts, s, depth).value, more), depth, s, rest)
    decreases |s|, 4
  {
    MemberSound(accepts, s, depth);
  }

  // ---- what is printed is read back

  ghost predicate NoSpaceNext(rest: Bytes) {
    rest == [] || !IsSpace(rest[0])
  }

  /** Nothing that could lengthen a run of number characters comes next. */
  ghost predicate NoNumberNext(rest: Bytes) {
    rest == [] || !IsNumberChar(rest[0])
  }

  lemma {:induction false} SpaceComplete(b: Bytes, rest: Bytes)
    requires Blank(b) && NoSpaceNext(rest)
    ensures Space(b + rest) == b && SkipSpace(b + rest) == rest
  {
    SpaceLengthOf(b, rest);
  }

  lemma {:induction false} SpaceLengthOf(b: Bytes, rest: Bytes)
    requires Blank(b) && NoSpaceNext(rest)
    ensures SpaceLength(b + rest) == |b|
  {
    if b == [] {
      assert b + rest == rest;
    } else {
      assert (b + rest)[1..] == b[1..] + rest;
      SpaceLengthOf(b[1..], rest);
    }
  }

  lemma BlankThen(b: Bytes, c: Byte, rest: Bytes)
    requires Blank(b) && !IsNumberChar(c)
    ensures NoNumberNext(b + ([c] + rest))
  {
    if b != [] {
      assert IsSpace(b[0]) && (b + ([c] + rest))[0] == b[0];
    }
  }

  lemma {:induction false} ItemsComplete(items: seq<Item>, rest: Bytes)
    requires WfItems(items)
    ensures ReadItems(PrintItems(items, rest)) == Ok(items, rest)
  {
    if items != [] {
      var i, tail := items[0], PrintItems(items[1..], rest);
      ItemsComplete(items[1..], rest);
      ItemComplete(i, tail);
      assert items == [i] + items[1..];
    }
  }

  lemma ItemComplete(i: Item, tail: Bytes)
    requires WfItem(i)
    ensures ReadItems(PrintItem(i) + tail) == Prepend(i, ReadItems(tail))
  {
    var s := PrintItem(i) + tail;
    assert s[|PrintItem(i)|..] == tail;
    if i.Hex? {
      assert s[2..6] == i.digits && !IsSimpleEscape(s[1]);
    }
  }

  lemma {:induction false} RunLengthOf(s: Bytes, rest: Bytes)
    requires AllNumberChars(s) && NoNumberNext(rest)
    ensures RunLength(s + rest) == |s|
  {
    if s == [] {
      assert s + rest == rest;
    } else {
      assert (s + rest)[1..] == s[1..] + rest;
      RunLengthOf(s[1..], rest);
    }
  }

  /** A name made of number characters cannot begin s + rest without beginning s. */
  lemma NameNotSplit(name: Bytes, s: Bytes, rest: Bytes)
    requires AllNumberChars(name) && NoNumberNext(rest)
    ensures name <= s + rest ==> name <= s
  {
    if |s| < |name| && rest != [] {
      assert IsNumberChar(name[|s|]) && (s + rest)[|s|] == rest[0];
    }
  }

  lemma NumberComplete(accepts: Bytes -> bool, s: Bytes, rest: Bytes)
    requires WfNumber(accepts, s) && NoNumberNext(rest)
    ensures ReadNumber(accepts, s + rest) == Ok(Num(s), rest)
  {
    assert (s + rest)[|s|..] == rest && (s + rest)[..|s|] == s;
    if s == NAN {
    } else if s == MINUS_INFINITY {
      assert (s + rest)[0] == 45 && NAN[0] == 78;
    } else if s == INFINITY {
      assert (s + rest)[0] == 73 && NAN[0] == 78 && MINUS_INFINITY[0] == 45;
    } else {
      NameNotSplit(NAN, s, rest);
      NameNotSplit(INFINITY, s, rest);
      NameNotSplit(MINUS_INFINITY, s, rest);
      RunLengthOf(s, rest);
    }
  }

  /** The first character of a value tells it from white space and closing brackets. */
  lemma FirstCharacter(accepts: Bytes -> bool, v: Value, rest: Bytes)
    requires WfValue(accepts, v)
    ensures var s := PrintValue(v, rest);
      s != [] && !IsSpace(s[0]) && s[0] != RBRACKET && s[0] != RBRACE
    ensures v.Num? ==> var c := PrintValue(v, rest)[0];
      c != LBRACE && c != LBRACKET && c != QUOTE && c != 116 && c != 102 && c != 110
  {
    if v.Num? {
      assert IsNumberChar(v.lexeme[0]);
    }
  }

  lemma {:induction false} TreeComplete(accepts: Bytes -> bool, t: Tree, rest: Bytes, depth: nat)
    requires WfTree(accepts, t) && Fits(t.v, depth) && NoNumberNext(rest)
    ensures ReadTree(accepts, PrintTree(t, rest), depth) == Ok(t, rest)
    decreases t, 1
  {
    FirstCharacter(accepts, t.v, rest);
    SpaceComplete(t.before, PrintValue(t.v, rest));
    ValueComplete(accepts, t.v, rest, depth);
  }

  lemma {:induction false} ValueComplete(accepts: Bytes -> bool, v: Value, rest: Bytes, depth: nat)
    requires WfValue(accepts, v) && Fits(v, depth) && NoNumberNext(rest)
    ensures PrintValue(v, rest) != [] && ReadValue(accepts, PrintValue(v, rest), depth) == Ok(v, rest)
    decreases v, 0
  {
    var s := PrintValue(v, rest);
    match v
    case Arr(es) =>
      assert s[1..] == PrintElems(es, rest);
      ElemsStart(accepts, es, rest);
      ElemsComplete(accepts, es, rest, depth + 1);
    case Obj(ms) =>
      assert s[1..] == PrintMembers(ms, rest);
      MembersStart(accepts, ms, rest);
      MembersComplete(accepts, ms, rest, depth + 1);
    case _ => FlatComplete(accepts, v, rest, depth);
  }

  lemma FlatComplete(accepts: Bytes -> bool, v: Value, rest: Bytes, depth: nat)
    requires WfValue(accepts, v) && !v.Arr? && !v.Obj? && NoNumberNext(rest)
    ensures PrintValue(v, rest) != [] && ReadValue(accepts, PrintValue(v, rest), depth) == Ok(v, rest)
  {
    match v
    case Lit(l) => LiteralComplete(accepts, l, rest, depth);
    case Num(n) =>
      FirstCharacter(accepts, v, rest);
      NumberComplete(accepts, n, rest);
    case Str(items) => StringComplete(accepts, items, rest, depth);
    case EmptyArr(space) => EmptyComplete(space, LBRACKET, RBRACKET, rest);
    case EmptyObj(space) => EmptyComplete(space, LBRACE, RBRACE, rest);
  }

  lemma LiteralComplete(accepts: Bytes -> bool, l: Literal, rest: Bytes, depth: nat)
    ensures ReadValue(accepts, PrintLiteral(l) + rest, depth) == Ok(Lit(l), rest)
  {
    var name := PrintLiteral(l);
    var s := name + rest;
    assert s[0] == name[0] && name <= s && s[|name|..] == rest;
  }

  lemma StringComplete(accepts: Bytes -> bool, items: seq<Item>, rest: Bytes, depth: nat)
    requires WfItems(items)
    ensures ReadValue(accepts, [QUOTE] + PrintItems(items, rest), depth) == Ok(Str(items), rest)
  {
    KeyComplete(items, rest);
  }

  lemma EmptyComplete(space: Bytes, open: Byte, close: Byte, rest: Bytes)
    requires Blank(space) && !IsSpace(close)
    ensures var u := ([open] + (space + ([close] + rest)))[1..];
      Space(u) == space && SkipSpace(u) == [close] + rest && SkipSpace(u)[1..] == rest
  {
    assert ([open] + (space + ([close] + rest)))[1..] == space + ([close] + rest);
    SpaceComplete(space, [close] + rest);
    assert ([close] + rest)[1..] == rest;
  }

  lemma ElemsStart(accepts: Bytes -> bool, es: Elems, rest: Bytes)
    requires WfElems(accepts, es)
    ensures !StartsWith(SkipSpace(PrintElems(es, rest)), RBRACKET)
  {
    var tail := es.after + (if es.LastElem? then [RBRACKET] + rest else [COMMA] + PrintElems(es.rest, rest));
    FirstCharacter(accepts, es.t.v, tail);
    SpaceComplete(es.t.before, PrintValue(es.t.v, tail));
  }

  lemma MembersStart(accepts: Bytes -> bool, ms: Members, rest: Bytes)
    requires WfMembers(accepts, ms)
    ensures !StartsWith(SkipSpace(PrintMembers(ms, rest)), RBRACE)
  {
    var m, tail := ms.m, if ms.LastMember? then [RBRACE] + rest else [COMMA] + PrintMembers(ms.rest, rest);
    SpaceComplete(m.before, [QUOTE] + PrintItems(m.key, m.beforeColon + ([COLON] + PrintTree(m.t, m.after + tail))));
  }

  lemma {:induction false} ElemsComplete(accepts: Bytes -> bool, es: Elems, rest: Bytes, depth: nat)
    requires WfElems(accepts, es) && FitsElems(es, depth)
    ensures ReadElems(accepts, PrintElems(es, rest), depth) == Ok(es, rest)
    decreases es, 2
  {
    var tail := if es.LastElem? then [RBRACKET] + rest else [COMMA] + PrintElems(es.rest, rest);
    BlankThen(es.after, tail[0], tail[1..]);
    assert tail == [tail[0]] + tail[1..];
    TreeComplete(accepts, es.t, es.after + tail, depth);
    SpaceComplete(es.after, tail);
    if es.MoreElems? {
      assert tail[1..] == PrintElems(es.rest, rest);
      ElemsComplete(accepts, es.rest, rest, depth);
    } else {
      assert tail[1..] == rest;
    }
  }

  lemma KeyComplete(key: seq<Item>, rest: Bytes)
    requires WfItems(key)
    ensures ReadString([QUOTE] + PrintItems(key, rest)) == Ok(key, rest)
  {
    assert ([QUOTE] + PrintItems(key, rest))[1..] == PrintItems(key, rest);
    ItemsComplete(key, rest);
  }

  /** A member read piece by piece. */
  lemma MemberSteps(accepts: Bytes -> bool, s: Bytes, m: Member, afterKey: Bytes, afterColon: Bytes,
                    afterTree: Bytes, rest: Bytes, depth: nat)
    requires Space(s) == m.before && ReadString(SkipSpace(s)) == Ok(m.key, afterKey)
    requires Space(afterKey) == m.beforeColon && SkipSpace(afterKey) == [COLON] + afterColon
    requires ReadTree(accepts, afterColon, depth) == Ok(m.t, afterTree)
    requires Space(afterTree) == m.after && SkipSpace(afterTree) == rest
    ensures ReadMember(accepts, s, depth) == Ok(m, rest)
  {
    assert ([COLON] + afterColon)[1..] == afterColon;
  }

  lemma {:induction false} MemberComplete(accepts: Bytes -> bool, m: Member, c: Byte, rest: Bytes, depth: nat)
    requires WfMember(accepts, m) && Fits(m.t.v, depth) && (c == COMMA || c == RBRACE)
    ensures ReadMember(accepts, PrintMember(m, [c] + rest), depth) == Ok(m, [c] + rest)
    decreases m, 2
  {
    var tail := [c] + rest;
    var afterTree := m.after + tail;
    var afterColon := PrintTree(m.t, afterTree);
    var afterKey := m.beforeColon + ([COLON] + afterColon);
    var quoted := [QUOTE] + PrintItems(m.key, afterKey);
    SpaceComplete(m.before, quoted);
    KeyComplete(m.key, afterKey);
    SpaceComplete(m.beforeColon, [COLON] + afterColon);
    BlankThen(m.after, c, rest);
    TreeComplete(accepts, m.t, afterTree, depth);
    SpaceComplete(m.after, tail);
    MemberSteps(accepts, m.before + quoted, m, afterKey, afterColon, afterTree, tail, depth);
  }

  lemma {:induction false} MembersComplete(accepts: Bytes -> bool, ms: Members, rest: Bytes, depth: nat)
    requires WfMembers(accepts, ms) && FitsMembers(ms, depth)
    ensures ReadMembers(accepts, PrintMembers(ms, rest), depth) == Ok(ms, rest)
    decreases ms, 3
  {
    match ms
    case LastMember(m) =>
      MemberComplete(accepts, m, RBRACE, rest, depth);
      assert ([RBRACE] + rest)[1..] == rest;
    case MoreMembers(m, more) =>
      var tail := PrintMembers(more, rest);
      MemberComplete(accepts, m, COMMA, tail, depth);
      MembersComplete(accepts, more, rest, depth);
      assert ([COMMA] + tail)[1..] == tail;
  }

  /** Exactness: reading succeeds with the tree d if and only if the text is d written out, d is well
      formed, and no node of d has 256 or more containers around it. In particular no text has two trees. */
  lemma ReadExactly(accepts: Bytes -> bool, text: Bytes, d: Document)
    ensures ReadDocument(accepts, text) == Some(d) <==>
      text == PrintDocument(d) && WfDocument(accepts, d) && Fits(d.t.v, 0)
  {
    var r := ReadTree(accepts, text, 0);
    if ReadDocument(accepts, text) == Some(d) {
      TreeSound(accepts, text, 0);
      SpaceSplit(r.rest);
    }
    if text == PrintDocument(d) && WfDocument(accepts, d) && Fits(d.t.v, 0) {
      TreeComplete(accepts, d.t, d.after, 0);
      assert d.after + [] == d.after;
      SpaceComplete(d.after, []);
    }
  }
}
