/** The strict grammar of RFC 8259 (sections 2 to 7) inside the grammar the reader accepts. */
module JsonStrict {
  import opened JsonSyntax
  import opened JsonReader
  import opened JsonExact
  import opened Wrappers

  predicate Digits(s: Bytes) {
    s != [] && forall i :: 0 <= i < |s| ==> 48 <= s[i] <= 57
  }

  predicate IntPart(s: Bytes) {
    Digits(s) && (|s| > 1 ==> s[0] != 48)
  }

  predicate FracPart(s: Bytes) {
    s == [] || (s[0] == 46 && Digits(s[1..]))
  }

  predicate ExpPart(s: Bytes) {
    s == [] || (
      (s[0] == 101 || s[0] == 69) &&
      (Digits(s[1..]) || (|s| > 1 && (s[1] == 43 || s[1] == 45) && Digits(s[2..]))))
  }

  /** Section 6: [ minus ] int [ frac ] [ exp ]. */
  datatype NumberParts = NumberParts(minus: bool, whole: Bytes, frac: Bytes, exp: Bytes)

  function JoinParts(n: NumberParts): Bytes {
    (if n.minus then [45] else []) + (n.whole + (n.frac + n.exp))
  }

  ghost predicate StrictNumber(s: Bytes) {
    exists n :: s == JoinParts(n) && IntPart(n.whole) && FracPart(n.frac) && ExpPart(n.exp)
  }

  /** Section 7: control characters must be escaped. */
  predicate StrictItem(i: Item) {
    WfItem(i) && (i.Raw? ==> i.c >= 32)
  }

  predicate StrictItems(s: seq<Item>) {
    forall i :: 0 <= i < |s| ==> StrictItem(s[i])
  }

  ghost predicate StrictValue(v: Value) {
    match v
    case Lit(_) => true
    case Num(s) => StrictNumber(s)
    case Str(items) => StrictItems(items)
    case EmptyArr(space) => Blank(space)
    case Arr(es) => StrictElems(es)
    case EmptyObj(space) => Blank(space)
    case Obj(ms) => StrictMembers(ms)
  }

  ghost predicate StrictElems(es: Elems) {
    Blank(es.t.before) && StrictValue(es.t.v) && Blank(es.after) && (es.MoreElems? ==> StrictElems(es.rest))
  }

  ghost predicate StrictMembers(ms: Members) {
    && Blank(ms.m.before) && StrictItems(ms.m.key) && Blank(ms.m.beforeColon)
    && Blank(ms.m.t.before) && StrictValue(ms.m.t.v) && Blank(ms.m.after)
    && (ms.MoreMembers? ==> StrictMembers(ms.rest))
  }

  ghost predicate StrictDocument(d: Document) {
    Blank(d.t.before) && StrictValue(d.t.v) && Blank(d.after)
  }

  lemma StrictNumberAccepted(accepts: Bytes -> bool, s: Bytes)
    requires StrictNumber(s) && accepts(s)
    ensures WfNumber(accepts, s)
  {
    var n :| s == JoinParts(n) && IntPart(n.whole) && FracPart(n.frac) && ExpPart(n.exp);
    PartsNumberChars(n);
    assert s[0] == if n.minus then 45 else n.whole[0];
    assert n.minus ==> s[1] == n.whole[0];
    assert INFINITY[0] == 73 && MINUS_INFINITY[1] == 73 && NAN[0] == 78 && MINUS_INFINITY[0] == 45;
  }

  lemma PartsNumberChars(n: NumberParts)
    requires IntPart(n.whole) && FracPart(n.frac) && ExpPart(n.exp)
    ensures AllNumberChars(JoinParts(n)) && JoinParts(n) != []
  {
    assert AllNumberChars(n.whole);
    assert forall i :: 0 <= i < |n.frac| ==> i == 0 || n.frac[i] == n.frac[1..][i - 1];
    assert AllNumberChars(n.frac);
    assert forall i :: 0 <= i < |n.exp| ==> i == 0 || n.exp[i] == n.exp[1..][i - 1];
    assert forall i :: 2 <= i < |n.exp| ==> n.exp[i] == n.exp[2..][i - 2];
    assert AllNumberChars(n.exp);
  }

  lemma {:induction false} StrictWellFormed(accepts: Bytes -> bool, v: Value)
    requires StrictValue(v) && forall s :: StrictNumber(s) ==> accepts(s)
    ensures WfValue(accepts, v)
    decreases v
  {
    match v
    case Num(s) => StrictNumberAccepted(accepts, s);
    case Arr(es) => StrictElemsWellFormed(accepts, es);
    case Obj(ms) => StrictMembersWellFormed(accepts, ms);
    case _ =>
  }

  lemma {:induction false} StrictElemsWellFormed(accepts: Bytes -> bool, es: Elems)
    requires StrictElems(es) && forall s :: StrictNumber(s) ==> accepts(s)
    ensures WfElems(accepts, es)
    decreases es
  {
    StrictWellFormed(accepts, es.t.v);
    if es.MoreElems? {
      StrictElemsWellFormed(accepts, es.rest);
    }
  }

  lemma {:induction false} StrictMembersWellFormed(accepts: Bytes -> bool, ms: Members)
    requires StrictMembers(ms) && forall s :: StrictNumber(s) ==> accepts(s)
    ensures WfMembers(accepts, ms)
    decreases ms
  {
    StrictWellFormed(accepts, ms.m.t.v);
    assert WfTree(accepts, ms.m.t);
    if ms.MoreMembers? {
      StrictMembersWellFormed(accepts, ms.rest);
    }
  }

  /** Every JSON text of the standard whose nodes have fewer than 256 enclosing containers is read, as long
      as the decoder takes the standard's numbers. */
  lemma StrictAccepted(accepts: Bytes -> bool, text: Bytes, d: Document)
    requires forall s :: StrictNumber(s) ==> accepts(s)
    requires StrictDocument(d) && Fits(d.t.v, 0) && text == PrintDocument(d)
    ensures ReadDocument(accepts, text) == Some(d)
  {
    StrictWellFormed(accepts, d.t.v);
    ReadExactly(accepts, text, d);
  }
}
