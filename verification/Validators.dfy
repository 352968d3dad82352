/** The checks on actions.c and actions.h. */
module Validators {
  import opened Wrappers
  import opened PyText
  import opened BodyText
  import opened VoidCalls
  import opened ActionText
  import opened Generator

  // ---- callbacks the inventory does not know

  predicate Ours(current: Option<string>, cids: set<string>) {
    current.None? || current.value in cids
  }

  /** strip_extra_actions: from one definition to the next, lines stay only if its cid is known. */
  function StripExtra(lines: Lines, current: Option<string>, cids: set<string>, wide: char -> bool): Lines {
    if lines == [] then []
    else
      var name := DefName(lines[0], wide);
      var now := if name.Some? then name else current;
      (if Ours(now, cids) then [lines[0]] else []) + StripExtra(lines[1..], now, cids, wide)
  }

  // ---- names

  function Names(lines: Lines, prefix: string, suffix: string, wide: char -> bool): seq<string> {
    if lines == [] then []
    else
      var m := Named(lines[0], prefix, suffix, wide);
      (if m.Some? then [m.value.0] else []) + Names(lines[1..], prefix, suffix, wide)
  }

  function Definitions(lines: Lines, wide: char -> bool): seq<string> {
    Names(lines, DEF_PREFIX, DEF_SUFFIX, wide)
  }

  // ---- bodies

  /** Index of the first line that is a closing brace, or the length. */
  function FirstBrace(lines: Lines): (k: nat)
    ensures k <= |lines| && (k < |lines| ==> lines[k] == "}")
    ensures forall i :: 0 <= i < k ==> lines[i] != "}"
  {
    if lines == [] || lines[0] == "}" then 0 else 1 + FirstBrace(lines[1..])
  }

  /** Number of leading lines with nothing but space. */
  function BlankRun(lines: Lines): (n: nat)
    ensures n <= |lines|
  {
    if lines == [] || Spaces(lines[0]) < |lines[0]| then 0 else 1 + BlankRun(lines[1..])
  }

  /** A line with the second half of a parameter list and nothing else. */
  predicate IsParams(line: string) {
    line[Spaces(line)..] == PARAMS
  }

  /** The body of a definition that starts on the first line, and the lines after its closing brace. */
  function BodyAt(lines: Lines, wide: char -> bool): (r: Option<(string, string, Lines)>)
    ensures r.Some? ==> |r.value.2| < |lines|
  {
    if lines == [] then None
    else
      var m := Named(lines[0], DEF_PREFIX, DEF_SUFFIX, wide);
      var p := 1 + BlankRun(lines[1..]);
      if m.None? || Spaces(m.value.1) < |m.value.1| || p + 1 >= |lines| || !IsParams(lines[p]) ||
        !("{" <= lines[p + 1]) then None
      else
        var rest := lines[p + 2..];
        var k := FirstBrace(rest);
        if k == |rest| then None
        else Some((m.value.0, Join([lines[p + 1][1..]] + rest[..k]), rest[k + 1..]))
  }

  /** extract_bodies: every definition found, in order. */
  function Bodies(lines: Lines, wide: char -> bool): seq<(string, string)>
    decreases |lines|
  {
    if lines == [] then []
    else
      var b := BodyAt(lines, wide);
      if b.Some? then [(b.value.0, b.value.1)] + Bodies(b.value.2, wide) else Bodies(lines[1..], wide)
  }

  /** The dictionary of them: a later definition replaces an earlier one. */
  function Dict(pairs: seq<(string, string)>): map<string, string> {
    if pairs == [] then map[] else Dict(pairs[..|pairs| - 1])[pairs[|pairs| - 1].0 := pairs[|pairs| - 1].1]
  }

  // ---- the checks

  datatype Problem =
    | WrongCount(what: string)
    | MissingFor(what: string)
    | Duplicates
    | UnknownCids(what: string)
    | AbsentCids(what: string)
    | BodyNotFound(cid: string)
    | BodyDiffers(cid: string)
    | RowNotFound(cid: string)

  function When(c: bool, p: Problem): seq<Problem> {
    if c then [p] else []
  }

  function ToSet(names: seq<string>): set<string> {
    set n | n in names
  }

  function Cids(entries: seq<Entry>): seq<string> {
    seq(|entries|, i requires 0 <= i < |entries| => entries[i].cid)
  }

  /** The comparisons of check_arity, given what was counted and which names were found. */
  function Arity(rows: nat, defs: seq<string>, externs: seq<string>, decls: seq<string>, n: nat, wanted: set<string>)
    : seq<Problem>
  {
    When(rows != n, WrongCount("spec rows")) + When(|defs| != n, WrongCount("callback definitions"))
    + When(|externs| != n, WrongCount("extern pointers")) + When(|decls| != n, WrongCount("callback declarations"))
    + When(ToSet(defs) - ToSet(externs) != {}, MissingFor("extern pointers"))
    + When(ToSet(defs) - ToSet(decls) != {}, MissingFor("callback declarations"))
    + When(|ToSet(defs)| != |defs|, Duplicates)
    + NameProblems("definitions", ToSet(defs), wanted) + NameProblems("externs", ToSet(externs), wanted)
    + NameProblems("declarations", ToSet(decls), wanted)
  }

  function NameProblems(what: string, names: set<string>, wanted: set<string>): seq<Problem> {
    When(names - wanted != {}, UnknownCids(what)) + When(wanted - names != {}, AbsentCids(what))
  }

  /** check_arity with the inventory given. */
  function CheckArity(source: Lines, header: Lines, entries: seq<Entry>, wide: char -> bool): seq<Problem> {
    var wanted := ToSet(Cids(entries));
    Arity(Marks(source, wide), Definitions(StripExtra(source, None, wanted, wide), wide),
      Names(header, EXTERN_PREFIX, ";", wide), Names(header, DECL_PREFIX, DECL_SUFFIX, wide), |entries|, wanted)
  }

  /** The arity check is content exactly when every list names each wanted cid once and nothing else. */
  lemma ArityNone(rows: nat, defs: seq<string>, externs: seq<string>, decls: seq<string>, n: nat, wanted: set<string>)
    ensures Arity(rows, defs, externs, decls, n, wanted) == [] <==>
      rows == |defs| == |externs| == |decls| == n && |ToSet(defs)| == n &&
      ToSet(defs) == wanted && ToSet(externs) == wanted && ToSet(decls) == wanted
  {
    SameSet(ToSet(defs), wanted);
    SameSet(ToSet(externs), wanted);
    SameSet(ToSet(decls), wanted);
  }

  lemma SameSet(a: set<string>, b: set<string>)
    ensures a == b <==> a - b == {} && b - a == {}
  {
    if a - b == {} && b - a == {} {
      forall x
        ensures x in a <==> x in b
      {
        assert x in a && x !in b ==> x in a - b;
        assert x in b && x !in a ==> x in b - a;
      }
    }
  }

  function BodyProblem(actual: map<string, string>, e: Entry, wide: char -> bool): seq<Problem> {
    if e.cid !in actual then [BodyNotFound(e.cid)]
    else if Normalize(actual[e.cid]) != Normalize(Rewrite(e.body, wide)) then [BodyDiffers(e.cid)] else []
  }

  function Concat(parts: seq<seq<Problem>>): seq<Problem> {
    if parts == [] then [] else Concat(parts[..|parts| - 1]) + parts[|parts| - 1]
  }

  lemma {:induction false} ConcatNone(parts: seq<seq<Problem>>)
    ensures Concat(parts) == [] <==> forall i :: 0 <= i < |parts| ==> parts[i] == []
  {
    if parts != [] {
      ConcatNone(parts[..|parts| - 1]);
    }
  }

  /** What check_bodies has to say about each entry. */
  function BodyProblems(actual: map<string, string>, entries: seq<Entry>, wide: char -> bool): seq<seq<Problem>> {
    seq(|entries|, i requires 0 <= i < |entries| => BodyProblem(actual, entries[i], wide))
  }

  method CheckBody(actual: map<string, string>, e: Entry, wide: char -> bool) returns (problems: seq<Problem>)
    ensures problems == BodyProblem(actual, e, wide)
  {
    if e.cid !in actual {
      return [BodyNotFound(e.cid)];
    }
    var got := NormalizeBody(actual[e.cid]);
    var expected := NormalizeBody(Rewrite(e.body, wide));
    return if got != expected then [BodyDiffers(e.cid)] else [];
  }

  /** check_bodies. */
  method CheckBodies(source: Lines, entries: seq<Entry>, wide: char -> bool) returns (problems: seq<Problem>)
    ensures problems == Concat(BodyProblems(ActualBodies(source, entries, wide), entries, wide))
  {
    var actual := ActualBodies(source, entries, wide);
    ghost var all := BodyProblems(actual, entries, wide);
    problems := [];
    for i := 0 to |entries|
      invariant problems == Concat(all[..i])
    {
      var more := CheckBody(actual, entries[i], wide);
      assert all[..i + 1][..i] == all[..i];
      problems := problems + more;
    }
    assert all[..|entries|] == all;
  }

  /** The bodies of the known callbacks in a file. */
  function ActualBodies(source: Lines, entries: seq<Entry>, wide: char -> bool): map<string, string> {
    Dict(Bodies(StripExtra(source, None, ToSet(Cids(entries)), wide), wide))
  }

  /** The file as text. */
  function FileText(lines: Lines): string {
    if lines == [] then "" else lines[0] + ("\n" + FileText(lines[1..]))
  }

  predicate Contains(text: string, part: string) {
    exists i :: 0 <= i <= |text| && part <= text[i..]
  }

  function RowProblem(source: Lines, e: Entry): seq<Problem> {
    When(!Contains(FileText(source), Join(RowLines(e))), RowNotFound(e.cid))
  }

  /** check_rows. */
  function CheckRows(source: Lines, entries: seq<Entry>): seq<Problem> {
    Concat(seq(|entries|, i requires 0 <= i < |entries| => RowProblem(source, entries[i])))
  }
}
