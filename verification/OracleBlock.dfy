/** One macro block of the oracle: its arguments, and the body that follows them. */
module OracleBlock {
  import opened Wrappers
  import opened PyText
  import opened BodyText
  import opened GapText
  import M = MacroArgs
  import B = BraceBody

  const FIELDS: nat := 8

  /** What stands between the argument list and the body. */
  predicate IsBlank(c: char) {
    c == ' ' || c == '\t' || c == '\r' || c == '\n'
  }

  predicate AllBlank(t: string) {
    forall i :: 0 <= i < |t| ==> IsBlank(t[i])
  }

  function SkipBlank(t: string): (r: string)
    ensures |r| <= |t|
  {
    if t != "" && IsBlank(t[0]) then SkipBlank(t[1..]) else t
  }

  datatype Block = Block(args: seq<string>, body: string, rest: string)

  /** A body in braces, normalised, and what follows it. */
  function ReadCode(r: string): (c: Option<(string, string)>)
    ensures c.Some? ==> |c.value.1| < |r|
  {
    if r == "" || r[0] != '{' then None
    else
      var rest := B.Scan(r[1..], B.Code, 1);
      if rest.None? then None else Some((Normalize(r[1..|r| - |rest.value| - 1]), rest.value))
  }

  /** One turn of the loop of parse: from just after the macro's opening parenthesis. */
  function Read(t: string): Option<Block> {
    var args := M.Split(t, 1, false, false, "", []);
    if args.None? || |args.value.0| != FIELDS then None
    else
      var code := ReadCode(SkipBlank(args.value.1));
      if code.None? then None else Some(Block(args.value.0, code.value.0, code.value.1))
  }

  method SkipBlankFrom(text: string, start: nat) returns (i: nat)
    requires start <= |text|
    ensures start <= i <= |text| && SkipBlank(text[start..]) == text[i..]
  {
    i := start;
    while i < |text| && IsBlank(text[i])
      invariant start <= i <= |text| && SkipBlank(text[start..]) == SkipBlank(text[i..])
    {
      assert text[i..][1..] == text[i + 1..];
      i := i + 1;
    }
  }

  /** _brace_body and normalize_body on the text from i on: the body and where it ends. */
  method ReadBody(text: string, i: nat) returns (r: Option<(string, nat)>)
    requires i <= |text|
    ensures match ReadCode(text[i..])
      case None => r.None?
      case Some((body, rest)) => r == Some((body, |text| - |rest|))
  {
    var body := B.Extract(text, i);
    if i == |text| || text[i] != '{' {
      return None;
    }
    assert text[i..][1..] == text[i + 1..];
    if body.None? {
      return None;
    }
    var normal := NormalizeBody(body.value.0);
    BodySlice(text, i, |text| - body.value.1);
    return Some((normal, body.value.1));
  }

  lemma BodySlice(text: string, i: nat, n: nat)
    requires i + 1 + n + 1 <= |text|
    ensures text[i..][1..|text| - i - n - 1] == text[i + 1..|text| - n - 1]
  {
  }

  /** From the end of the argument list on. */
  method ReadRest(text: string, after: nat) returns (r: Option<(string, nat)>)
    requires after <= |text|
    ensures match ReadCode(SkipBlank(text[after..]))
      case None => r.None?
      case Some((body, rest)) => r == Some((body, |text| - |rest|))
  {
    var i := SkipBlankFrom(text, after);
    r := ReadBody(text, i);
  }

  /** The same on a text and a position: what the block is and where it ends. */
  method ReadBlock(text: string, start: nat) returns (block: Option<(seq<string>, string, nat)>)
    requires start <= |text|
    ensures match Read(text[start..])
      case None => block.None?
      case Some(b) => block == Some((b.args, b.body, |text| - |b.rest|))
  {
    var args := M.SplitArgs(text, start);
    if args.None? || |args.value.0| != FIELDS {
      return None;
    }
    var after := args.value.1;
    ArgsEnd(text, start, after);
    var body := ReadRest(text, after);
    if body.None? {
      return None;
    }
    return Some((args.value.0, body.value.0, body.value.1));
  }

  lemma ArgsEnd(text: string, start: nat, after: nat)
    requires start <= |text| && M.Split(text[start..], 1, false, false, "", []).Some?
    requires after == |text| - |M.Split(text[start..], 1, false, false, "", []).value.1|
    ensures after <= |text| && text[after..] == M.Split(text[start..], 1, false, false, "", []).value.1
  {
    M.SplitSuffix(text[start..], 1, false, false, "", []);
    assert text[start..][after - start..] == text[after..];
  }

  lemma {:induction false} SkipBlanks(gap: string, t: string)
    requires AllBlank(gap) && t != "" && !IsBlank(t[0])
    ensures SkipBlank(gap + t) == t
  {
    if gap == "" {
      assert gap + t == t;
    } else {
      assert (gap + t)[1..] == gap[1..] + t;
      SkipBlanks(gap[1..], t);
    }
  }

  /** A printed block reads back: its arguments stripped, its body normalised, and what follows untouched. */
  lemma BlockRoundTrip(list: seq<M.Arg>, gap: string, code: B.Source, after: string, r: string)
    requires |list| == FIELDS && M.AllBalanced(list) && B.Balanced(code)
    requires AllBlank(gap) && r == "{" + B.Print(code, "}" + after)
    ensures Read(M.PrintAll(list, gap + r)) == Some(Block(M.Texts(list), Normalize(B.Print(code, "")), after))
  {
    BodyReads(code, after);
    SkipBlanks(gap, r);
    var k := gap + r;
    ArgsRead(list, k);
    ReadSteps(M.PrintAll(list, k), M.Texts(list), k, r, Normalize(B.Print(code, "")), after);
  }

  lemma ArgsRead(list: seq<M.Arg>, k: string)
    requires list != [] && M.AllBalanced(list)
    ensures M.Split(M.PrintAll(list, k), 1, false, false, "", []) == Some((M.Texts(list), k))
  {
    M.SplitAll(list, k, []);
    assert [] + M.Texts(list) == M.Texts(list);
  }

  lemma ReadSteps(t: string, args: seq<string>, k: string, r: string, body: string, after: string)
    requires M.Split(t, 1, false, false, "", []) == Some((args, k)) && |args| == FIELDS
    requires SkipBlank(k) == r && ReadCode(r) == Some((body, after))
    ensures Read(t) == Some(Block(args, body, after))
  {
  }

  lemma BodyReads(code: B.Source, after: string)
    requires B.Balanced(code)
    ensures var r := "{" + B.Print(code, "}" + after);
      r[0] == '{' && ReadCode(r) == Some((Normalize(B.Print(code, "")), after))
  {
    B.ScanBalanced(code, after, 1);
    B.PrintAppend(code, "}" + after);
    Braced(B.Print(code, ""), after);
  }

  lemma Braced(body: string, after: string)
    ensures var r := "{" + (body + ("}" + after)); r[1..] == body + ("}" + after) && r[1..|r| - |after| - 1] == body
  {
  }
}
