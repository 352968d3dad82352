/** A rendered table row read back: its fields, in their order, are the arguments of the oracle. */
module RowText {
  import opened Wrappers
  import opened PyText
  import opened BodyText
  import opened GapText
  import opened VoidCalls
  import opened ActionText
  import opened Generator
  import opened Sequences
  import M = MacroArgs
  import O = OracleBlock
  import B = BraceBody

  /** The text of one macro argument. */
  ghost predicate IsArg(t: string) {
    exists a :: M.Balanced(a, true) && M.Print(a, "") == t
  }

  /** A static initialiser's fields: what stands between its braces, cut at the commas outside parentheses and string
      literals. */
  function RowFields(row: string): Option<seq<string>> {
    if |row| < 5 || row[..3] != "  {" || row[|row| - 2..] != "}," then None
    else
      var r := M.Split(row[3..|row| - 2] + ")", 1, false, false, "", []);
      if r.Some? && r.value.1 == "" then Some(r.value.0) else None
  }

  /** How an argument appears in a row: without the space around it, and marked for translation instead of
      translated. */
  function Marked(raw: string): string {
    var t := Strip(raw);
    if |t| >= 2 && t[..2] == "_(" then "N_(" + t[2..] else t
  }

  // ---- stripping

  predicate Solid(t: string) {
    t == "" || (!IsSpace(t[0]) && !IsSpace(t[|t| - 1]))
  }

  lemma StripSolid(t: string)
    ensures Solid(Strip(t))
  {
    var s := t[Spaces(t)..];
    assert Rstrip(s) != "" ==> Rstrip(s)[0] == s[0];
  }

  lemma SolidStrips(t: string)
    requires Solid(t)
    ensures Strip(t) == t
  {
    assert Spaces(t) == 0 && t[0..] == t;
  }

  lemma SpaceBefore(c: char, t: string)
    requires IsSpace(c)
    ensures Strip([c] + t) == Strip(t)
  {
    assert ([c] + t)[1..] == t;
    assert ([c] + t)[1 + Spaces(t)..] == t[Spaces(t)..];
  }

  // ---- arguments

  lemma ArgSplits(f: string, k: string, args: seq<string>)
    requires IsArg(f)
    ensures M.Split(f + ("," + k), 1, false, false, "", args) == M.Split(k, 1, false, false, "", args + [Strip(f)])
    ensures M.Split(f + ")", 1, false, false, "", args) == Some((args + [Strip(f)], ""))
  {
    var a :| M.Balanced(a, true) && M.Print(a, "") == f;
    M.SplitMore(a, k, args);
    M.SplitLast(a, "", args);
    M.PrintAppend(a, "," + k);
    M.PrintAppend(a, ")" + "");
    assert ")" + "" == ")";
  }

  lemma PlainFirst(c: char, t: string)
    requires IsArg(t) && c != '"' && c != '(' && c != ')' && c != ','
    ensures IsArg([c] + t)
  {
    var a :| M.Balanced(a, true) && M.Print(a, "") == t;
    assert M.Print(M.Plain(c, a), "") == [c] + t && M.Balanced(M.Plain(c, a), true);
  }

  predicate AllPlain(t: string) {
    forall i :: 0 <= i < |t| ==> t[i] != '"' && t[i] != '(' && t[i] != ')' && t[i] != ','
  }

  lemma {:induction false} PlainArg(t: string)
    requires AllPlain(t)
    ensures IsArg(t)
  {
    if t == "" {
      assert M.Balanced(M.End, true) && M.Print(M.End, "") == "";
    } else {
      PlainArg(t[1..]);
      PlainFirst(t[0], t[1..]);
      FirstRest(t);
    }
  }

  lemma FirstChar(a: M.Arg)
    ensures a.Quoted? ==> M.Print(a, "") != "" && M.Print(a, "")[0] == '"'
    ensures a.Parens? ==> M.Print(a, "") != "" && M.Print(a, "")[0] == '('
    ensures a.Plain? ==> M.Print(a, "") != "" && M.Print(a, "")[1..] == M.Print(a.rest, "")
  {
  }

  lemma SpaceFirst(t: string)
    requires t != "" && IsSpace(t[0]) && IsArg(t)
    ensures IsArg(t[1..])
  {
    var a :| M.Balanced(a, true) && M.Print(a, "") == t;
    FirstChar(a);
    assert a.Plain?;
  }

  lemma EndOf(front: string, mark: char, r: string)
    ensures var t := front + ([mark] + r); t[|t| - 1] == if r == "" then mark else r[|r| - 1]
    ensures r != "" ==> var t := front + ([mark] + r); t[..|t| - 1] == front + ([mark] + r[..|r| - 1])
  {
  }

  lemma PlainEnd(c: char, rest: M.Arg)
    ensures M.Print(M.Plain(c, rest), "") == [c] + M.Print(rest, "")
    ensures var t, r := M.Print(M.Plain(c, rest), ""), M.Print(rest, "");
      t[..|t| - 1] == if r == "" then "" else [c] + r[..|r| - 1]
    ensures var t, r := M.Print(M.Plain(c, rest), ""), M.Print(rest, "");
      t[|t| - 1] == if r == "" then c else r[|r| - 1]
  {
  }

  lemma QuotedText(text: string, rest: M.Arg)
    ensures M.Print(M.Quoted(text, rest), "") == ("\"" + text) + ("\"" + M.Print(rest, ""))
  {
    Associative("\"", text, "\"" + M.Print(rest, ""));
  }

  lemma ParensText(inner: M.Arg, rest: M.Arg)
    ensures M.Print(M.Parens(inner, rest), "") == ("(" + M.Print(inner, "")) + (")" + M.Print(rest, ""))
  {
    M.PrintAppend(inner, ")" + M.Print(rest, ""));
    Associative("(", M.Print(inner, ""), ")" + M.Print(rest, ""));
  }

  /** A space at the end can be left out. */
  lemma {:induction false} SpaceLast(a: M.Arg, top: bool) returns (b: M.Arg)
    requires M.Balanced(a, top) && M.Print(a, "") != "" && IsSpace(M.Print(a, "")[|M.Print(a, "")| - 1])
    ensures M.Balanced(b, top) && M.Print(b, "") == M.Print(a, "")[..|M.Print(a, "")| - 1]
    decreases a
  {
    match a
    case Plain(c, rest) =>
      PlainEnd(c, rest);
      if M.Print(rest, "") == "" {
        b := M.End;
      } else {
        var r := SpaceLast(rest, top);
        b := M.Plain(c, r);
      }
    case Quoted(text, rest) =>
      QuotedText(text, rest);
      EndOf("\"" + text, '"', M.Print(rest, ""));
      var r := SpaceLast(rest, top);
      QuotedText(text, r);
      b := M.Quoted(text, r);
    case Parens(inner, rest) =>
      ParensText(inner, rest);
      EndOf("(" + M.Print(inner, ""), ')', M.Print(rest, ""));
      var r := SpaceLast(rest, top);
      ParensText(inner, r);
      b := M.Parens(inner, r);
  }

  lemma {:induction false} ArgRstrip(t: string)
    requires IsArg(t)
    ensures IsArg(Rstrip(t))
  {
    if t != "" && IsSpace(t[|t| - 1]) {
      var a :| M.Balanced(a, true) && M.Print(a, "") == t;
      var b := SpaceLast(a, true);
      ArgRstrip(t[..|t| - 1]);
    }
  }

  lemma {:induction false} ArgStrip(t: string)
    requires IsArg(t)
    ensures IsArg(Strip(t))
  {
    if t != "" && IsSpace(t[0]) {
      SpaceFirst(t);
      ArgStrip(t[1..]);
      FirstRest(t);
      SpaceBefore(t[0], t[1..]);
    } else {
      assert t[0..] == t;
      ArgRstrip(t);
    }
  }

  // ---- the fields of a row

  lemma MarkedText(raw: string)
    ensures CExpr(raw) == Marked(raw)
  {
    var t, mark := Strip(raw), "_(";
    Starts(mark, t);
    if mark <= t {
      Associative("N", mark, t[2..]);
      assert "N" + mark == "N_(";
    }
  }

  lemma Starts(mark: string, t: string)
    ensures mark <= t <==> |t| >= |mark| && t[..|mark|] == mark
    ensures mark <= t ==> t == mark + t[|mark|..]
  {
  }

  lemma MarkedSolid(raw: string)
    ensures Solid(CExpr(raw))
  {
    StripSolid(raw);
  }

  lemma MarkedArg(raw: string)
    requires IsArg(raw)
    ensures Strip(" " + CExpr(raw)) == Marked(raw) && IsArg(" " + CExpr(raw))
  {
    ArgStrip(raw);
    PlainFirst('N', Strip(raw));
    PlainFirst(' ', CExpr(raw));
    SpaceBefore(' ', CExpr(raw));
    MarkedSolid(raw);
    SolidStrips(CExpr(raw));
    MarkedText(raw);
  }

  function AllMarked(raw: seq<string>): seq<string> {
    seq(|raw|, i requires 0 <= i < |raw| => Marked(raw[i]))
  }

  lemma MarkedCons(raw: seq<string>, args: seq<string>)
    requires raw != []
    ensures args + AllMarked(raw) == (args + [Marked(raw[0])]) + AllMarked(raw[1..])
  {
    assert AllMarked(raw) == [Marked(raw[0])] + AllMarked(raw[1..]);
  }

  lemma {:induction false} CommasSplit(raw: seq<string>, k: string, args: seq<string>)
    requires forall i :: 0 <= i < |raw| ==> IsArg(raw[i])
    ensures M.Split(Commas(raw) + k, 1, false, false, "", args) ==
      M.Split(k, 1, false, false, "", args + AllMarked(raw))
  {
    if raw == [] {
      NothingFirst(k);
      NothingLast(args);
      assert AllMarked(raw) == [];
    } else {
      MarkedArg(raw[0]);
      CommasFirst(raw, k);
      ArgSplits(" " + CExpr(raw[0]), Commas(raw[1..]) + k, args);
      CommasSplit(raw[1..], k, args + [Marked(raw[0])]);
      MarkedCons(raw, args);
    }
  }

  lemma CommasFirst(raw: seq<string>, k: string)
    requires raw != []
    ensures Commas(raw) + k == (" " + CExpr(raw[0])) + ("," + (Commas(raw[1..]) + k))
  {
    Associative(" " + CExpr(raw[0]) + ",", Commas(raw[1..]), k);
    Associative(" " + CExpr(raw[0]), ",", Commas(raw[1..]) + k);
  }

  /** The row's text: its lines joined. */
  function RowString(e: Entry): string {
    Join(RowLines(e))
  }

  function SixTexts(e: Entry): seq<string> {
    [e.id, e.icon, e.name, e.text, e.menu, e.tooltip]
  }

  function CallbackText(cid: string): string {
    "\n    action_callback_" + cid
  }

  function PointerText(cid: string): string {
    " &action_" + cid + " "
  }

  /** What stands between the braces. */
  function Inside(e: Entry): string {
    Commas(SixTexts(e)) + ((" " + e.kind) + ("," + (CallbackText(e.cid) + ("," + PointerText(e.cid)))))
  }

  lemma JoinMore(lines: Lines, x: string)
    requires lines != []
    ensures Join(lines + [x]) == Join(lines) + ("\n" + x)
  {
    JoinSnoc(lines + [x]);
    TakeFront(lines, [x]);
  }

  lemma RowSplit(commas: string, kind: string, cid: string)
    ensures var tail := "action_callback_" + (cid + (", &action_" + (cid + " },")));
      "  {" + commas + " " + kind + "," + ("\n" + ("    " + tail)) ==
        "  {" + ((commas + ((" " + kind) + ("," + (CallbackText(cid) + ("," + PointerText(cid)))))) + "},")
  {
  }

  lemma RowStringIs(e: Entry)
    ensures RowString(e) == "  {" + (Inside(e) + "},")
  {
    JoinMore(NlSplit(RowFront(e)), RowEnd(e.cid));
    JoinSplit(RowFront(e));
    RowSplit(Commas([e.id, e.icon, e.name, e.text, e.menu, e.tooltip]), e.kind, e.cid);
  }

  // ---- reading it back

  lemma {:induction false} CidPlain(cid: string, wide: char -> bool)
    requires IsCid(cid, wide)
    ensures AllPlain(cid) && Solid(cid) && cid != ""
  {
    forall i | 0 <= i < |cid|
      ensures cid[i] != '"' && cid[i] != '(' && cid[i] != ')' && cid[i] != ',' && !IsSpace(cid[i])
    {
      assert IsWord(cid[i], wide);
    }
  }

  lemma CallbackField(cid: string, wide: char -> bool)
    requires IsCid(cid, wide)
    ensures IsArg(CallbackText(cid)) && Strip(CallbackText(cid)) == "action_callback_" + cid
  {
    var name := "action_callback_" + cid;
    CidPlain(cid, wide);
    CallbackPlain(cid);
    PlainArg(CallbackText(cid));
    assert CallbackText(cid) == "\n    " + name;
    BreakBefore(name);
    SolidStrips(name);
  }

  lemma CallbackPlain(cid: string)
    requires AllPlain(cid)
    ensures AllPlain(CallbackText(cid))
  {
  }

  lemma BreakBefore(name: string)
    ensures Strip("\n    " + name) == Strip(name)
  {
    SpacesBefore("\n    ", name);
  }

  lemma {:induction false} SpacesBefore(gap: string, t: string)
    requires AllSpace(gap)
    ensures Strip(gap + t) == Strip(t)
  {
    if gap == "" {
      NothingFirst(t);
    } else {
      SpacesBefore(gap[1..], t);
      assert gap + t == [gap[0]] + (gap[1..] + t);
      SpaceBefore(gap[0], gap[1..] + t);
    }
  }

  lemma SpaceAfter(t: string)
    requires Solid(t)
    ensures Strip(t + " ") == t
  {
    if t == "" {
      SpaceBefore(' ', "");
      assert "" + " " == [' '] + "";
    } else {
      assert Spaces(t + " ") == 0 && (t + " ")[0..] == t + " ";
      assert (t + " ")[..|t|] == t;
      assert Rstrip(t + " ") == Rstrip(t) == t;
    }
  }

  lemma PointerField(cid: string, wide: char -> bool)
    requires IsCid(cid, wide)
    ensures IsArg(PointerText(cid)) && Strip(PointerText(cid)) == "&action_" + cid
  {
    var name := "&action_" + cid;
    CidPlain(cid, wide);
    PlainArg(" &action_" + cid + " ");
    assert " &action_" + cid + " " == [' '] + (name + " ");
    SpaceBefore(' ', name + " ");
    SpaceAfter(name);
  }

  /** Id, icon, name, label, menu label, tooltip, type, callback and pointer. */
  function NineFields(e: Entry): seq<string> {
    [Marked(e.id), Marked(e.icon), Marked(e.name), Marked(e.text), Marked(e.menu), Marked(e.tooltip)] +
    [Strip(e.kind), "action_callback_" + e.cid, "&action_" + e.cid]
  }

  ghost predicate ArgFields(e: Entry) {
    IsArg(e.id) && IsArg(e.icon) && IsArg(e.name) && IsArg(e.text) && IsArg(e.menu) && IsArg(e.tooltip) && IsArg(e.kind)
  }

  lemma KindField(kind: string)
    requires IsArg(kind)
    ensures IsArg(" " + kind) && Strip(" " + kind) == Strip(kind)
  {
    PlainFirst(' ', kind);
    SpaceBefore(' ', kind);
  }

  lemma SixArgs(e: Entry)
    requires ArgFields(e)
    ensures forall i :: 0 <= i < |SixTexts(e)| ==> IsArg(SixTexts(e)[i])
  {
  }

  lemma InsideSplits(e: Entry, wide: char -> bool)
    requires IsCid(e.cid, wide) && ArgFields(e)
    ensures M.Split(Inside(e) + ")", 1, false, false, "", []) == Some((NineFields(e), ""))
  {
    CallbackField(e.cid, wide);
    PointerField(e.cid, wide);
    KindField(e.kind);
    SixArgs(e);
    AllFields(SixTexts(e), " " + e.kind, CallbackText(e.cid), PointerText(e.cid));
    SixMarked(e.id, e.icon, e.name, e.text, e.menu, e.tooltip);
    NineTogether(AllMarked(SixTexts(e)), Strip(e.kind), "action_callback_" + e.cid, "&action_" + e.cid);
  }

  lemma AllFields(raw: seq<string>, kind: string, callback: string, pointer: string)
    requires forall i :: 0 <= i < |raw| ==> IsArg(raw[i])
    requires IsArg(kind) && IsArg(callback) && IsArg(pointer)
    ensures M.Split(Commas(raw) + (kind + ("," + (callback + ("," + pointer)))) + ")", 1, false, false, "", []) ==
      Some((AllMarked(raw) + [Strip(kind)] + [Strip(callback)] + [Strip(pointer)], ""))
  {
    InsideGrouped(Commas(raw), kind, callback, pointer);
    CommasSplit(raw, kind + ("," + (callback + ("," + (pointer + ")")))), []);
    NothingFirst(AllMarked(raw));
    LastFields(kind, callback, pointer, AllMarked(raw));
  }

  lemma LastFields(kind: string, callback: string, pointer: string, six: seq<string>)
    requires IsArg(kind) && IsArg(callback) && IsArg(pointer)
    ensures M.Split(kind + ("," + (callback + ("," + (pointer + ")")))), 1, false, false, "", six) ==
      Some((six + [Strip(kind)] + [Strip(callback)] + [Strip(pointer)], ""))
  {
    ArgSplits(kind, callback + ("," + (pointer + ")")), six);
    ArgSplits(callback, pointer + ")", six + [Strip(kind)]);
    ArgSplits(pointer, "", six + [Strip(kind)] + [Strip(callback)]);
  }

  lemma SixMarked(a: string, b: string, c: string, d: string, e: string, f: string)
    ensures AllMarked([a, b, c, d, e, f]) == [Marked(a), Marked(b), Marked(c), Marked(d), Marked(e), Marked(f)]
  {
  }

  lemma NineTogether(six: seq<string>, a: string, b: string, c: string)
    ensures six + [a] + [b] + [c] == six + [a, b, c]
  {
  }

  lemma InsideGrouped(commas: string, kind: string, callback: string, pointer: string)
    ensures commas + (kind + ("," + (callback + ("," + pointer)))) + ")" ==
      commas + (kind + ("," + (callback + ("," + (pointer + ")")))))
  {
  }

  /** A row reads back: its fields are the arguments of the oracle in the order of the action table, then the names of
      the callback and of the pointer. */
  lemma RowReads(e: Entry, wide: char -> bool)
    requires IsCid(e.cid, wide) && ArgFields(e)
    ensures RowFields(RowString(e)) == Some(NineFields(e))
  {
    var row := RowString(e);
    RowStringIs(e);
    Between("  {", Inside(e), "},");
    InsideSplits(e, wide);
  }

  lemma Between(front: string, inside: string, back: string)
    ensures var t := front + (inside + back);
      t[..|front|] == front && t[|t| - |back|..] == back && t[|front|..|t| - |back|] == inside
  {
  }

  // ---- from the macro to the row

  /** The inventory's entry for a macro block: the arguments are, in this order, cid, id, icon, name, label, menu
      label, tooltip and type. */
  function EntryOf(b: O.Block, section: string, title: string, comment: string): Entry
    requires |b.args| == 8
  {
    Entry(b.args[0], b.args[1], b.args[2], b.args[3], b.args[4], b.args[5], b.args[6], b.args[7], section, title,
      comment, b.body)
  }

  /** From a printed macro of eight arguments to the row and back: each argument is in its place. */
  lemma MacroToRow(list: seq<M.Arg>, gap: string, code: B.Source, after: string, section: string, title: string,
                   comment: string, wide: char -> bool)
    requires |list| == 8 && M.AllBalanced(list) && B.Balanced(code) && IsCid(M.TextOf(list[0]), wide)
    requires forall i :: 0 <= i < |gap| ==> gap[i] in " \t\r\n"
    ensures var b := O.Read(M.PrintAll(list, gap + ("{" + B.Print(code, "}" + after))));
      && b.Some? && |b.value.args| == 8
      && RowFields(RowString(EntryOf(b.value, section, title, comment))) == Some(
           AllMarked(M.Texts(list)[1..7]) +
           [M.TextOf(list[7]), "action_callback_" + M.TextOf(list[0]), "&action_" + M.TextOf(list[0])])
  {
    O.BlockRoundTrip(list, gap, code, after, "{" + B.Print(code, "}" + after));
    var b := O.Block(M.Texts(list), Normalize(B.Print(code, "")), after);
    var e := EntryOf(b, section, title, comment);
    TextsArgs(list);
    ArgFieldsOf(b, section, title, comment);
    RowReads(e, wide);
    StripSolid(M.Print(list[7], ""));
    SolidStrips(e.kind);
    FieldsInPlace(b.args, e);
  }

  /** A macro with another number of arguments, or with anything but blanks between its arguments and its body, is
      refused. */
  lemma MacroRefused(list: seq<M.Arg>, gap: string, c: char, rest: string)
    requires list != [] && M.AllBalanced(list) && forall i :: 0 <= i < |gap| ==> gap[i] in " \t\r\n"
    requires |list| != 8 || c !in " \t\r\n{"
    ensures O.Read(M.PrintAll(list, gap + ([c] + rest))).None?
  {
    var k := gap + ([c] + rest);
    O.ArgsRead(list, k);
    if |list| == 8 {
      O.SkipBlanks(gap, [c] + rest);
    }
    ReadRefused(M.PrintAll(list, k), M.Texts(list), k);
  }

  lemma ReadRefused(t: string, args: seq<string>, k: string)
    requires M.Split(t, 1, false, false, "", []) == Some((args, k))
    requires |args| != 8 || O.SkipBlank(k) == "" || O.SkipBlank(k)[0] != '{'
    ensures O.Read(t).None?
  {
  }

  lemma ArgFieldsOf(b: O.Block, section: string, title: string, comment: string)
    requires |b.args| == 8 && forall i :: 0 <= i < 8 ==> IsArg(b.args[i])
    ensures ArgFields(EntryOf(b, section, title, comment))
  {
  }

  lemma FieldsInPlace(args: seq<string>, e: Entry)
    requires |args| == 8 && e.id == args[1] && e.icon == args[2] && e.name == args[3] && e.text == args[4]
    requires e.menu == args[5] && e.tooltip == args[6]
    ensures AllMarked(args[1..7]) ==
      [Marked(e.id), Marked(e.icon), Marked(e.name), Marked(e.text), Marked(e.menu), Marked(e.tooltip)]
  {
    assert args[1..7] == [args[1], args[2], args[3], args[4], args[5], args[6]];
    SixMarked(args[1], args[2], args[3], args[4], args[5], args[6]);
  }

  lemma TextsArgs(list: seq<M.Arg>)
    requires M.AllBalanced(list)
    ensures forall i :: 0 <= i < |list| ==> IsArg(M.Texts(list)[i])
  {
    forall i | 0 <= i < |list|
      ensures IsArg(M.Texts(list)[i])
    {
      assert M.Balanced(list[i], true);
      assert IsArg(M.Print(list[i], ""));
      ArgStrip(M.Print(list[i], ""));
    }
  }
}
