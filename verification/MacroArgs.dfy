/** Splitting a macro's argument list: what the splitter accepts is exactly a list of balanced arguments. */
module MacroArgs {
  import opened Sequences
  import opened Wrappers
  import opened PyText

  /** The splitter from one position on: the arguments, and what follows the closing parenthesis. */
  function Split(t: string, depth: int, inString: bool, escaped: bool, current: string, args: seq<string>)
    : (r: Option<(seq<string>, string)>)
    ensures r.Some? ==> |r.value.1| < |t|
    decreases |t|
  {
    if t == "" then None
    else
      var more := current + [t[0]];
      if inString && escaped then Split(t[1..], depth, true, false, more, args)
      else if inString then Split(t[1..], depth, t[0] != '"', t[0] == '\\', more, args)
      else if t[0] == '"' then Split(t[1..], depth, true, false, more, args)
      else if t[0] == '(' then Split(t[1..], depth + 1, false, false, more, args)
      else if t[0] == ')' && depth == 1 then Some((args + [Strip(current)], t[1..]))
      else if t[0] == ')' then Split(t[1..], depth - 1, false, false, more, args)
      else if t[0] == ',' && depth == 1 then Split(t[1..], 1, false, false, "", args + [Strip(current)])
      else Split(t[1..], depth, false, false, more, args)
  }

  /** What follows is the end of the text. */
  lemma {:induction false} SplitSuffix(t: string, depth: int, inString: bool, escaped: bool, current: string,
                                       args: seq<string>)
    requires Split(t, depth, inString, escaped, current, args).Some?
    ensures var rest := Split(t, depth, inString, escaped, current, args).value.1; rest == t[|t| - |rest|..]
    decreases |t|
  {
    var more := current + [t[0]];
    if inString && escaped {
      SplitSuffix(t[1..], depth, true, false, more, args);
    } else if inString {
      SplitSuffix(t[1..], depth, t[0] != '"', t[0] == '\\', more, args);
    } else if t[0] == '"' {
      SplitSuffix(t[1..], depth, true, false, more, args);
    } else if t[0] == '(' {
      SplitSuffix(t[1..], depth + 1, false, false, more, args);
    } else if t[0] == ')' && depth != 1 {
      SplitSuffix(t[1..], depth - 1, false, false, more, args);
    } else if t[0] == ',' && depth == 1 {
      SplitSuffix(t[1..], 1, false, false, "", args + [Strip(current)]);
    } else if t[0] != ')' {
      SplitSuffix(t[1..], depth, false, false, more, args);
    }
  }

  /** _split_args: the arguments after the parenthesis before `start`, and the position after the closing one. */
  method SplitArgs(text: string, start: nat) returns (found: Option<(seq<string>, nat)>)
    requires start <= |text|
    ensures match Split(text[start..], 1, false, false, "", [])
      case None => found.None?
      case Some((args, rest)) => found == Some((args, |text| - |rest|))
  {
    var depth, inString, escaped := 1, false, false;
    var current: string := "";
    var args: seq<string> := [];
    var i := start;
    while i < |text|
      invariant start <= i <= |text| && depth >= 1 && (escaped ==> inString)
      invariant Split(text[start..], 1, false, false, "", []) ==
        Split(text[i..], depth, inString, escaped, current, args)
    {
      var ch := text[i];
      assert text[i..][1..] == text[i + 1..];
      if inString {
        current := current + [ch];
        if escaped {
          escaped := false;
        } else if ch == '\\' {
          escaped := true;
        } else if ch == '"' {
          inString := false;
        }
      } else if ch == '"' {
        inString := true;
        current := current + [ch];
      } else if ch == '(' {
        depth := depth + 1;
        current := current + [ch];
      } else if ch == ')' {
        depth := depth - 1;
        if depth == 0 {
          args := args + [Strip(current)];
          return Some((args, i + 1));
        }
        current := current + [ch];
      } else if ch == ',' && depth == 1 {
        args := args + [Strip(current)];
        current := "";
      } else {
        current := current + [ch];
      }
      i := i + 1;
    }
    return None;
  }

  // ---- balanced arguments

  datatype Arg =
    | End
    | Plain(c: char, rest: Arg)
    | Quoted(text: string, rest: Arg)
    | Parens(inner: Arg, rest: Arg)

  /** The argument as text, followed by k. */
  function Print(a: Arg, k: string): string {
    match a
    case End => k
    case Plain(c, rest) => [c] + Print(rest, k)
    case Quoted(text, rest) => "\"" + (text + ("\"" + Print(rest, k)))
    case Parens(inner, rest) => "(" + Print(inner, ")" + Print(rest, k))
  }

  predicate IsLiteral(t: string) {
    if t == "" then true
    else if t[0] == '\\' then |t| >= 2 && IsLiteral(t[2..])
    else t[0] != '"' && IsLiteral(t[1..])
  }

  /** Parentheses and quotes match; a comma stands only inside one or the other. */
  predicate Balanced(a: Arg, top: bool) {
    match a
    case End => true
    case Plain(c, rest) => c != '"' && c != '(' && c != ')' && !(top && c == ',') && Balanced(rest, top)
    case Quoted(text, rest) => IsLiteral(text) && Balanced(rest, top)
    case Parens(inner, rest) => Balanced(inner, false) && Balanced(rest, top)
  }

  /** Arguments joined by commas, closed by a parenthesis. */
  function PrintAll(list: seq<Arg>, k: string): string
    requires list != []
  {
    Print(list[0], if |list| == 1 then ")" + k else "," + PrintAll(list[1..], k))
  }

  function Texts(list: seq<Arg>): seq<string> {
    seq(|list|, i requires 0 <= i < |list| => TextOf(list[i]))
  }

  predicate AllBalanced(list: seq<Arg>) {
    forall i :: 0 <= i < |list| ==> Balanced(list[i], true)
  }

  // ---- the splitter passes over balanced arguments

  lemma {:induction false} SplitLiteral(t: string, k: string, depth: int, current: string, args: seq<string>)
    requires IsLiteral(t)
    ensures Split(t + ("\"" + k), depth, true, false, current, args) ==
      Split(k, depth, false, false, current + (t + "\""), args)
    decreases |t|
  {
    var u := t + ("\"" + k);
    if t == "" {
      assert u == "\"" + k && u[1..] == k && t + "\"" == "\"";
    } else if t[0] == '\\' {
      assert u[1..][1..] == t[2..] + ("\"" + k);
      SplitLiteral(t[2..], k, depth, current + [t[0]] + [t[1]], args);
      assert current + [t[0]] + [t[1]] + (t[2..] + "\"") == current + (t + "\"");
    } else {
      assert u[1..] == t[1..] + ("\"" + k);
      SplitLiteral(t[1..], k, depth, current + [t[0]], args);
      assert current + [t[0]] + (t[1..] + "\"") == current + (t + "\"");
    }
  }

  lemma {:induction false} PrintAppend(a: Arg, k: string)
    ensures Print(a, k) == Print(a, "") + k
    decreases a
  {
    match a
    case End =>
    case Plain(c, rest) => PrintAppend(rest, k);
    case Quoted(text, rest) => PrintAppend(rest, k);
    case Parens(inner, rest) =>
      PrintAppend(rest, k);
      PrintAppend(inner, ")" + Print(rest, k));
      PrintAppend(inner, ")" + Print(rest, ""));
  }

  lemma {:induction false} SplitBalanced(a: Arg, k: string, depth: int, current: string, args: seq<string>)
    requires Balanced(a, depth == 1) && depth >= 1
    ensures Split(Print(a, k), depth, false, false, current, args) ==
      Split(k, depth, false, false, current + Print(a, ""), args)
    decreases a
  {
    var t := Print(a, k);
    match a
    case End =>
      assert current + "" == current;
    case Plain(c, rest) =>
      assert t[1..] == Print(rest, k);
      SplitBalanced(rest, k, depth, current + [c], args);
      Associative(current, [c], Print(rest, ""));
    case Quoted(text, rest) =>
      assert t[1..] == text + ("\"" + Print(rest, k));
      SplitLiteral(text, Print(rest, k), depth, current + "\"", args);
      SplitBalanced(rest, k, depth, current + "\"" + (text + "\""), args);
      Associative(current + "\"", text + "\"", Print(rest, ""));
      Associative(text, "\"", Print(rest, ""));
      Associative(current, "\"", text + ("\"" + Print(rest, "")));
    case Parens(inner, rest) =>
      var after := ")" + Print(rest, k);
      assert t[1..] == Print(inner, after) && after[1..] == Print(rest, k);
      SplitBalanced(inner, after, depth + 1, current + "(", args);
      SplitBalanced(rest, k, depth, current + "(" + Print(inner, "") + ")", args);
      PrintAppend(inner, ")" + Print(rest, ""));
      Associative(current + "(" + Print(inner, ""), ")", Print(rest, ""));
      Associative(current + "(", Print(inner, ""), ")" + Print(rest, ""));
      Associative(current, "(", Print(inner, "") + (")" + Print(rest, "")));
  }

  function TextOf(a: Arg): string {
    Strip(Print(a, ""))
  }

  lemma SplitLast(a: Arg, k: string, args: seq<string>)
    requires Balanced(a, true)
    ensures Split(Print(a, ")" + k), 1, false, false, "", args) == Some((args + [TextOf(a)], k))
  {
    SplitBalanced(a, ")" + k, 1, "", args);
    assert "" + Print(a, "") == Print(a, "");
    assert (")" + k)[1..] == k;
  }

  lemma SplitMore(a: Arg, k: string, args: seq<string>)
    requires Balanced(a, true)
    ensures Split(Print(a, "," + k), 1, false, false, "", args) == Split(k, 1, false, false, "", args + [TextOf(a)])
  {
    SplitBalanced(a, "," + k, 1, "", args);
    assert "" + Print(a, "") == Print(a, "");
    SplitComma(k, Print(a, ""), args);
  }

  lemma SplitComma(k: string, current: string, args: seq<string>)
    ensures Split("," + k, 1, false, false, current, args) == Split(k, 1, false, false, "", args + [Strip(current)])
  {
    assert ("," + k)[1..] == k;
  }

  lemma TextsCons(list: seq<Arg>, args: seq<string>)
    requires list != []
    ensures args + Texts(list) == (args + [TextOf(list[0])]) + Texts(list[1..])
  {
    assert Texts(list) == [TextOf(list[0])] + Texts(list[1..]);
  }

  lemma {:induction false} SplitAll(list: seq<Arg>, k: string, args: seq<string>)
    requires list != [] && AllBalanced(list)
    ensures Split(PrintAll(list, k), 1, false, false, "", args) == Some((args + Texts(list), k))
    decreases |list|
  {
    TextsCons(list, args);
    if |list| == 1 {
      SplitLast(list[0], k, args);
      assert Texts(list[1..]) == [];
      assert (args + [TextOf(list[0])]) + [] == args + [TextOf(list[0])];
    } else {
      SplitMore(list[0], PrintAll(list[1..], k), args);
      SplitAll(list[1..], k, args + [TextOf(list[0])]);
    }
  }

  // ---- and passes over nothing else

  lemma {:induction false} LiteralEnd(t: string, depth: int, current: string, args: seq<string>)
    returns (text: string, k: string)
    requires Split(t, depth, true, false, current, args).Some?
    ensures t == text + ("\"" + k) && IsLiteral(text)
    decreases |t|
  {
    if t[0] == '\\' {
      assert t[1..][1..] == t[2..];
      text, k := LiteralEnd(t[2..], depth, current + [t[0]] + [t[1]], args);
      text := t[..2] + text;
    } else if t[0] == '"' {
      text, k := "", t[1..];
    } else {
      text, k := LiteralEnd(t[1..], depth, current + [t[0]], args);
      text := [t[0]] + text;
    }
  }

  /** Up to the comma or parenthesis that ends it, what the splitter passes over is a balanced argument. */
  lemma {:induction false} Passed(t: string, depth: int, current: string, args: seq<string>)
    returns (a: Arg, k: string)
    requires Split(t, depth, false, false, current, args).Some? && depth >= 1
    ensures Balanced(a, depth == 1) && t == Print(a, k) && |k| <= |t|
    ensures k != "" && (k[0] == ')' || (depth == 1 && k[0] == ','))
    decreases |t|
  {
    if t[0] == '"' {
      var text, after := LiteralEnd(t[1..], depth, current + [t[0]], args);
      SplitLiteral(text, after, depth, current + [t[0]], args);
      a, k := Passed(after, depth, current + [t[0]] + (text + "\""), args);
      a := Quoted(text, a);
    } else if t[0] == '(' {
      var inner, after := Passed(t[1..], depth + 1, current + [t[0]], args);
      SplitBalanced(inner, after, depth + 1, current + [t[0]], args);
      a, k := Passed(after[1..], depth, current + [t[0]] + Print(inner, "") + ")", args);
      a := Parens(inner, a);
      assert after == ")" + after[1..];
    } else if t[0] == ')' || (t[0] == ',' && depth == 1) {
      a, k := End, t;
    } else {
      a, k := Passed(t[1..], depth, current + [t[0]], args);
      a := Plain(t[0], a);
    }
  }

  lemma {:induction false} AllPassed(t: string, args: seq<string>) returns (list: seq<Arg>, k: string)
    requires Split(t, 1, false, false, "", args).Some?
    ensures list != [] && AllBalanced(list) && t == PrintAll(list, k)
    decreases |t|
  {
    var a, after := Passed(t, 1, "", args);
    if after[0] == ')' {
      list, k := [a], after[1..];
      assert after == ")" + k;
    } else {
      var more;
      assert after == "," + after[1..];
      SplitMore(a, after[1..], args);
      more, k := AllPassed(after[1..], args + [TextOf(a)]);
      list := [a] + more;
      assert list[1..] == more;
    }
  }

  /** The splitter inverts printing: it yields these texts and this rest if and only if the text is a list of
      balanced arguments with those texts, closed by a parenthesis and followed by that rest. */
  lemma ArgsExactly(t: string, texts: seq<string>, rest: string)
    ensures Split(t, 1, false, false, "", []) == Some((texts, rest)) <==>
      exists list :: list != [] && AllBalanced(list) && t == PrintAll(list, rest) && texts == Texts(list)
  {
    if Split(t, 1, false, false, "", []) == Some((texts, rest)) {
      var list, k := AllPassed(t, []);
      SplitAll(list, k, []);
      assert [] + Texts(list) == Texts(list);
    }
    if list :| list != [] && AllBalanced(list) && t == PrintAll(list, rest) && texts == Texts(list) {
      SplitAll(list, rest, []);
      assert [] + Texts(list) == Texts(list);
    }
  }
}
