/** Cutting a callback body out of C source: what the lexer accepts is exactly balanced code. */
module BraceBody {
  import opened Wrappers

  datatype Mode = Code | LineComment | BlockComment | Literal(quote: char, escaped: bool)

  predicate Starts(t: string, a: char, b: char) {
    |t| >= 2 && t[0] == a && t[1] == b
  }

  /** The lexer from one position on: what follows the brace that brings the depth down to zero. */
  function Scan(t: string, mode: Mode, depth: int): (rest: Option<string>)
    ensures rest.Some? ==> |rest.value| < |t|
    decreases |t|
  {
    if t == "" then None
    else
      match mode
      case LineComment => Scan(t[1..], if t[0] == '\n' then Code else LineComment, depth)
      case BlockComment =>
        if Starts(t, '*', '/') then Scan(t[2..], Code, depth) else Scan(t[1..], BlockComment, depth)
      case Literal(quote, escaped) =>
        if escaped then Scan(t[1..], Literal(quote, false), depth)
        else if t[0] == '\\' then Scan(t[1..], Literal(quote, true), depth)
        else Scan(t[1..], if t[0] == quote then Code else mode, depth)
      case Code =>
        if Starts(t, '/', '/') then Scan(t[2..], LineComment, depth)
        else if Starts(t, '/', '*') then Scan(t[2..], BlockComment, depth)
        else if t[0] == '"' || t[0] == '\'' then Scan(t[1..], Literal(t[0], false), depth)
        else if t[0] == '{' then Scan(t[1..], Code, depth + 1)
        else if t[0] == '}' && depth == 1 then Some(t[1..])
        else if t[0] == '}' then Scan(t[1..], Code, depth - 1)
        else Scan(t[1..], Code, depth)
  }

  /** _brace_body: the text between the brace at `start` and its partner, and the position after that. */
  method Extract(text: string, start: nat) returns (found: Option<(string, nat)>)
    ensures start >= |text| || text[start] != '{' ==> found.None?
    ensures start < |text| && text[start] == '{' ==>
      match Scan(text[start + 1..], Code, 1)
      case None => found.None?
      case Some(rest) => found == Some((text[start + 1..|text| - |rest| - 1], |text| - |rest|))
  {
    if start >= |text| || text[start] != '{' {
      return None;
    }
    var depth := 0;
    var inString, inChar, inLineComment, inBlockComment, escaped := false, false, false, false, false;
    var i := start;
    while i < |text|
      invariant start <= i <= |text|
      invariant i == start ==> depth == 0 && !inString && !inChar && !inLineComment && !inBlockComment && !escaped
      invariant i > start ==> depth >= 1 && OneMode(inString, inChar, inLineComment, inBlockComment, escaped)
      invariant i > start ==>
        Scan(text[start + 1..], Code, 1) ==
        Scan(text[i..], ModeOf(inString, inChar, inLineComment, inBlockComment, escaped), depth)
    {
      var ch := text[i];
      var next := if i + 1 < |text| then [text[i + 1]] else [];
      ghost var t := text[i..];
      assert t[1..] == text[i + 1..] && (|t| >= 2 ==> t[2..] == text[i + 2..]);
      if inLineComment {
        if ch == '\n' {
          inLineComment := false;
        }
      } else if inBlockComment {
        if ch == '*' && next == "/" {
          inBlockComment := false;
          i := i + 1;
        }
      } else if inString {
        if escaped {
          escaped := false;
        } else if ch == '\\' {
          escaped := true;
        } else if ch == '"' {
          inString := false;
        }
      } else if inChar {
        if escaped {
          escaped := false;
        } else if ch == '\\' {
          escaped := true;
        } else if ch == '\'' {
          inChar := false;
        }
      } else if ch == '/' && next == "/" {
        inLineComment := true;
        i := i + 1;
      } else if ch == '/' && next == "*" {
        inBlockComment := true;
        i := i + 1;
      } else if ch == '"' {
        inString := true;
      } else if ch == '\'' {
        inChar := true;
      } else if ch == '{' {
        depth := depth + 1;
      } else if ch == '}' {
        depth := depth - 1;
        if depth == 0 {
          return Some((text[start + 1..i], i + 1));
        }
      }
      i := i + 1;
    }
    return None;
  }

  /** At most one flag is up, and an escape is pending only inside a literal. */
  predicate OneMode(inString: bool, inChar: bool, inLineComment: bool, inBlockComment: bool, escaped: bool) {
    && (inLineComment ==> !inBlockComment && !inString && !inChar)
    && (inBlockComment ==> !inString && !inChar)
    && (inString ==> !inChar)
    && (escaped ==> inString || inChar)
  }

  function ModeOf(inString: bool, inChar: bool, inLineComment: bool, inBlockComment: bool, escaped: bool): Mode {
    if inLineComment then LineComment
    else if inBlockComment then BlockComment
    else if inString then Literal('"', escaped)
    else if inChar then Literal('\'', escaped)
    else Code
  }

  // ---- balanced code

  /** Code without unmatched braces: characters, literals, comments and blocks. */
  datatype Source =
    | End
    | Plain(c: char, rest: Source)
    | Quoted(quote: char, text: string, rest: Source)
    | Line(text: string, rest: Source)
    | Block(text: string, rest: Source)
    | Braces(inner: Source, rest: Source)

  /** The code as text, followed by k. */
  function Print(s: Source, k: string): string {
    match s
    case End => k
    case Plain(c, rest) => [c] + Print(rest, k)
    case Quoted(quote, text, rest) => [quote] + (text + ([quote] + Print(rest, k)))
    case Line(text, rest) => "//" + (text + ("\n" + Print(rest, k)))
    case Block(text, rest) => "/*" + (text + ("*/" + Print(rest, k)))
    case Braces(inner, rest) => "{" + Print(inner, "}" + Print(rest, k))
  }

  /** Text inside quotes: no bare quote, and no backslash without a character after it. */
  predicate IsLiteral(quote: char, t: string) {
    if t == "" then true
    else if t[0] == '\\' then |t| >= 2 && IsLiteral(quote, t[2..])
    else t[0] != quote && IsLiteral(quote, t[1..])
  }

  predicate NoClose(t: string) {
    forall i :: 0 <= i < |t| - 1 ==> !(t[i] == '*' && t[i + 1] == '/')
  }

  /** A slash does not start a comment, given what follows it. */
  predicate Alone(c: char, after: string) {
    c == '/' ==> after == "" || (after[0] != '/' && after[0] != '*')
  }

  predicate Balanced(s: Source) {
    match s
    case End => true
    case Plain(c, rest) =>
      c != '"' && c != '\'' && c != '{' && c != '}' && Alone(c, Print(rest, "}")) && Balanced(rest)
    case Quoted(quote, text, rest) => (quote == '"' || quote == '\'') && IsLiteral(quote, text) && Balanced(rest)
    case Line(text, rest) => '\n' !in text && Balanced(rest)
    case Block(text, rest) => NoClose(text) && Balanced(rest)
    case Braces(inner, rest) => Balanced(inner) && Balanced(rest)
  }

  // ---- the lexer passes over balanced code

  lemma {:induction false} ScanLiteral(quote: char, t: string, k: string, depth: int)
    requires quote != '\\' && IsLiteral(quote, t)
    ensures Scan(t + ([quote] + k), Literal(quote, false), depth) == Scan(k, Code, depth)
    decreases |t|
  {
    var u := t + ([quote] + k);
    if t == "" {
      assert u == [quote] + k && u[1..] == k;
    } else if t[0] == '\\' {
      assert u[1..][1..] == t[2..] + ([quote] + k);
      ScanLiteral(quote, t[2..], k, depth);
    } else {
      assert u[1..] == t[1..] + ([quote] + k);
      ScanLiteral(quote, t[1..], k, depth);
    }
  }

  lemma {:induction false} ScanLine(t: string, k: string, depth: int)
    requires '\n' !in t
    ensures Scan(t + ("\n" + k), LineComment, depth) == Scan(k, Code, depth)
  {
    var u := t + ("\n" + k);
    if t == "" {
      assert u == "\n" + k && u[1..] == k;
    } else {
      assert u[1..] == t[1..] + ("\n" + k) && t[0] in t;
      ScanLine(t[1..], k, depth);
    }
  }

  lemma {:induction false} ScanBlock(t: string, k: string, depth: int)
    requires NoClose(t)
    ensures Scan(t + ("*/" + k), BlockComment, depth) == Scan(k, Code, depth)
  {
    var u := t + ("*/" + k);
    if t == "" {
      assert u == "*/" + k && u[2..] == k;
    } else {
      assert u[1..] == t[1..] + ("*/" + k) && u[1] == (if |t| > 1 then t[1] else '*');
      ScanBlock(t[1..], k, depth);
    }
  }

  /** What a text begins with does not depend on what follows its closing brace. */
  lemma {:induction false} PrintFirst(s: Source, k: string, l: string)
    requires k != "" && l != "" && k[0] == l[0]
    ensures Print(s, k) != "" && Print(s, l) != "" && Print(s, k)[0] == Print(s, l)[0]
  {
  }

  /** From the start of balanced code followed by a closing brace, the lexer reaches that brace. */
  lemma {:induction false} ScanBalanced(s: Source, k: string, depth: int)
    requires Balanced(s) && depth >= 1
    ensures Scan(Print(s, "}" + k), Code, depth) == if depth == 1 then Some(k) else Scan(k, Code, depth - 1)
    decreases s
  {
    var t := Print(s, "}" + k);
    match s
    case End =>
      assert t[1..] == k;
    case Plain(c, rest) =>
      ScanBalanced(rest, k, depth);
      PrintFirst(rest, "}", "}" + k);
      assert t[1..] == Print(rest, "}" + k);
    case Quoted(quote, text, rest) =>
      ScanBalanced(rest, k, depth);
      ScanLiteral(quote, text, Print(rest, "}" + k), depth);
      assert t[1..] == text + ([quote] + Print(rest, "}" + k));
    case Line(text, rest) =>
      ScanBalanced(rest, k, depth);
      ScanLine(text, Print(rest, "}" + k), depth);
      assert t[2..] == text + ("\n" + Print(rest, "}" + k));
    case Block(text, rest) =>
      ScanBalanced(rest, k, depth);
      ScanBlock(text, Print(rest, "}" + k), depth);
      assert t[2..] == text + ("*/" + Print(rest, "}" + k));
    case Braces(inner, rest) =>
      ScanBalanced(rest, k, depth);
      ScanBalanced(inner, Print(rest, "}" + k), depth + 1);
      assert t[1..] == Print(inner, "}" + Print(rest, "}" + k));
  }

  // ---- and passes over nothing else

  lemma {:induction false} LiteralEnd(quote: char, t: string, depth: int) returns (text: string, k: string)
    requires quote != '\\' && Scan(t, Literal(quote, false), depth).Some?
    ensures t == text + ([quote] + k) && IsLiteral(quote, text)
    ensures Scan(k, Code, depth) == Scan(t, Literal(quote, false), depth)
    decreases |t|
  {
    if t[0] == '\\' {
      assert t[1..][1..] == t[2..];
      text, k := LiteralEnd(quote, t[2..], depth);
      text := t[..2] + text;
    } else if t[0] == quote {
      text, k := "", t[1..];
    } else {
      text, k := LiteralEnd(quote, t[1..], depth);
      text := [t[0]] + text;
    }
  }

  lemma {:induction false} LineEnd(t: string, depth: int) returns (text: string, k: string)
    requires Scan(t, LineComment, depth).Some?
    ensures t == text + ("\n" + k) && '\n' !in text
    ensures Scan(k, Code, depth) == Scan(t, LineComment, depth)
  {
    if t[0] == '\n' {
      text, k := "", t[1..];
    } else {
      text, k := LineEnd(t[1..], depth);
      text := [t[0]] + text;
    }
  }

  lemma {:induction false} BlockEnd(t: string, depth: int) returns (text: string, k: string)
    requires Scan(t, BlockComment, depth).Some?
    ensures t == text + ("*/" + k) && NoClose(text)
    ensures Scan(k, Code, depth) == Scan(t, BlockComment, depth)
  {
    if Starts(t, '*', '/') {
      text, k := "", t[2..];
    } else {
      text, k := BlockEnd(t[1..], depth);
      assert forall i :: 0 <= i < |text| ==> text[i] == t[i + 1];
      text := [t[0]] + text;
    }
  }

  /** Whatever the lexer passes over is balanced code and its closing brace. */
  lemma {:induction false} Passed(t: string, depth: int) returns (s: Source, k: string)
    requires Scan(t, Code, depth).Some? && depth >= 1
    ensures Balanced(s) && t == Print(s, "}" + k) && |k| < |t|
    ensures Scan(t, Code, depth) == if depth == 1 then Some(k) else Scan(k, Code, depth - 1)
    decreases |t|
  {
    if Starts(t, '/', '/') {
      var text, after := LineEnd(t[2..], depth);
      s, k := Passed(after, depth);
      s := Line(text, s);
    } else if Starts(t, '/', '*') {
      var text, after := BlockEnd(t[2..], depth);
      s, k := Passed(after, depth);
      s := Block(text, s);
    } else if t[0] == '"' || t[0] == '\'' {
      var text, after := LiteralEnd(t[0], t[1..], depth);
      s, k := Passed(after, depth);
      s := Quoted(t[0], text, s);
    } else if t[0] == '{' {
      var inner, after := Passed(t[1..], depth + 1);
      s, k := Passed(after, depth);
      s := Braces(inner, s);
    } else if t[0] == '}' {
      s, k := End, t[1..];
    } else {
      s, k := Passed(t[1..], depth);
      PrintFirst(s, "}", "}" + k);
      s := Plain(t[0], s);
    }
  }

  lemma {:induction false} PrintAppend(s: Source, k: string)
    ensures Print(s, k) == Print(s, "") + k
    decreases s
  {
    match s
    case End =>
    case Plain(c, rest) => PrintAppend(rest, k);
    case Quoted(quote, text, rest) => PrintAppend(rest, k);
    case Line(text, rest) => PrintAppend(rest, k);
    case Block(text, rest) => PrintAppend(rest, k);
    case Braces(inner, rest) =>
      PrintAppend(rest, k);
      PrintAppend(inner, "}" + Print(rest, k));
      PrintAppend(inner, "}" + Print(rest, ""));
  }

  /** The lexer inverts printing: it yields `body` and leaves `rest` if and only if the text is balanced
      code that prints as `body`, a closing brace, and `rest`. */
  lemma BodyExactly(text: string, body: string, rest: string)
    ensures (text == body + ("}" + rest) && Scan(text, Code, 1) == Some(rest)) <==>
      exists s :: Balanced(s) && Print(s, "") == body && text == body + ("}" + rest)
  {
    if text == body + ("}" + rest) && Scan(text, Code, 1) == Some(rest) {
      var s, k := Passed(text, 1);
      PrintAppend(s, "}" + k);
      assert |body| == |Print(s, "")|;
      assert text[..|body|] == body && text[..|body|] == Print(s, "");
    }
    if s :| Balanced(s) && Print(s, "") == body && text == body + ("}" + rest) {
      ScanBalanced(s, rest, 1);
      PrintAppend(s, "}" + rest);
    }
  }
}
