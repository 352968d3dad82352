/** Normalising a callback body, and the same thing seen gap by gap. */
module BodyText {
  import opened PyText

  function StripEach(lines: seq<string>): seq<string> {
    seq(|lines|, i requires 0 <= i < |lines| => Rstrip(lines[i]))
  }

  function DropLead(lines: seq<string>): seq<string> {
    if lines != [] && lines[0] == "" then DropLead(lines[1..]) else lines
  }

  function DropTrail(lines: seq<string>): seq<string> {
    if lines != [] && lines[|lines| - 1] == "" then DropTrail(lines[..|lines| - 1]) else lines
  }

  /** What normalize_body returns: lines without trailing space, and no blank lines at either end. */
  function Normalize(body: string): string {
    Join(DropTrail(DropLead(StripEach(SplitLines(body)))))
  }

  lemma StripBlank(line: string)
    requires Rstrip(line) == line
    ensures Strip(line) == "" <==> line == ""
  {
    var n := Spaces(line);
    if n < |line| {
      assert line[n..][|line| - n - 1] == line[|line| - 1];
    }
  }

  method NormalizeBody(body: string) returns (text: string)
    ensures text == Normalize(body)
  {
    var raw := SplitLines(body);
    var lines: seq<string> := [];
    for i := 0 to |raw|
      invariant lines == StripEach(raw)[..i]
    {
      lines := lines + [Rstrip(raw[i])];
    }
    ghost var stripped := StripEach(raw);
    assert lines == stripped;
    while lines != [] && Strip(lines[0]) == ""
      invariant DropLead(lines) == DropLead(stripped)
      invariant forall i :: 0 <= i < |lines| ==> Rstrip(lines[i]) == lines[i]
      decreases |lines|
    {
      StripBlank(lines[0]);
      lines := lines[1..];
    }
    if lines != [] {
      StripBlank(lines[0]);
    }
    ghost var led := DropLead(stripped);
    assert lines == led;
    while lines != [] && Strip(lines[|lines| - 1]) == ""
      invariant DropTrail(lines) == DropTrail(led)
      invariant forall i :: 0 <= i < |lines| ==> Rstrip(lines[i]) == lines[i]
      decreases |lines|
    {
      StripBlank(lines[|lines| - 1]);
      lines := lines[..|lines| - 1];
    }
    if lines != [] {
      StripBlank(lines[|lines| - 1]);
    }
    return Join(lines);
  }
}
