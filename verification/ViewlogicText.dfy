/** The converter's output as text: which entry each record becomes, and what stands in front of attached texts. */
module ViewlogicText {
  import opened Viewlogic
  import opened Wrappers
  import opened Sequences

  /** The leading character of an entry; a text is shown with its prefix. */
  function Shown(e: Entry): string {
    match e
    case Version => "v"
    case Text(prefix) => "T" + prefix
    case Line => "L"
    case Circle => "V"
    case Pin => "P"
    case Box => "B"
    case Arc => "A"
    case Net => "N"
    case Bus => "U"
    case Component => "C"
    case Open => "{"
    case Close => "}"
  }

  function AllShown(out: seq<Entry>): string {
    if out == [] then "" else AllShown(out[..|out| - 1]) + Shown(out[|out| - 1])
  }

  /** What a whole stream is converted to. */
  function Converted(records: seq<Record>): seq<Entry> {
    Print(AllItems(Meaning(records)))
  }

  function ConvertedText(records: seq<Record>): string {
    AllShown(Converted(records))
  }

  lemma {:induction false} ShownAppend(a: seq<Entry>, b: seq<Entry>)
    ensures AllShown(a + b) == AllShown(a) + AllShown(b)
  {
    if b == [] {
      NothingLast(a);
      NothingLast(AllShown(a));
    } else {
      var m := |b| - 1;
      assert (a + b)[..|a + b| - 1] == a + b[..m];
      ShownAppend(a, b[..m]);
      Associative(AllShown(a), AllShown(b[..m]), Shown(b[m]));
    }
  }

  lemma ShownOne(e: Entry)
    ensures AllShown([e]) == Shown(e)
  {
    assert [e][..0] == [];
    NothingFirst(Shown(e));
  }

  lemma MeaningNext(records: seq<Record>, r: Record)
    ensures Meaning(records + [r]) == Take(Meaning(records), r)
  {
    assert (records + [r])[..|records|] == records;
  }

  /** Everything before a record that ends the object before it stays, and the record adds its own entries. */
  lemma ShapeAdds(records: seq<Record>, r: Record, e: Entry, n: nat)
    requires Take(Meaning(records), r) == Loose(Meaning(records), e, n)
    ensures ConvertedText(records + [r]) == ConvertedText(records) + AllShown(Repeat(e, n))
  {
    MeaningNext(records, r);
    PrintBares(AllItems(Meaning(records)), e, n);
    ShownAppend(Converted(records), Repeat(e, n));
  }

  function Times(letter: char, n: nat): string {
    if n == 0 then "" else Times(letter, n - 1) + [letter]
  }

  lemma TimesFew(letter: char)
    ensures Times(letter, 1) == [letter] && Times(letter, 2) == [letter, letter]
  {
    assert Times(letter, 0) == "";
  }

  lemma {:induction false} RepeatShown(e: Entry, n: nat, letter: char)
    requires Shown(e) == [letter]
    ensures AllShown(Repeat(e, n)) == Times(letter, n)
  {
    if n > 0 {
      RepeatShown(e, n - 1, letter);
      ShownNext(Repeat(e, n - 1), e);
    }
  }

  lemma ShownNext(out: seq<Entry>, e: Entry)
    ensures AllShown(out + [e]) == AllShown(out) + Shown(e)
  {
    TakeFront(out, [e]);
  }

  lemma ShapeShown(records: seq<Record>, r: Record, e: Entry, n: nat, letter: char)
    requires Take(Meaning(records), r) == Loose(Meaning(records), e, n) && Shown(e) == [letter]
    ensures ConvertedText(records + [r]) == ConvertedText(records) + Times(letter, n)
  {
    ShapeAdds(records, r, e, n);
    RepeatShown(e, n, letter);
  }

  /** Graphics and free text: one entry each, a line for each pair of neighbouring points, and two lines for an arc
      whose points lie on a line. */
  function ShapeLetters(r: Record): string
    requires IsShape(r)
  {
    match r
    case TextRecord => "T"
    case BoxRecord => "B"
    case CircleRecord => "V"
    case ArcRecord(degenerate) => if degenerate then "LL" else "A"
    case LineRecord(points) => Times('L', if points == 0 then 0 else points - 1)
  }

  lemma Shapes(records: seq<Record>, r: Record)
    requires IsShape(r)
    ensures ConvertedText(records + [r]) == ConvertedText(records) + ShapeLetters(r)
  {
    match r
    case TextRecord => ShapeShown(records, r, Text(""), 1, 'T');
    case BoxRecord => ShapeShown(records, r, Box, 1, 'B');
    case CircleRecord => ShapeShown(records, r, Circle, 1, 'V');
    case ArcRecord(degenerate) => ArcShown(records, degenerate);
    case LineRecord(points) => ShapeShown(records, r, Line, if points == 0 then 0 else points - 1, 'L');
  }

  lemma ArcShown(records: seq<Record>, degenerate: bool)
    ensures ConvertedText(records + [ArcRecord(degenerate)]) ==
      ConvertedText(records) + ShapeLetters(ArcRecord(degenerate))
  {
    TimesFew('L');
    TimesFew('A');
    if degenerate {
      ShapeShown(records, ArcRecord(true), Line, 2, 'L');
    } else {
      ShapeShown(records, ArcRecord(false), Arc, 1, 'A');
    }
  }

  /** The records of objects that take attributes. */
  predicate IsObject(r: Record) {
    r.PinRecord? || r.Segment? || r.BusSegment? || r.Instance?
  }

  /** An object's letter, after a bubble if it is an inverted pin. */
  function ObjectLetters(r: Record): string
    requires IsObject(r)
  {
    match r
    case PinRecord(inverted) => if inverted then "VP" else "P"
    case Segment => "N"
    case BusSegment => "U"
    case Instance => "C"
  }

  /** What a label attached to an object is. */
  function ObjectLabel(r: Record): string
    requires IsObject(r)
  {
    match r
    case PinRecord(_) => "pinlabel="
    case Segment => "netname="
    case BusSegment => "netname="
    case Instance => "refdes="
  }

  lemma ObjectBegins(d: Drawing, r: Record) returns (e: Entry, before: nat)
    requires IsObject(r)
    ensures before <= 1 && Take(d, r) == Begin(d, before, e) && LabelPrefix(Take(d, r)) == ObjectLabel(r)
    ensures (if before == 1 then "V" else "") + Shown(e) == ObjectLetters(r)
  {
    match r
    case PinRecord(inverted) =>
      e, before := Pin, if inverted then 1 else 0;
      assert "V" + "P" == "VP";
    case Segment => e, before := Net, 0;
    case BusSegment => e, before := Bus, 0;
    case Instance => e, before := Component, 0;
  }

  /** An object is written as its letter; a label that follows it goes into its braces: as the net name of a net or bus,
      the refdes of a component, the name of a pin. */
  lemma Objects(records: seq<Record>, r: Record)
    requires IsObject(r)
    ensures ConvertedText(records + [r]) == ConvertedText(records) + ObjectLetters(r)
    ensures ConvertedText(records + [r] + [Label]) ==
      ConvertedText(records) + (ObjectLetters(r) + ("{T" + ObjectLabel(r) + "}"))
  {
    MeaningNext(records, r);
    MeaningNext(records + [r], Label);
    TakenShown(Meaning(records), r);
    LabelledShown(Meaning(records), r);
  }

  lemma TakenShown(d: Drawing, r: Record)
    requires IsObject(r)
    ensures AllShown(Print(AllItems(Take(d, r)))) == AllShown(Print(AllItems(d))) + ObjectLetters(r)
  {
    var e, before := ObjectBegins(d, r);
    BeginShown(d, before, e);
  }

  lemma LabelTaken(d: Drawing)
    ensures Take(d, Label) == Attach(d, [LabelPrefix(d)])
  {
  }

  lemma Regrouped(front: string, before: nat, e: Entry, r: Record)
    requires IsObject(r) && (if before == 1 then "V" else "") + Shown(e) == ObjectLetters(r)
    ensures front + ((if before == 1 then "V" else "") + Shown(e) + ("{T" + ObjectLabel(r) + "}")) ==
      front + (ObjectLetters(r) + ("{T" + ObjectLabel(r) + "}"))
  {
  }

  lemma LabelledShown(d: Drawing, r: Record)
    requires IsObject(r)
    ensures AllShown(Print(AllItems(Take(Take(d, r), Label)))) ==
      AllShown(Print(AllItems(d))) + (ObjectLetters(r) + ("{T" + ObjectLabel(r) + "}"))
  {
    var e, before := ObjectBegins(d, r);
    LabelTaken(Take(d, r));
    LabelShown(d, before, e, ObjectLabel(r));
    Regrouped(AllShown(Print(AllItems(d))), before, e, r);
  }

  lemma BubbleShown(before: nat)
    requires before <= 1
    ensures AllShown(Repeat(Circle, before)) == if before == 1 then "V" else ""
  {
    RepeatShown(Circle, before, 'V');
  }

  lemma BeginShown(d: Drawing, before: nat, e: Entry)
    requires before <= 1
    ensures AllShown(Print(AllItems(Begin(d, before, e)))) ==
      AllShown(Print(AllItems(d))) + ((if before == 1 then "V" else "") + Shown(e))
  {
    var front := Print(AllItems(d));
    PrintBares(AllItems(d), Circle, before);
    PrintSnoc(AllItems(d) + Bares(Circle, before), Bare(e));
    ShownAppend(front, Repeat(Circle, before));
    ShownAppend(front + Repeat(Circle, before), [e]);
    ShownOne(e);
    BubbleShown(before);
    Associative(AllShown(front), if before == 1 then "V" else "", Shown(e));
  }

  lemma OneText(prefix: string)
    ensures TextEntries([prefix]) == [Text(prefix)]
  {
    assert [prefix][..0] == [];
    NothingFirst([Text(prefix)]);
  }

  /** A text attached to an object without attributes yet. */
  lemma BracedShown(out: seq<Entry>, prefix: string)
    ensures AllShown(out + [Open] + TextEntries([prefix]) + [Close]) == AllShown(out) + ("{T" + prefix + "}")
  {
    OneText(prefix);
    ShownAppend(out, [Open]);
    ShownAppend(out + [Open], [Text(prefix)]);
    ShownAppend(out + [Open] + [Text(prefix)], [Close]);
    ShownOne(Open);
    ShownOne(Text(prefix));
    ShownOne(Close);
    Joined(AllShown(out), prefix);
  }

  lemma LabelShown(d: Drawing, before: nat, e: Entry, prefix: string)
    requires before <= 1
    ensures AllShown(Print(AllItems(Attach(Begin(d, before, e), [prefix])))) ==
      AllShown(Print(AllItems(d))) + ((if before == 1 then "V" else "") + Shown(e) + ("{T" + prefix + "}"))
  {
    var items := AllItems(d) + Bares(Circle, before);
    BeginShown(d, before, e);
    PrintSnoc(items, Bare(e));
    GroupPrint(items, e, [prefix]);
    BracedShown(Print(items) + [e], prefix);
    Associative(AllShown(Print(AllItems(d))), (if before == 1 then "V" else "") + Shown(e), "{T" + prefix + "}");
  }

  lemma Joined(front: string, prefix: string)
    ensures front + "{" + ("T" + prefix) + "}" == front + ("{T" + prefix + "}")
  {
  }

  // ---- attributes

  lemma {:induction false} IndexIs(name: string, value: string)
    requires '=' !in name
    ensures Index(name + ("=" + value), '=') == |name| && Index(name, '=') == |name|
  {
    if name == "" {
      assert name + ("=" + value) == "=" + value;
    } else {
      assert (name + ("=" + value))[1..] == name[1..] + ("=" + value);
      IndexIs(name[1..], value);
    }
  }

  /** An attribute becomes a text entry unless its name is LEVEL, NAME or LABEL, with a value or without. */
  lemma NamesDropped(name: string, value: string)
    requires '=' !in name
    ensures var texts := if name == "LEVEL" || name == "NAME" || name == "LABEL" then [] else [""];
      Written(name + ("=" + value)) == texts && Written(name) == texts
  {
    IndexIs(name, value);
    TakeFront(name, "=" + value);
    assert name[..|name|] == name;
  }

  /** On a pin, its type and its number are recognised, and the number is written twice; elsewhere they are
      attributes like others. */
  lemma PinAttributes(value: string)
    ensures WrittenOn("PINTYPE=" + value, true) == ["pintype="]
    ensures WrittenOn("#" + value, true) == ["pinseq=", "pinnumber="]
    ensures WrittenOn("PINTYPE=" + value, false) == [""] && WrittenOn("#=" + value, false) == [""]
  {
    assert ("#" + value)[0] == '#' && "PINTYPE="[0] == 'P';
    assert "PINTYPE=" + value == "PINTYPE" + ("=" + value) && "#=" + value == "#" + ("=" + value);
    NamesDropped("PINTYPE", value);
    NamesDropped("#", value);
  }

  /** Only the four visibility codes of the format lead to texts: an attached attribute's go to the last object, by the
      rules for pins right after a pin record; an unattached one ends the object and stands alone. */
  lemma Visibility(records: seq<Record>, r: Record, code: nat, text: string)
    requires IsObject(r)
    ensures var d, seen := Meaning(records + [r]), code == 0 || code == 1 || code == 2 || code == 3;
      && Take(d, Attached(code, text)) == (if seen then Attach(d, WrittenOn(text, r.PinRecord?)) else d)
      && AllItems(Take(d, Unattached(code, text))) == AllItems(d) + (if seen then BareTexts(Written(text)) else [])
  {
    MeaningNext(records, r);
    var e, before := ObjectBegins(Meaning(records), r);
    NothingLast(AllItems(Meaning(records + [r])));
  }
}
