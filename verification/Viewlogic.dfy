/** The Viewlogic converter's attachment flags: the stream it writes is a list of objects, each followed by
    its own attributes in one pair of braces. */
module Viewlogic {
  import opened Sequences
  import opened Wrappers

  /** One entry of the output, by its leading character; of a text, what the converter puts in front of it. */
  datatype Entry =
    | Version | Text(prefix: string) | Line | Circle | Pin | Box | Arc | Net | Bus | Component
    | Open | Close

  /** Entries that attributes can be attached to. */
  predicate Carries(e: Entry) {
    e == Pin || e == Net || e == Bus || e == Component
  }

  /** A record of the input, as far as it decides what is written. A record that cannot be read ends the
      program and is not part of a stream converted to the end. */
  datatype Record =
    | Skipped
    | BoundingBox
    | NetNode
    | NetStart
    | Unattached(visibility: nat, text: string)
    | Attached(visibility: nat, text: string)
    | Label
    | TextRecord
    | LineRecord(pairs: nat)
    | BoxRecord
    | CircleRecord
    | ArcRecord(degenerate: bool)
    | PinRecord(inverted: bool)
    | Segment
    | BusSegment
    | Instance

  const KILLED: seq<string> := ["LEVEL", "NAME", "LABEL"]

  /** Where the name of an attribute ends: at the first such character, or at the end of the text. (strindex
      gives 0 when there is none, and the handlers then take the whole text as the name.) */
  function Index(t: string, c: char): (n: nat)
    ensures n <= |t|
  {
    if t == "" || t[0] == c then 0 else 1 + Index(t[1..], c)
  }

  /** The text entries an attribute leads to: some names are dropped. */
  function Written(text: string): seq<string> {
    if text[..Index(text, '=')] in KILLED then [] else [""]
  }

  /** An attribute attached to a pin may be its type, or its number, which also makes a sequence entry. */
  function WrittenOn(text: string, pin: bool): seq<string> {
    if pin && "PINTYPE=" <= text then ["pintype="]
    else if pin && text != "" && text[0] == '#' then ["pinseq=", "pinnumber="]
    else Written(text)
  }

  // ---- the meaning of a stream: objects with their attributes

  datatype Item = Bare(e: Entry) | Group(carrier: Entry, texts: seq<string>)

  /** The items so far; `last` is the object that takes the attributes that come next, if any. */
  datatype Drawing = Drawing(items: seq<Item>, last: Option<Item>)

  const EMPTY: Drawing := Drawing([], None)

  function Repeat(e: Entry, n: nat): seq<Entry> {
    if n == 0 then [] else Repeat(e, n - 1) + [e]
  }

  function Bares(e: Entry, n: nat): seq<Item> {
    if n == 0 then [] else Bares(e, n - 1) + [Bare(e)]
  }

  function TextEntries(texts: seq<string>): seq<Entry> {
    if texts == [] then [] else TextEntries(texts[..|texts| - 1]) + [Text(texts[|texts| - 1])]
  }

  function BareTexts(texts: seq<string>): seq<Item> {
    if texts == [] then [] else BareTexts(texts[..|texts| - 1]) + [Bare(Text(texts[|texts| - 1]))]
  }

  function Carrier(item: Item): Entry {
    match item case Bare(e) => e case Group(c, n) => c
  }

  predicate OnPin(d: Drawing) {
    d.last.Some? && Carrier(d.last.value) == Pin
  }

  predicate OnNet(d: Drawing) {
    d.last.Some? && (Carrier(d.last.value) == Net || Carrier(d.last.value) == Bus)
  }

  predicate OnComponent(d: Drawing) {
    d.last.Some? && Carrier(d.last.value) == Component
  }

  /** A label names what it is attached to. */
  function LabelPrefix(d: Drawing): string {
    if d.last.None? then ""
    else
      match Carrier(d.last.value)
      case Net => "netname="
      case Bus => "netname="
      case Component => "refdes="
      case Pin => "pinlabel="
      case _ => ""
  }

  function AllItems(d: Drawing): seq<Item> {
    if d.last.None? then d.items else d.items + [d.last.value]
  }

  /** Attributes go to the last object if there is one, and stand alone otherwise. */
  function Attach(d: Drawing, texts: seq<string>): Drawing {
    match d.last
    case None => Drawing(d.items + BareTexts(texts), None)
    case Some(Bare(e)) => Drawing(d.items, Some(Group(e, texts)))
    case Some(Group(c, before)) => Drawing(d.items, Some(Group(c, before + texts)))
  }

  function Loose(d: Drawing, e: Entry, n: nat): Drawing {
    Drawing(AllItems(d) + Bares(e, n), None)
  }

  function Begin(d: Drawing, before: nat, e: Entry): Drawing {
    Drawing(AllItems(d) + Bares(Circle, before), Some(Bare(e)))
  }

  function Take(d: Drawing, r: Record): Drawing {
    match r
    case Skipped => d
    case BoundingBox => d
    case NetNode => d
    case NetStart => Drawing(AllItems(d), None)
    case Unattached(v, text) => Attach(Drawing(AllItems(d), None), if v <= 3 then Written(text) else [])
    case Attached(v, text) => if v <= 3 then Attach(d, WrittenOn(text, OnPin(d))) else d
    case Label => Attach(d, [LabelPrefix(d)])
    case TextRecord => Loose(d, Text(""), 1)
    case LineRecord(pairs) => Loose(d, Line, if pairs == 0 then 0 else pairs - 1)
    case BoxRecord => Loose(d, Box, 1)
    case CircleRecord => Loose(d, Circle, 1)
    case ArcRecord(degenerate) => if degenerate then Loose(d, Line, 2) else Loose(d, Arc, 1)
    case PinRecord(inverted) => Begin(d, if inverted then 1 else 0, Pin)
    case Segment => Begin(d, 0, Net)
    case BusSegment => Begin(d, 0, Bus)
    case Instance => Begin(d, 0, Component)
  }

  predicate IsShape(r: Record) {
    r.TextRecord? || r.LineRecord? || r.BoxRecord? || r.CircleRecord? || r.ArcRecord?
  }

  /** What the handler of a record of graphics or text writes, and how often. */
  function ShapeOf(r: Record): (Entry, nat)
    requires IsShape(r)
  {
    match r
    case TextRecord => (Text(""), 1)
    case LineRecord(pairs) => (Line, if pairs == 0 then 0 else pairs - 1)
    case BoxRecord => (Box, 1)
    case CircleRecord => (Circle, 1)
    case ArcRecord(degenerate) => if degenerate then (Line, 2) else (Arc, 1)
  }

  lemma ShapeTakes(d: Drawing, r: Record)
    requires IsShape(r)
    ensures Take(d, r) == Loose(d, ShapeOf(r).0, ShapeOf(r).1)
  {
  }

  function Meaning(records: seq<Record>): Drawing {
    if records == [] then EMPTY else Take(Meaning(records[..|records| - 1]), records[|records| - 1])
  }

  function PrintItem(item: Item): seq<Entry> {
    match item
    case Bare(e) => [e]
    case Group(c, n) => [c, Open] + TextEntries(n) + [Close]
  }

  /** The whole output for these items. */
  function Print(items: seq<Item>): seq<Entry> {
    if items == [] then [Version] else Print(items[..|items| - 1]) + PrintItem(items[|items| - 1])
  }

  lemma PrintSnoc(items: seq<Item>, item: Item)
    ensures Print(items + [item]) == Print(items) + PrintItem(item)
  {
    assert (items + [item])[..|items|] == items;
  }

  lemma {:induction false} PrintBares(items: seq<Item>, e: Entry, n: nat)
    ensures Print(items + Bares(e, n)) == Print(items) + Repeat(e, n)
  {
    if n == 0 {
      assert items + [] == items;
    } else {
      PrintBares(items, e, n - 1);
      Associative(items, Bares(e, n - 1), [Bare(e)]);
      PrintSnoc(items + Bares(e, n - 1), Bare(e));
      Associative(Print(items), Repeat(e, n - 1), [e]);
    }
  }

  lemma {:induction false} PrintTexts(items: seq<Item>, texts: seq<string>)
    ensures Print(items + BareTexts(texts)) == Print(items) + TextEntries(texts)
  {
    if texts == [] {
      assert items + [] == items;
    } else {
      var m := |texts| - 1;
      PrintTexts(items, texts[..m]);
      Associative(items, BareTexts(texts[..m]), [Bare(Text(texts[m]))]);
      PrintSnoc(items + BareTexts(texts[..m]), Bare(Text(texts[m])));
      Associative(Print(items), TextEntries(texts[..m]), [Text(texts[m])]);
    }
  }

  lemma {:induction false} TextsAdd(out: seq<Entry>, a: seq<string>, b: seq<string>)
    ensures out + TextEntries(a) + TextEntries(b) == out + TextEntries(a + b)
  {
    if b == [] {
      NothingLast(a);
      NothingLast(out + TextEntries(a));
    } else {
      var m := |b| - 1;
      TextsAdd(out, a, b[..m]);
      assert (a + b)[..|a + b| - 1] == a + b[..m];
      Associative(out + TextEntries(a), TextEntries(b[..m]), [Text(b[m])]);
      Associative(out, TextEntries(a + b[..m]), [Text(b[m])]);
    }
  }

  lemma GroupPrint(items: seq<Item>, c: Entry, texts: seq<string>)
    ensures Print(items + [Group(c, texts)]) == Print(items) + [c] + [Open] + TextEntries(texts) + [Close]
  {
    PrintSnoc(items, Group(c, texts));
    assert [c] + [Open] == [c, Open];
    Associative(Print(items), [c], [Open]);
    Associative(Print(items), [c, Open], TextEntries(texts));
    Associative(Print(items), [c, Open] + TextEntries(texts), [Close]);
  }

  /** The last object has no attributes yet. */
  predicate Pending(d: Drawing) {
    d.last.Some? && d.last.value.Bare?
  }

  /** The output so far: the brace after the last object's attributes is still missing. */
  function Output(d: Drawing): seq<Entry> {
    match d.last
    case None => Print(d.items)
    case Some(Bare(e)) => Print(d.items) + [e]
    case Some(Group(c, texts)) => Print(d.items) + [c] + [Open] + TextEntries(texts)
  }

  lemma AttachOutput(d: Drawing, texts: seq<string>)
    ensures Output(Attach(d, texts)) == (if Pending(d) then Output(d) + [Open] else Output(d)) + TextEntries(texts)
  {
    match d.last
    case None => PrintTexts(d.items, texts);
    case Some(Bare(e)) =>
    case Some(Group(c, before)) => TextsAdd(Print(d.items) + [c] + [Open], before, texts);
  }

  /** Ending the last object closes its brace, if one is open. */
  lemma EndOutput(d: Drawing)
    ensures Print(AllItems(d)) == if d.last.Some? && !Pending(d) then Output(d) + [Close] else Output(d)
  {
    match d.last
    case None =>
    case Some(Bare(e)) => PrintSnoc(d.items, Bare(e));
    case Some(Group(c, n)) => GroupPrint(d.items, c, n);
  }

  // ---- the converter

  class Converter {
    var attachPending: bool
    var addAttributes: bool
    var pinAttributes: bool
    var netAttributes: bool
    var complexAttributes: bool
    var out: seq<Entry>

    /** The flags and the output stand for this drawing: braces opened for its last object are still open. */
    ghost predicate Shows(d: Drawing)
      reads this
    {
      && addAttributes == d.last.Some? && attachPending == Pending(d)
      && pinAttributes == OnPin(d) && netAttributes == OnNet(d) && complexAttributes == OnComponent(d)
      && (d.last.Some? ==> Carries(Carrier(d.last.value)))
      && out == Output(d)
    }

    constructor ()
      ensures Shows(EMPTY)
    {
      attachPending, addAttributes := false, false;
      pinAttributes, netAttributes, complexAttributes := false, false, false;
      out := [Version];
    }

    method Emit(e: Entry)
      modifies this`out
      ensures out == old(out) + [e]
    {
      out := out + [e];
    }

    method BeginAttach()
      modifies this`attachPending, this`out
      ensures !attachPending && out == if old(attachPending) then old(out) + [Open] else old(out)
    {
      if attachPending {
        Emit(Open);
        attachPending := false;
      }
    }

    method ResetAttributes(ghost d: Drawing)
      requires Shows(d)
      modifies this
      ensures Shows(Drawing(AllItems(d), None))
    {
      EndOutput(d);
      if addAttributes && !attachPending {
        Emit(Close);
      }
      attachPending := false;
      addAttributes := false;
      pinAttributes, netAttributes, complexAttributes := false, false, false;
    }

    /** Text entries of attributes, after begin_attach. */
    method AttachTexts(texts: seq<string>, ghost d: Drawing)
      requires Shows(d)
      modifies this`attachPending, this`out
      ensures Shows(Attach(d, texts))
    {
      AttachOutput(d, texts);
      BeginAttach();
      out := out + TextEntries(texts);
    }

    /** A record that ends the current object and writes n entries of one kind. */
    method Restart(e: Entry, n: nat, ghost d: Drawing)
      requires Shows(d)
      modifies this
      ensures Shows(Loose(d, e, n))
    {
      PrintBares(AllItems(d), e, n);
      ResetAttributes(d);
      out := out + Repeat(e, n);
    }

    /** A record whose object takes attributes; an inverted pin is preceded by its bubble. */
    method Start(e: Entry, before: nat, ghost d: Drawing)
      requires Shows(d) && Carries(e)
      modifies this
      ensures Shows(Begin(d, before, e))
    {
      Restart(Circle, before, d);
      Emit(e);
      addAttributes, attachPending := true, true;
      pinAttributes := e == Pin;
      netAttributes := e == Net || e == Bus;
      complexAttributes := e == Component;
    }

    /** The records of graphics and text, which end the object before them. */
    method HandleShape(r: Record, ghost d: Drawing)
      requires Shows(d) && IsShape(r)
      modifies this
      ensures Shows(Take(d, r))
    {
      ShapeTakes(d, r);
      var (e, n) := ShapeOf(r);
      Restart(e, n, d);
    }

    /** The records of objects that take attributes. */
    method HandleObject(r: Record, ghost d: Drawing)
      requires Shows(d) && (r.PinRecord? || r.Segment? || r.BusSegment? || r.Instance?)
      modifies this
      ensures Shows(Take(d, r))
    {
      match r
      case PinRecord(inverted) => Start(Pin, if inverted then 1 else 0, d);
      case Segment => Start(Net, 0, d);
      case BusSegment => Start(Bus, 0, d);
      case Instance => Start(Component, 0, d);
    }

    /** The records of attributes. */
    method HandleAttribute(r: Record, ghost d: Drawing)
      requires Shows(d) && (r.Unattached? || r.Attached?)
      modifies this
      ensures Shows(Take(d, r))
    {
      match r
      case Unattached(v, text) =>
        ResetAttributes(d);
        AttachTexts(if v <= 3 then Written(text) else [], Drawing(AllItems(d), None));
      case Attached(v, text) =>
        if v <= 3 {
          AttachTexts(WrittenOn(text, pinAttributes), d);
        }
    }

    /** What a label stands for depends on what it is attached to. */
    method HandleLabel(ghost d: Drawing)
      requires Shows(d)
      modifies this
      ensures Shows(Take(d, Label))
    {
      var prefix := "";
      if netAttributes {
        prefix := "netname=";
      } else if complexAttributes {
        prefix := "refdes=";
      } else if pinAttributes {
        prefix := "pinlabel=";
      }
      assert prefix == LabelPrefix(d);
      AttachTexts([prefix], d);
    }

    /** One record: the dispatch of convert_file and the handler it leads to. */
    method Handle(r: Record, ghost d: Drawing)
      requires Shows(d)
      modifies this
      ensures Shows(Take(d, r))
    {
      match r {
        case Skipped =>
        case BoundingBox =>
        case NetNode =>
        case NetStart => ResetAttributes(d);
        case PinRecord(_) => HandleObject(r, d);
        case Segment => HandleObject(r, d);
        case BusSegment => HandleObject(r, d);
        case Instance => HandleObject(r, d);
        case Unattached(_, _) => HandleAttribute(r, d);
        case Attached(_, _) => HandleAttribute(r, d);
        case Label => HandleLabel(d);
        case _ => HandleShape(r, d);
      }
    }

    /** convert_file, for a stream all of whose records can be read. */
    method Convert(records: seq<Record>)
      requires Shows(EMPTY)
      modifies this
      ensures out == Print(AllItems(Meaning(records)))
    {
      for i := 0 to |records|
        invariant Shows(Meaning(records[..i]))
      {
        assert records[..i + 1][..i] == records[..i];
        Handle(records[i], Meaning(records[..i]));
      }
      assert records[..|records|] == records;
      ResetAttributes(Meaning(records));
    }
  }

  // ---- what the output looks like

  /** A brace opens right after an entry that carries attributes and closes after text entries only. */
  ghost predicate Braced(out: seq<Entry>, i: nat, j: nat) {
    && 0 < i < j < |out| && Carries(out[i - 1]) && out[i] == Open && out[j] == Close
    && forall k :: i < k < j ==> out[k].Text?
  }

  /** Every opening brace has its closing one and the other way round, with nothing but texts between. */
  ghost predicate WellFormed(out: seq<Entry>) {
    && (forall i :: 0 <= i < |out| && out[i] == Open ==> exists j :: Braced(out, i, j))
    && (forall j :: 0 <= j < |out| && out[j] == Close ==> exists i :: Braced(out, i, j))
  }

  /** Items as the converter makes them. */
  ghost predicate Sound(items: seq<Item>) {
    forall i :: 0 <= i < |items| ==>
      match items[i] case Bare(e) => e != Open && e != Close case Group(c, n) => Carries(c)
  }

  lemma {:induction false} BaresSound(e: Entry, n: nat)
    requires e != Open && e != Close
    ensures Sound(Bares(e, n))
  {
    if n > 0 {
      BaresSound(e, n - 1);
    }
  }

  lemma {:induction false} MeaningSound(records: seq<Record>)
    ensures Sound(AllItems(Meaning(records)))
    ensures Meaning(records).last.Some? ==> Carries(Carrier(Meaning(records).last.value))
  {
    if records != [] {
      MeaningSound(records[..|records| - 1]);
      TakeSound(Meaning(records[..|records| - 1]), records[|records| - 1]);
    }
  }

  lemma LooseSound(d: Drawing, e: Entry, n: nat)
    requires Sound(AllItems(d)) && e != Open && e != Close
    ensures Sound(AllItems(d) + Bares(e, n))
  {
    BaresSound(e, n);
  }

  lemma {:induction false} TextsSound(texts: seq<string>)
    ensures Sound(BareTexts(texts))
  {
    if texts != [] {
      TextsSound(texts[..|texts| - 1]);
    }
  }

  lemma AttachSound(d: Drawing, texts: seq<string>)
    requires Sound(AllItems(d)) && (d.last.Some? ==> Carries(Carrier(d.last.value)))
    ensures Sound(AllItems(Attach(d, texts)))
  {
    assert forall i :: 0 <= i < |d.items| ==> d.items[i] == AllItems(d)[i];
    TextsSound(texts);
  }

  lemma ShapeSound(d: Drawing, r: Record)
    requires Sound(AllItems(d)) && IsShape(r)
    ensures Sound(AllItems(Take(d, r))) && Take(d, r).last.None?
  {
    ShapeTakes(d, r);
    LooseSound(d, ShapeOf(r).0, ShapeOf(r).1);
  }

  lemma BeginSound(d: Drawing, before: nat, e: Entry)
    requires Sound(AllItems(d)) && Carries(e)
    ensures Sound(AllItems(Begin(d, before, e))) && Begin(d, before, e).last == Some(Bare(e))
  {
    LooseSound(d, Circle, before);
  }

  lemma TakeSound(d: Drawing, r: Record)
    requires Sound(AllItems(d)) && (d.last.Some? ==> Carries(Carrier(d.last.value)))
    ensures var d' := Take(d, r); Sound(AllItems(d')) && (d'.last.Some? ==> Carries(Carrier(d'.last.value)))
  {
    if IsShape(r) {
      ShapeSound(d, r);
    } else {
      match r
      case Unattached(v, text) => AttachSound(Drawing(AllItems(d), None), if v <= 3 then Written(text) else []);
      case Attached(v, text) => AttachSound(d, WrittenOn(text, OnPin(d)));
      case Label => AttachSound(d, [LabelPrefix(d)]);
      case PinRecord(inverted) => BeginSound(d, if inverted then 1 else 0, Pin);
      case Segment => BeginSound(d, 0, Net);
      case BusSegment => BeginSound(d, 0, Bus);
      case Instance => BeginSound(d, 0, Component);
      case _ =>
    }
  }

  lemma {:induction false} TextsAt(texts: seq<string>)
    ensures |TextEntries(texts)| == |texts| && forall k :: 0 <= k < |texts| ==> TextEntries(texts)[k] == Text(texts[k])
  {
    if texts != [] {
      TextsAt(texts[..|texts| - 1]);
    }
  }

  lemma {:induction false} PrintWellFormed(items: seq<Item>)
    requires Sound(items)
    ensures WellFormed(Print(items))
  {
    if items != [] {
      var m := |items| - 1;
      PrintWellFormed(items[..m]);
      match items[m]
      case Bare(e) => WellFormedMore(Print(items[..m]), e);
      case Group(c, n) => WellFormedGroup(Print(items[..m]), c, n);
    }
  }

  lemma BracedMore(out: seq<Entry>, more: seq<Entry>, i: nat, j: nat)
    requires Braced(out, i, j)
    ensures Braced(out + more, i, j)
  {
  }

  lemma WellFormedFront(out: seq<Entry>, more: seq<Entry>)
    requires WellFormed(out)
    ensures forall i :: 0 <= i < |out| && out[i] == Open ==> exists j :: Braced(out + more, i, j)
    ensures forall j :: 0 <= j < |out| && out[j] == Close ==> exists i :: Braced(out + more, i, j)
  {
    forall i | 0 <= i < |out| && out[i] == Open
      ensures exists j :: Braced(out + more, i, j)
    {
      var j :| Braced(out, i, j);
      BracedMore(out, more, i, j);
    }
    forall j | 0 <= j < |out| && out[j] == Close
      ensures exists i :: Braced(out + more, i, j)
    {
      var i :| Braced(out, i, j);
      BracedMore(out, more, i, j);
    }
  }

  lemma WellFormedMore(out: seq<Entry>, e: Entry)
    requires WellFormed(out) && e != Open && e != Close
    ensures WellFormed(out + [e])
  {
    WellFormedFront(out, [e]);
  }

  lemma WellFormedGroup(out: seq<Entry>, c: Entry, texts: seq<string>)
    requires WellFormed(out) && Carries(c)
    ensures WellFormed(out + ([c, Open] + TextEntries(texts) + [Close]))
  {
    var group := [c, Open] + TextEntries(texts) + [Close];
    TextsAt(texts);
    WellFormedFront(out, group);
    assert Braced(out + group, |out| + 1, |out| + 2 + |texts|);
  }

  /** For every stream converted to the end the braces of the output are well formed. */
  lemma ConvertedWellFormed(records: seq<Record>)
    ensures WellFormed(Print(AllItems(Meaning(records))))
  {
    MeaningSound(records);
    PrintWellFormed(AllItems(Meaning(records)));
  }
}
