// Runs of the parser over a body of parts: in every cutting it hands out the items, when
// their contents are unambiguous.
module MultipartRuns {
  import opened Text
  import opened Multipart
  import opened MultipartHeaders
  import opened MultipartRoundTrip
  import opened MultipartCuts

  // The parser has accepted everything, is done and has handed out the items.
  predicate HandedOut(r: (bool, Machine), items: seq<Item>) {
    r.0 && r.1.valid && r.1.state == 5 && r.1.buf == "" && r.1.received == items
  }

  predicate PlainItems(items: seq<Item>) {
    forall item | item in items :: PlainItem(item)
  }

  predicate ItemsFit(items: seq<Item>, boundary: string) {
    forall item | item in items :: Unambiguous(item.content, boundary)
  }

  // ---- every cutting gives the items ----

  lemma {:induction false} ParseAllKeeps(
    m: Machine, p: Place, boundary: string, pieces: seq<string>, future: string, items: seq<Item>)
    returns (p': Place)
    requires At(m, p, boundary, Concat(pieces) + future, items) && m.state <= 5 && '\r' !in boundary
    requires ContentsFit(p, boundary) && Stopped(m, p, boundary, Concat(pieces) + future)
    ensures var (ok, m') := ParseAll(m, boundary, pieces);
            ok && At(m', p', boundary, future, items) && Stopped(m', p', boundary, future)
    ensures ContentsFit(p', boundary)
    decreases |pieces|
  {
    hide At, ContentsFit, Drain, Stopped;
    if pieces == [] {
      assert Concat(pieces) + future == future;
      p' := p;
    } else {
      var rest := Concat(pieces[1..]) + future;
      Regroup(pieces[0], Concat(pieces[1..]), future);
      Arrive(m, p, boundary, pieces[0], rest, items);
      p' := DrainKeeps(m.(buf := m.buf + pieces[0]), p, boundary, rest, items);
      var m' := Parse(m, boundary, pieces[0]).1;
      p' := ParseAllKeeps(m', p', boundary, pieces[1..], future, items);
    }
  }

  lemma Arrive(m: Machine, p: Place, boundary: string, data: string, future: string, items: seq<Item>)
    requires At(m, p, boundary, data + future, items)
    ensures At(m.(buf := m.buf + data), p, boundary, future, items)
  {
    hide TextAt;
    Regroup(m.buf, data, future);
  }

  lemma StartsAt(parts: seq<Part>, boundary: string)
    requires parts != [] && GoodParts(parts)
    ensures At(INIT, Start(parts), boundary, MessageText(parts, boundary), ItemsOf(parts))
  {
    hide EntryText, GoodPart;
    Regroup("--" + boundary, CRLF, EntryText(parts, boundary));
    assert "" + MessageText(parts, boundary) == MessageText(parts, boundary);
    assert [] + ItemsOf(parts) == ItemsOf(parts);
  }

  // Each text is longer than the one that ends it.
  lemma Lengths(lines: seq<string>, item: Item, r: seq<Part>, boundary: string)
    ensures |HeadersText(lines, item, r, boundary)| > |ContentText(item.content, r, boundary)|
    ensures |ContentText(item.content, r, boundary)| > |AfterText(r, boundary)|
    ensures |AfterText(r, boundary)| > if r == [] then 0 else |EntryText(r, boundary)|
  {
    hide EntryText, LinesText;
  }

  lemma NotOver(p: Place, boundary: string)
    requires Sound(p) && !p.Done?
    ensures TextAt(p, boundary) != ""
  {
    hide HeadersText, ContentText, AfterText;
    match p
    case Headers(lines, item, rest) => Lengths(lines, item, rest, boundary);
    case Content(c, rest) => Lengths([], Item("", "", "", c), rest, boundary);
    case Boundary(rest) => Lengths([], NO_FILE, rest, boundary);
    case Entry(rest) => Lengths(rest[0].lines, rest[0].item, rest[1..], boundary);
    case _ =>
  }

  // Whatever header lines the parts have, as long as they say what the items are.
  lemma EveryCutOfParts(parts: seq<Part>, boundary: string, pieces: seq<string>)
    requires parts != [] && GoodParts(parts) && ItemsFit(ItemsOf(parts), boundary) && '\r' !in boundary
    requires Concat(pieces) == MessageText(parts, boundary)
    ensures HandedOut(ParseAll(INIT, boundary, pieces), ItemsOf(parts))
  {
    hide TextAt, ParseAll, Unambiguous, Behind;
    var items := ItemsOf(parts);
    StartsAt(parts, boundary);
    PartsFit(parts, boundary);
    assert Concat(pieces) + "" == Concat(pieces);
    var p := ParseAllKeeps(INIT, Start(parts), boundary, pieces, "", items);
    var m := ParseAll(INIT, boundary, pieces).1;
    NotOver(Start(parts), boundary);
    assert TextAt(Start(parts), boundary) == Concat(pieces) != "";
    assert m.buf + "" == m.buf;
    if !p.Done? {
      NotOver(p, boundary);
    }
  }

  lemma PartsFit(parts: seq<Part>, boundary: string)
    requires ItemsFit(ItemsOf(parts), boundary)
    ensures ContentsFit(Start(parts), boundary)
  {
    hide Unambiguous;
    forall i | 0 <= i < |parts|
      ensures Unambiguous(parts[i].item.content, boundary)
    {
      assert ItemsOf(parts)[i] in ItemsOf(parts);
    }
  }

  // A part as a client writes it: its fields and its content.
  datatype Entry = Entry(fields: seq<Field>, item: Item)

  predicate GoodEntry(e: Entry) {
    AllWellWritten(e.fields) && NamesAre(e.fields, e.item.name, e.item.filename) && TypeIs(e.fields, e.item.contentType)
  }

  function PartsOf(entries: seq<Entry>): (parts: seq<Part>)
    ensures |parts| == |entries|
    ensures forall i | 0 <= i < |entries| :: parts[i] == Part(LineTexts(entries[i].fields), entries[i].item)
  {
    if entries == [] then [] else [Part(LineTexts(entries[0].fields), entries[0].item)] + PartsOf(entries[1..])
  }

  // Header lines in any order and any spelling, with any other lines among them: every
  // cutting gives exactly the names, types and contents that were written.
  lemma EveryCutOfEntries(entries: seq<Entry>, boundary: string, pieces: seq<string>)
    requires entries != [] && '\r' !in boundary
    requires forall i | 0 <= i < |entries| ::
               GoodEntry(entries[i]) && Unambiguous(entries[i].item.content, boundary)
    requires Concat(pieces) == MessageText(PartsOf(entries), boundary)
    ensures var (ok, m) := ParseAll(INIT, boundary, pieces);
            ok && m.valid && |m.received| == |entries| &&
            forall i | 0 <= i < |entries| :: m.received[i] == entries[i].item
  {
    hide ParseAll, Unambiguous, AllWellWritten, NamesAre, TypeIs, LineTexts, Fold, MessageText;
    var parts := PartsOf(entries);
    forall i | 0 <= i < |entries|
      ensures GoodPart(parts[i])
    {
      var e := entries[i];
      FieldsRead(e.fields, e.item.name, e.item.filename, e.item.contentType);
    }
    forall item | item in ItemsOf(parts)
      ensures Unambiguous(item.content, boundary)
    {
    }
    EveryCutOfParts(parts, boundary, pieces);
  }

  // In particular what Post has written.
  lemma EveryCut(items: seq<Item>, boundary: string, pieces: seq<string>)
    requires items != [] && PlainItems(items) && ItemsFit(items, boundary) && '\r' !in boundary
    requires Concat(pieces) == BodyText(items, boundary)
    ensures HandedOut(ParseAll(INIT, boundary, pieces), items)
  {
    hide ParseAll, Unambiguous, BodyText, MessageText, PlainItem, Lines;
    BodyIsEntries(items, boundary);
    PostedIsGood(items);
    EveryCutOfParts(Posted(items), boundary, pieces);
  }

  // off counts the bytes that have left the buffer, in every input.
  lemma {:induction false} OffCounts(m: Machine, boundary: string)
    requires m.state <= 5
    ensures var m' := Drain(m, boundary).1; m'.off + |m'.buf| == m.off + |m.buf|
    decreases Measure(m)
  {
    hide Step;
    if m.buf != "" {
      StepUses(m, boundary);
      if Step(m, boundary).Go? {
        OffCounts(Step(m, boundary).m, boundary);
      }
    }
  }
}
