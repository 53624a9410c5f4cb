// The body of a message as the parser sees it: the parts that any client may send, with
// their header lines, and the parts that Post writes.
module MultipartRoundTrip {
  import opened Text
  import opened Multipart
  import opened MultipartHeaders

  // ---- what a caller must keep to ----

  // Names without quotation marks and line ends, and a trimmed content type.
  predicate PlainItem(item: Item) {
    Plain(item.name) && Plain(item.filename) && '\r' !in item.contentType &&
    RTrim(LTrim(item.contentType)) == item.contentType
  }

  const DASHES := CRLF + "--"

  function Dash(boundary: string): (d: string)
    ensures |d| == 4 + |boundary|
  {
    DASHES + boundary
  }

  // Wherever the parser meets CRLF and two dashes in c, going on width bytes behind
  // each of them, width bytes of c are left.
  predicate Fits(c: string, width: nat) {
    width > 0 &&
    var n := FindSub(c, DASHES);
    n == |c| || (n + width <= |c| && Fits(c[n + width..], width))
  }

  // Content that holds no delimiter, and whose CRLF-dash-dash stand far enough
  // from its end.
  predicate Unambiguous(c: string, boundary: string) {
    FindSub(c, Dash(boundary)) == |c| && Fits(c, |Dash(boundary)|)
  }

  // Content without CRLF and two dashes is unambiguous for every boundary.
  lemma WithoutDashes(c: string, boundary: string)
    requires FindSub(c, DASHES) == |c|
    ensures Unambiguous(c, boundary)
  {
    forall k: nat | k < |c|
      ensures !Occurs(c, Dash(boundary), k)
    {
      FindSubFirst(c, DASHES, k);
      OccursStart(c, DASHES, boundary, k);
    }
    FindSubIs(c, Dash(boundary), |c|);
  }

  lemma OccursStart(s: string, p: string, q: string, k: nat)
    ensures Occurs(s, p + q, k) ==> Occurs(s, p, k)
  {
    if Occurs(s, p + q, k) {
      assert s[k..k + |p|] == s[k..k + |p + q|][..|p|];
    }
  }

  // ---- the body as the parser sees it ----

  // The header lines of a part, and the item that they and the content make up.
  datatype Part = Part(lines: seq<string>, item: Item)

  predicate GoodLines(lines: seq<string>) { forall line | line in lines :: line != "" && '\r' !in line }

  predicate GoodPart(part: Part) {
    GoodLines(part.lines) && Fold(NO_FILE, part.lines) == part.item.(content := "")
  }

  predicate GoodParts(parts: seq<Part>) { forall i | 0 <= i < |parts| :: GoodPart(parts[i]) }

  function ItemsOf(parts: seq<Part>): (items: seq<Item>)
    ensures |items| == |parts| && forall i | 0 <= i < |parts| :: items[i] == parts[i].item
  {
    if parts == [] then [] else [parts[0].item] + ItemsOf(parts[1..])
  }

  function LinesText(lines: seq<string>): string {
    if lines == [] then "" else lines[0] + (CRLF + LinesText(lines[1..]))
  }

  function HeadersText(lines: seq<string>, item: Item, rest: seq<Part>, boundary: string): string
    decreases |rest|, 2
  {
    LinesText(lines) + (CRLF + ContentText(item.content, rest, boundary))
  }

  function ContentText(c: string, rest: seq<Part>, boundary: string): string
    decreases |rest|, 1
  {
    c + (Dash(boundary) + AfterText(rest, boundary))
  }

  function AfterText(rest: seq<Part>, boundary: string): string
    decreases |rest|, 0
  {
    if rest == [] then "--" + CRLF else CRLF + EntryText(rest, boundary)
  }

  function EntryText(rest: seq<Part>, boundary: string): string
    requires rest != []
    decreases |rest| - 1, 3
  {
    HeadersText(rest[0].lines, rest[0].item, rest[1..], boundary)
  }

  function MessageText(parts: seq<Part>, boundary: string): string {
    "--" + boundary + AfterText(parts, boundary)
  }

  // ---- what Post writes ----

  function Lines(item: Item): seq<string> {
    [Disposition(item)] + (if item.contentType != "" then [CONTENT_TYPE + item.contentType] else [])
  }

  function Posted(items: seq<Item>): (parts: seq<Part>)
    ensures ItemsOf(parts) == items
  {
    if items == [] then [] else [Part(Lines(items[0]), items[0])] + Posted(items[1..])
  }

  lemma {:induction false} BodyIsEntries(items: seq<Item>, boundary: string)
    ensures BodyText(items, boundary) == MessageText(Posted(items), boundary)
  {
    hide ItemText, HeadersText, Lines;
    var end := "--" + boundary + "--" + CRLF;
    if items == [] {
      assert end == "--" + boundary + ("--" + CRLF);
    } else {
      BodyIsEntries(items[1..], boundary);
      Regroup(ItemText(items[0], boundary), ItemsText(items[1..], boundary), end);
      ItemThenRest(items[0], Posted(items[1..]), boundary);
      var parts := Posted(items);
      assert parts[0] == Part(Lines(items[0]), items[0]) && parts[1..] == Posted(items[1..]);
      assert EntryText(parts, boundary) == HeadersText(Lines(items[0]), items[0], Posted(items[1..]), boundary);
    }
  }

  lemma ItemThenRest(item: Item, rest: seq<Part>, boundary: string)
    ensures ItemText(item, boundary) + ("--" + boundary + AfterText(rest, boundary))
         == "--" + boundary + (CRLF + HeadersText(Lines(item), item, rest, boundary))
  {
    hide AfterText, Disposition, TypeLine, Lines, LinesText;
    var start, end := "--" + boundary, AfterText(rest, boundary);
    Rearrange(start, CRLF, Disposition(item), TypeLine(item), item.content, end);
    LinesOf(item);
    assert CRLF + start == Dash(boundary);
    Regroup(CRLF, start, end);
  }

  lemma Regroup(a: string, b: string, c: string)
    ensures a + b + c == a + (b + c)
  {
  }

  lemma Rearrange(s: string, e: string, d: string, t: string, c: string, x: string)
    ensures (s + e) + (d + e) + t + e + (c + e) + (s + x) == s + (e + (d + (e + t) + (e + (c + (e + s + x)))))
  {
    Regroup(s, e, d + (e + t) + (e + (c + (e + s + x))));
    Regroup(s + e, d + (e + t), e + (c + (e + s + x)));
    Regroup(d, e, t);
    Regroup(s + e, d + e, t);
    var left := (s + e) + (d + e) + t;
    Regroup(left, e, c + (e + s + x));
    assert c + (e + s + x) == (c + e) + (s + x);
    Regroup(left + e, c + e, s + x);
  }

  lemma LinesOf(item: Item)
    ensures LinesText(Lines(item)) == Disposition(item) + (CRLF + TypeLine(item))
  {
    hide Disposition;
    var lines := Lines(item);
    if item.contentType != "" {
      assert lines[1..] == [CONTENT_TYPE + item.contentType];
      assert LinesText(lines[1..]) == CONTENT_TYPE + item.contentType + (CRLF + "");
      Regroup(CONTENT_TYPE, item.contentType, CRLF);
    } else {
      assert lines[1..] == [];
    }
  }

  // Its header lines as fields.
  function FieldsOf(item: Item): seq<Field> {
    var file := if item.filename == "" then NoFileName else FileName(" ", "filename=\"", item.filename);
    [Names("Content-Disposition:", " ", "form-data;", " ", "name=\"", item.name, file, "")]
    + (if item.contentType == "" then [] else [Type("Content-Type:", " ", item.contentType, "")])
  }

  lemma FieldsAreWellWritten(item: Item)
    requires PlainItem(item)
    ensures AllWellWritten(FieldsOf(item))
  {
    hide LTrim, RTrim, SameWord, WellWritten;
    NamesWellWritten(item);
    if item.contentType != "" {
      TypeWellWritten(item.contentType);
    }
  }

  lemma NamesWellWritten(item: Item)
    requires Plain(item.name) && Plain(item.filename)
    ensures WellWritten(FieldsOf(item)[0])
  {
    assert SameWord("Content-Disposition:", "content-disposition:");
    assert SameWord("form-data;", "form-data;") && SameWord("name=\"", "name=\"");
    assert SameWord("filename=\"", "filename=\"");
    hide SameWord, Plain;
  }

  lemma TypeWellWritten(value: string)
    requires value != "" && RTrim(LTrim(value)) == value && '\r' !in value
    ensures WellWritten(Type("Content-Type:", " ", value, ""))
  {
    assert SameWord("Content-Type:", "content-type:");
    TrimmedEnds(value);
    hide SameWord, LTrim, RTrim;
  }

  lemma {:induction false} TrimsShorten(s: string)
    ensures |LTrim(s)| <= |s| && |RTrim(s)| <= |s|
  {
    if s != "" {
      TrimsShorten(s[1..]);
      TrimsShorten(s[..|s| - 1]);
    }
  }

  lemma TrimmedEnds(s: string)
    requires s != "" && RTrim(LTrim(s)) == s
    ensures !Blanks(s[..1]) && !Blanks(s[|s| - 1..])
  {
    TrimsShorten(LTrim(s));
    TrimsShorten(s[1..]);
    TrimsShorten(s);
    TrimsShorten(s[..|s| - 1]);
    assert LTrim(s) == s;
  }

  lemma FieldsSay(item: Item)
    ensures NamesAre(FieldsOf(item), item.name, item.filename) && TypeIs(FieldsOf(item), item.contentType)
  {
    assert FieldsOf(item)[0].Names?;
    assert item.contentType != "" ==> FieldsOf(item)[1].Type?;
  }

  lemma NamesText(name: string, tail: string)
    ensures "Content-Disposition:" + (" " + ("form-data;" + (" " + ("name=\"" + (name + ("\"" + tail))))))
         == "Content-Disposition: form-data; name=\"" + name + "\"" + tail
  {
  }

  lemma FilenameText(filename: string)
    ensures ";" + (" " + ("filename=\"" + (filename + ("\"" + "")))) + "" == "; filename=\"" + filename + "\""
  {
  }

  lemma FirstFieldText(item: Item)
    ensures LineText(FieldsOf(item)[0]) == Disposition(item)
  {
    var tail := if item.filename == "" then "" else "; filename=\"" + item.filename + "\"";
    FilenameText(item.filename);
    NamesText(item.name, tail);
  }

  lemma FieldTexts(item: Item)
    ensures LineTexts(FieldsOf(item)) == Lines(item)
  {
    var fields := FieldsOf(item);
    FirstFieldText(item);
    hide LineText, Disposition;
    assert LineTexts(fields) == [Disposition(item)] + LineTexts(fields[1..]);
    if item.contentType != "" {
      var last := Type("Content-Type:", " ", item.contentType, "");
      TypeText(item.contentType);
      assert fields[1..] == [last] && [last][1..] == [];
      assert LineTexts([last]) == [LineText(last)];
    } else {
      assert fields[1..] == [];
    }
  }

  lemma TypeText(value: string)
    ensures LineText(Type("Content-Type:", " ", value, "")) == CONTENT_TYPE + value
  {
  }

  lemma LinesGiveItem(item: Item)
    requires PlainItem(item)
    ensures GoodPart(Part(Lines(item), item))
  {
    hide LTrim, RTrim, WellWritten, Fold, Disposition, LineTexts;
    FieldsAreWellWritten(item);
    FieldTexts(item);
    FieldsSay(item);
    hide FieldsOf;
    FieldsRead(FieldsOf(item), item.name, item.filename, item.contentType);
  }

  lemma {:induction false} PostedIsGood(items: seq<Item>)
    requires forall item | item in items :: PlainItem(item)
    ensures GoodParts(Posted(items))
  {
    hide PlainItem, GoodPart, Lines;
    if items != [] {
      LinesGiveItem(items[0]);
      PostedIsGood(items[1..]);
    }
  }
}
