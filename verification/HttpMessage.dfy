// A well-formed response, as a client would build it by hand, is read as what it
// says, in every cutting.
module HttpMessage {
  import opened Numbers
  import opened Text
  import opened Wrappers
  import opened HttpResponse
  import opened HttpReceiver
  import Chunked
  import opened HttpExact

  // The parts of a header section (section 3 of RFC 7230).
  datatype Head = Head(version: string, code: string, reason: string, fields: seq<string>)

  function Lines(lines: seq<string>): string {
    if lines == [] then CRLF else lines[0] + CRLF + Lines(lines[1..])
  }

  function StatusText(head: Head): string { head.version + " " + head.code + " " + head.reason }

  function HeadText(head: Head): string { Lines([StatusText(head)] + head.fields) }

  predicate GoodLine(line: string) { line != "" && '\r' !in line }

  predicate GoodHead(head: Head) {
    ' ' !in head.version && ' ' !in head.code && GoodLine(StatusText(head)) && Stoi(head.code).Some? &&
    forall i | 0 <= i < |head.fields| :: GoodLine(head.fields[i])
  }

  // How the header fields say that the body is delimited; None when one of them is
  // malformed.  A later Content-Length replaces an earlier one.
  datatype Framing = Framing(length: Option<nat>, chunked: bool)

  function FieldValue(line: string, name: string): Option<string> {
    if |name| < |line| && ':' !in name && line[..|name|] == name && line[|name|] == ':'
    then Some(RTrim(LTrim(line[|name| + 1..]))) else None
  }

  function FramingOf(fields: seq<string>): Option<Framing> {
    if fields == [] then Some(Framing(None, false))
    else
      match FramingOf(fields[..|fields| - 1])
      case None => None
      case Some(f) =>
        var line := fields[|fields| - 1];
        match (FieldValue(line, "Content-Length"), FieldValue(line, "Transfer-Encoding"))
        case (Some(value), _) =>
          (match Stoul(value, 10) case None => None case Some(n) => Some(f.(length := Some(n))))
        case (_, Some(value)) => if value == "chunked" then Some(f.(chunked := true)) else None
        case _ => Some(f)
  }

  // The state of the loop behind the header section.
  function BehindHead(head: Head, framing: Framing, data: string): State
    requires Stoi(head.code).Some?
  {
    var response := Response(Stoi(head.code).value, head.fields, "");
    State(data, response, false, true, framing.length, framing.chunked, 0, false)
  }

  // ---- line by line ----

  lemma NameIs(line: string, name: string)
    requires ':' !in name
    ensures FieldValue(line, name).Some? <==> Find(line, ':') < |line| && line[..Find(line, ':')] == name
    ensures FieldValue(line, name).Some? ==> FieldValue(line, name).value == RTrim(LTrim(line[Find(line, ':') + 1..]))
  {
    hide LTrim, RTrim, Find;
    if FieldValue(line, name).Some? {
      NameEnds(line, name);
    }
  }

  lemma NameEnds(line: string, name: string)
    requires FieldValue(line, name).Some?
    ensures Find(line, ':') == |name|
  {
    hide LTrim, RTrim;
    var tail := line[|name|..];
    assert line == name + tail;
    FindIn(name, ':', tail);
  }

  // One header field changes the framing as FramingOf says.
  lemma FieldMove(st: State, fields: seq<string>, line: string)
    requires FramingOf(fields) == Some(Framing(st.contentLength, st.chunked))
    ensures match FramingOf(fields + [line])
            case None => HeaderField(st, line) == None
            case Some(f) => HeaderField(st, line) == Some(st.(contentLength := f.length, chunked := f.chunked))
  {
    hide LTrim, RTrim, Stoul, Find, FieldValue;
    assert (fields + [line])[..|fields|] == fields;
    NameIs(line, "Content-Length");
    NameIs(line, "Transfer-Encoding");
  }

  lemma StatusRead(head: Head, st: State)
    requires GoodHead(head)
    ensures StatusLine(st, StatusText(head)) == Some(st.(response := st.response.(status := Stoi(head.code).value)))
  {
    hide Stoi, SecondPart;
    SecondOf(head.version, head.code, head.reason);
  }

  lemma SecondOf(a: string, b: string, c: string)
    requires ' ' !in a && ' ' !in b
    ensures SecondPart(a + " " + b + " " + c) == Some(b)
  {
    hide Find;
    var line, tail := a + " " + b + " " + c, b + (" " + c);
    assert line == a + (" " + tail);
    FindIn(a, ' ', " " + tail);
    assert line[|a| + 1..] == tail;
    FindIn(b, ' ', " " + c);
    assert tail[..|b|] == b;
  }

  lemma LineMove(st: State, line: string, rest: string)
    requires !st.parsedHeaders && '\r' !in line && st.data == line + CRLF + rest
    ensures Step(st) == match HeaderLine(st.(data := rest), line) case None => Throw case Some(st') => Go(st')
  {
    hide HeaderLine, FindSub;
    FindSubAfter(line, CRLF, rest);
    assert st.data[..|line|] == line && st.data[|line| + 2..] == rest;
  }

  // The fields from number k on, the state holding those before.
  lemma {:induction false} FieldsRead(st: State, fields: seq<string>, k: nat, rest: string)
    requires k <= |fields| && forall i | 0 <= i < |fields| :: GoodLine(fields[i])
    requires !st.parsedHeaders && !st.statusLine && st.data == Lines(fields[k..]) + rest
    requires st.response.headers == fields[..k]
    requires FramingOf(fields[..k]) == Some(Framing(st.contentLength, st.chunked))
    ensures match FramingOf(fields)
            case None => Drain(st) == Failed
            case Some(f) =>
              Drain(st) == Drain(st.(data := rest, response := st.response.(headers := fields), parsedHeaders := true,
                                     contentLength := f.length, chunked := f.chunked))
    decreases |fields| - k
  {
    hide Drain, Step, HeaderField, FramingOf;
    if k == |fields| {
      assert fields[..k] == fields;
      assert st.data == "" + CRLF + rest;
      LineMove(st, "", rest);
      DrainGo(st);
    } else {
      var line, more := fields[k], Lines(fields[k + 1..]) + rest;
      assert fields[k..][1..] == fields[k + 1..];
      assert st.data == line + CRLF + more;
      LineMove(st, line, more);
      var st1 := st.(data := more, response := st.response.(headers := fields[..k] + [line]));
      FieldMove(st1, fields[..k], line);
      assert fields[..k] + [line] == fields[..k + 1];
      match FramingOf(fields[..k + 1])
      case None =>
        ThrowFails(st);
        MalformedStays(fields, k + 1);
      case Some(f) =>
        DrainGo(st);
        FieldsRead(st1.(contentLength := f.length, chunked := f.chunked), fields, k + 1, rest);
    }
  }

  lemma ThrowFails(st: State)
    requires Step(st) == Throw
    ensures Drain(st) == Failed
  {
  }

  lemma {:induction false} MalformedStays(fields: seq<string>, k: nat)
    requires k <= |fields| && FramingOf(fields[..k]) == None
    ensures FramingOf(fields) == None
    decreases |fields|
  {
    if k == |fields| {
      assert fields[..k] == fields;
    } else {
      assert fields[..|fields| - 1][..k] == fields[..k];
      MalformedStays(fields[..|fields| - 1], k);
    }
  }

  // The header section is read as it was put together, or the call throws.
  lemma HeadRead(head: Head, rest: string)
    requires GoodHead(head)
    ensures match FramingOf(head.fields)
            case None => Drain(Feed(INIT, HeadText(head) + rest)) == Failed
            case Some(f) => Drain(Feed(INIT, HeadText(head) + rest)) == Drain(BehindHead(head, f, rest))
  {
    hide Drain, Step, StatusLine, FramingOf, Lines, StatusText, Stoi;
    var text, line := HeadText(head) + rest, StatusText(head);
    var more := Lines(head.fields) + rest;
    FirstLine(line, head.fields, rest);
    var st := Feed(INIT, text);
    assert st.data == text;
    LineMove(st, line, more);
    StatusRead(head, st.(data := more, statusLine := false));
    DrainGo(st);
    var st1 := Step(st).st;
    NoFields();
    assert head.fields[0..] == head.fields && head.fields[..0] == [];
    FieldsRead(st1, head.fields, 0, rest);
  }

  lemma FirstLine(line: string, fields: seq<string>, rest: string)
    ensures Lines([line] + fields) + rest == line + CRLF + (Lines(fields) + rest)
  {
    assert ([line] + fields)[1..] == fields;
  }

  lemma NoFields()
    ensures FramingOf([]) == Some(Framing(None, false))
  {
  }

  // ---- whole messages ----

  // A chunked response, in every cutting: the status, the header lines and the
  // concatenation of what was written.
  lemma ChunkedMessage(head: Head, writes: seq<string>, rest: string, pieces: seq<string>)
    requires GoodHead(head) && FramingOf(head.fields).Some? && FramingOf(head.fields).value.chunked
    requires forall i | 0 <= i < |writes| :: |writes[i]| <= ULONG_MAX
    requires Concat(pieces) == HeadText(head) + (Chunked.Message(writes) + rest)
    ensures ResultOf(Receive(INIT, pieces)) == Some(Response(Stoi(head.code).value, head.fields, Concat(writes)))
  {
    hide Drain, HeadText, FramingOf, Stoi;
    var e := Chunked.Message(writes) + rest;
    HeadRead(head, e);
    MessageDecoded(BehindHead(head, FramingOf(head.fields).value, e), writes, rest);
    assert "" + Concat(writes) == Concat(writes);
    CutIndependence(pieces);
  }

  // A response that is not chunked, with a body of the length that is given or
  // without one: the body is all that follows.
  lemma PlainMessage(head: Head, body: string, pieces: seq<string>)
    requires GoodHead(head) && FramingOf(head.fields).Some? && !FramingOf(head.fields).value.chunked
    requires var n := FramingOf(head.fields).value.length; n.Some? ==> |body| <= n.value
    requires Concat(pieces) == HeadText(head) + body
    ensures ResultOf(Receive(INIT, pieces)) == Some(Response(Stoi(head.code).value, head.fields, body))
  {
    hide Drain, HeadText, FramingOf, Stoi;
    HeadRead(head, body);
    PlainMoves(BehindHead(head, FramingOf(head.fields).value, body));
    assert "" + body == body;
    SameAsWhole(HeadText(head) + body, pieces);
  }

  // A malformed field makes the call throw.
  lemma MalformedMessage(head: Head, body: string, pieces: seq<string>)
    requires GoodHead(head) && FramingOf(head.fields) == None
    requires Concat(pieces) == HeadText(head) + body
    ensures ResultOf(Receive(INIT, pieces)) == None
  {
    hide Drain, HeadText, FramingOf, Stoi;
    HeadRead(head, body);
    CutIndependence(pieces);
  }

  // ---- exactly when the cutting matters ----

  // Content-Length is in force, and announces less than what follows the head.
  predicate TooLong(head: Head, body: string) {
    match FramingOf(head.fields)
    case None => false
    case Some(f) => !f.chunked && f.length.Some? && |body| > f.length.value
  }

  lemma OverlongExactly(head: Head, body: string)
    requires GoodHead(head)
    ensures Overlong(HeadText(head) + body) <==> TooLong(head, body)
  {
    hide Drain, HeadText, FramingOf, Stoi;
    HeadRead(head, body);
    if FramingOf(head.fields).Some? {
      var f := FramingOf(head.fields).value;
      var st := BehindHead(head, f, body);
      if !f.chunked {
        PlainMoves(st);
        assert "" + body == body;
      } else if Drain(st).More? {
        ChunkedStays(st);
      }
    }
  }

  // For every head and every body: what send returns or throws is the same for every
  // way of cutting the stream exactly when the body is not longer than announced.
  lemma CutIndependentExactly(head: Head, body: string)
    requires GoodHead(head)
    ensures SameForAllCuts(HeadText(head) + body) <==> !TooLong(head, body)
  {
    hide HeadText, Overlong, SameForAllCuts, TooLong;
    OverlongExactly(head, body);
    HttpExact.CutIndependentExactly(HeadText(head) + body);
  }

  const OK_EMPTY := Head("HTTP/1.1", "200", "OK", ["Content-Length: 0"])

  lemma OkEmptyIsGood()
    ensures GoodHead(OK_EMPTY) && FramingOf(OK_EMPTY.fields) == Some(Framing(Some(0), false))
  {
    NumbersRead();
    hide Stoi, Stoul;
    LengthField();
    var fields := OK_EMPTY.fields;
    assert fields[..0] == [];
  }

  lemma LengthField()
    ensures FieldValue("Content-Length: 0", "Content-Length") == Some("0")
  {
    assert "Content-Length: 0"[|"Content-Length"| + 1..] == " 0" && " 0"[1..] == "0";
    assert LTrim(" 0") == "0" && RTrim("0") == "0";
  }

  lemma OkEmptyText()
    ensures HeadText(OK_EMPTY) == "HTTP/1.1 200 OK\r\nContent-Length: 0\r\n\r\n"
  {
    var status, field := "HTTP/1.1 200 OK", "Content-Length: 0";
    StatusOfOk();
    hide StatusText;
    var lines := [status, field];
    assert [status] + OK_EMPTY.fields == lines && lines[1..] == [field] && lines[1..][1..] == [];
    LinesOfTwo(status, field);
  }

  lemma StatusOfOk()
    ensures StatusText(OK_EMPTY) == "HTTP/1.1 200 OK"
  {
  }

  lemma LinesOfTwo(a: string, b: string)
    ensures Lines([a, b]) == a + CRLF + (b + CRLF + CRLF)
  {
    var lines := [a, b];
    assert lines[1..] == [b] && lines[1..][1..] == [];
    assert Lines(lines[1..][1..]) == CRLF;
    assert Lines(lines[1..]) == b + CRLF + CRLF;
  }

  lemma NumbersRead()
    ensures Stoi("200") == Some(200) && Stoul("0", 10) == Some(0)
  {
    var s := "200";
    assert s[1..] == "00" && "00"[1..] == "0" && "0"[1..] == "";
    assert DigitsLength("0", 10) == 1 && DigitsLength("00", 10) == 2 && DigitsLength(s, 10) == 3;
    assert s[..3] == s && s[..2] == "20" && "20"[..1] == "2" && "2"[..0] == "" && "0"[..1] == "0" && "0"[..0] == "";
    assert DigitsValue("2", 10) == 2 && DigitsValue("20", 10) == 20 && DigitsValue(s, 10) == 200;
  }

  // One byte behind an empty body is enough: it is part of the body or not, as recv
  // happens to deliver it.
  lemma OneByteMore()
    ensures !SameForAllCuts("HTTP/1.1 200 OK\r\nContent-Length: 0\r\n\r\n" + "x")
  {
    hide HeadText, SameForAllCuts, FramingOf;
    OkEmptyIsGood();
    OkEmptyText();
    CutIndependentExactly(OK_EMPTY, "x");
  }
}
