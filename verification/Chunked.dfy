// The chunked transfer coding of btor/httplib.h (section 4.1 of RFC 7230): the
// reader, and the chunks that it undoes.
module Chunked {
  import opened Hex
  import opened Numbers
  import opened LineReader
  import opened Text
  import opened Wrappers

  // ---- what the writer emits ----

  function Chunk(payload: string): string {
    if payload == "" then "" else HexOf(|payload|) + CRLF + payload + CRLF
  }

  const DONE_MARKER := "0\r\n\r\n"

  // The chunks of these pieces and the end of the message.
  function Message(writes: seq<string>): string {
    if writes == [] then DONE_MARKER else Chunk(writes[0]) + Message(writes[1..])
  }

  // ---- the reader ----

  // What read_content_chunked makes of a stream: success, the content passed on,
  // and what is left of the stream.
  datatype Content = Content(ok: bool, body: string, rest: string)

  function Prefixed(body: string, c: Content): Content { c.(body := body + c.body) }

  // What one pass of the loop makes of a size line and of what follows it: the
  // end, or some content and the next size line to be read.
  datatype Pass = Stop(c: Content) | Next(body: string, rest: string)

  function AfterSize(line: string, rest: string, fails: bool): (p: Pass)
    ensures p.Next? ==> |p.rest| <= |rest|
  {
    match Strtoul(CString(line), 16)
    case None => Stop(Content(false, "", rest))
    case Some(n) =>
      if n == ULONG_MAX then Stop(Content(false, "", rest))
      else if n == 0 then Stop(Trailer(rest, fails))
      else if |rest| < n then Stop(Content(false, rest, ""))
      else
        match LineOf(rest[n..], fails)
        case NoLine => Stop(Content(false, rest[..n], ""))
        case ALine(line2, rest2) =>
          if CString(line2) == CRLF then Next(rest[..n], rest2) else Stop(Content(true, rest[..n], rest2))
  }

  // The empty line after the last chunk.
  function Trailer(rest: string, fails: bool): Content {
    match LineOf(rest, fails)
    case NoLine => Content(false, "", "")
    case ALine(line, rest2) => Content(CString(line) == CRLF, "", rest2)
  }

  function ReadChunked(s: string, fails: bool): (c: Content)
    decreases |s|
  {
    match LineOf(s, fails)
    case NoLine => Content(false, "", "")
    case ALine(line, rest) =>
      match AfterSize(line, rest, fails)
      case Stop(c) => c
      case Next(body, rest2) => Prefixed(body, ReadChunked(rest2, fails))
  }

  // read_content_with_length, from a stream that delivers in arbitrary pieces.
  method ReadContentWithLength(strm: Stream, len: nat) returns (ok: bool, body: string)
    modifies strm
    ensures ok <==> len <= |old(strm.rest)|
    ensures old(strm.rest) == body + strm.rest && |body| == if ok then len else |old(strm.rest)|
  {
    body := "";
    var r := 0;
    while r < len
      invariant r == |body| <= len && old(strm.rest) == body + strm.rest
      decreases len - r
    {
      var n, bytes := strm.Read(if len - r < 4096 then len - r else 4096);
      if n <= 0 {
        return false, body;
      }
      body := body + bytes;
      r := r + n;
    }
    return true, body;
  }

  // One pass: lineReader holds the size line.
  method ReadPass(strm: Stream, lineReader: StreamLineReader) returns (ok: bool, body: string, more: bool)
    requires lineReader.Valid() && lineReader.strm == strm
    modifies strm, lineReader, lineReader.fixedBuffer
    ensures lineReader.Valid()
    ensures var p := AfterSize(old(lineReader.Line()), old(strm.rest), strm.fails);
            if more then p == Next(body, strm.rest) else p == Stop(Content(ok, body, strm.rest))
  {
    hide LineOf, CString, Strtoul;
    var number := Strtoul(CString(lineReader.Line()), 16);
    if number.None? {
      return false, "", false;
    }
    var chunkLen := number.value;
    if chunkLen == ULONG_MAX {
      return false, "", false;
    }
    if chunkLen == 0 {
      var got := lineReader.GetLine();
      return got && CString(lineReader.Line()) == CRLF, "", false;
    }
    ghost var data := strm.rest;
    ok, body := ReadContentWithLength(strm, chunkLen);
    if !ok {
      return false, body, false;
    }
    assert data[..chunkLen] == body && data[chunkLen..] == strm.rest;
    var got := lineReader.GetLine();
    if !got {
      return false, body, false;
    }
    return true, body, CString(lineReader.Line()) == CRLF;
  }

  method ReadContentChunked(strm: Stream) returns (ok: bool, body: string)
    modifies strm
    ensures Content(ok, body, strm.rest) == ReadChunked(old(strm.rest), strm.fails)
  {
    hide LineOf, AfterSize, ReadChunked, Prefixed;
    body := "";
    PrefixedByNothing(ReadChunked(strm.rest, strm.fails));
    var lineReader := new StreamLineReader(strm, 16);
    ghost var at := strm.rest;
    ok := lineReader.GetLine();
    while ok
      invariant lineReader.Valid() && lineReader.strm == strm
      invariant fresh(lineReader) && fresh(lineReader.fixedBuffer)
      invariant LineOf(at, strm.fails) == if ok then ALine(lineReader.Line(), strm.rest) else NoLine
      invariant !ok ==> strm.rest == ""
      invariant ReadChunked(old(strm.rest), strm.fails) == Prefixed(body, ReadChunked(at, strm.fails))
      decreases ok, |strm.rest|
    {
      PassStep(body, at, lineReader.Line(), strm.rest, strm.fails);
      var bytes, more;
      ok, bytes, more := ReadPass(strm, lineReader);
      body := body + bytes;
      if !more {
        return ok, body;
      }
      at := strm.rest;
      ok := lineReader.GetLine();
    }
    NothingRead(body, at, strm.fails);
  }

  lemma PrefixedByNothing(c: Content)
    ensures Prefixed("", c) == c
  {
    assert "" + c.body == c.body;
  }

  lemma NothingRead(body: string, at: string, fails: bool)
    requires LineOf(at, fails) == NoLine
    ensures Prefixed(body, ReadChunked(at, fails)) == Content(false, body, "")
  {
    assert body + "" == body;
  }

  lemma PassStep(body: string, at: string, line: string, rest: string, fails: bool)
    requires LineOf(at, fails) == ALine(line, rest)
    ensures Prefixed(body, ReadChunked(at, fails)) ==
            match AfterSize(line, rest, fails)
            case Stop(c) => Content(c.ok, body + c.body, c.rest)
            case Next(bytes, rest2) => Prefixed(body + bytes, ReadChunked(rest2, fails))
  {
    hide AfterSize, LineOf;
    match AfterSize(line, rest, fails)
    case Stop(_) =>
    case Next(bytes, rest2) =>
      var c := ReadChunked(rest2, fails);
      assert body + (bytes + c.body) == body + bytes + c.body;
  }

  // ---- the round trip ----

  lemma {:induction false} NoLineFeed(n: nat)
    ensures '\n' !in HexOf(n) && '\0' !in HexOf(n) && '\r' !in HexOf(n)
  {
    if n >= 16 {
      NoLineFeed(n / 16);
    }
  }

  // A line is read back, and as a C string it is whole.
  lemma LineRead(text: string, rest: string, fails: bool)
    requires '\n' !in text && '\0' !in text
    ensures LineOf(text + CRLF + rest, fails) == ALine(text + CRLF, rest)
    ensures CString(text + CRLF) == text + CRLF
  {
    LineHere(text + "\r", rest, fails);
    assert text + CRLF == text + "\r" + "\n";
    assert '\0' !in text + CRLF;
  }

  lemma SizeLine(n: nat, rest: string, fails: bool)
    requires n <= ULONG_MAX
    ensures LineOf(HexOf(n) + CRLF + rest, fails) == ALine(HexOf(n) + CRLF, rest)
    ensures Strtoul(CString(HexOf(n) + CRLF), 16) == Some(n)
  {
    NoLineFeed(n);
    LineRead(HexOf(n), rest, fails);
    StrtoulHex(n, CRLF);
  }

  // One chunk is one pass.
  lemma ReadOneChunk(payload: string, rest: string, fails: bool)
    requires 0 < |payload| < ULONG_MAX
    ensures ReadChunked(Chunk(payload) + rest, fails) == Prefixed(payload, ReadChunked(rest, fails))
  {
    hide Strtoul, CString, LineOf, HexOf;
    var n := |payload|;
    var tail := payload + (CRLF + rest);
    assert Chunk(payload) + rest == HexOf(n) + CRLF + tail;
    SizeLine(n, tail, fails);
    LineRead("", rest, fails);
    assert tail[..n] == payload && tail[n..] == "" + CRLF + rest;
    assert AfterSize(HexOf(n) + CRLF, tail, fails) == Next(payload, rest);
  }

  lemma EmptyChunk(rest: string)
    ensures Chunk("") + rest == rest
  {
  }

  lemma ReadDone(rest: string, fails: bool)
    ensures ReadChunked(DONE_MARKER + rest, fails) == Content(true, "", rest)
  {
    hide Strtoul, CString, LineOf;
    assert DONE_MARKER + rest == HexOf(0) + CRLF + ("" + CRLF + rest);
    SizeLine(0, "" + CRLF + rest, fails);
    LineRead("", rest, fails);
  }

  // The reader returns the concatenation of what was written, and stops exactly
  // where the writer stopped.
  lemma {:induction false} RoundTrip(writes: seq<string>, rest: string, fails: bool)
    requires forall i | 0 <= i < |writes| :: |writes[i]| < ULONG_MAX
    ensures ReadChunked(Message(writes) + rest, fails) == Content(true, Concat(writes), rest)
  {
    hide ReadChunked, Chunk;
    if writes == [] {
      ReadDone(rest, fails);
    } else {
      var more := Message(writes[1..]) + rest;
      RoundTrip(writes[1..], rest, fails);
      assert Message(writes) + rest == Chunk(writes[0]) + more;
      if writes[0] == "" {
        EmptyChunk(more);
      } else {
        ReadOneChunk(writes[0], more, fails);
      }
    }
  }

  lemma HugeSizeLine(n: nat, rest: string, fails: bool)
    requires n >= ULONG_MAX
    ensures !ReadChunked(HexOf(n) + CRLF + rest, fails).ok
  {
    hide LineOf, CString, HexOf, Scan;
    NoLineFeed(n);
    LineRead(HexOf(n), rest, fails);
    ScanHex(n, CRLF);
  }

  // A piece as long as the largest unsigned long breaks the message.
  lemma HugeChunk(payload: string, rest: string, fails: bool)
    requires |payload| >= ULONG_MAX
    ensures !ReadChunked(Chunk(payload) + rest, fails).ok
  {
    hide ReadChunked, HexOf;
    assert Chunk(payload) + rest == HexOf(|payload|) + CRLF + (payload + CRLF + rest);
    HugeSizeLine(|payload|, payload + CRLF + rest, fails);
  }
}
