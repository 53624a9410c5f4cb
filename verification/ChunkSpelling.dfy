// Chunked messages from any peer (section 4.1 of RFC 7230): sizes in any spelling,
// with chunk extensions, read by both decoders.
module ChunkSpelling {
  import opened Numbers
  import opened Spelling
  import opened Text
  import opened Wrappers
  import opened LineReader
  import opened Chunked
  import HttpResponse
  import HttpReceiver
  import HttpMessage

  // A chunk, or with an empty payload the last one: the size in digits, what follows
  // it on its line, and the payload.
  datatype Spelled = Spelled(size: string, digits: seq<nat>, extension: string, payload: string)

  predicate WellSpelled(c: Spelled) {
    && c.size != "" && Spells(c.size, c.digits, 16) && Value(c.digits, 16) == |c.payload|
    && Ends(c.extension, 16) && !LooksPrefixed("", c.size, c.extension, 16)
    && '\r' !in c.extension && '\n' !in c.extension && '\0' !in c.extension
  }

  function SizeText(c: Spelled): string { c.size + c.extension }

  function ChunkText(c: Spelled): string { SizeText(c) + CRLF + c.payload + CRLF }

  function ChunksText(chunks: seq<Spelled>): string {
    if chunks == [] then "" else ChunkText(chunks[0]) + ChunksText(chunks[1..])
  }

  function Payloads(chunks: seq<Spelled>): string {
    if chunks == [] then "" else chunks[0].payload + Payloads(chunks[1..])
  }

  // The chunks, the last chunk, and an empty trailer.
  function MessageText(chunks: seq<Spelled>, last: Spelled): string { ChunksText(chunks) + ChunkText(last) }

  // The size limit is ULONG_MAX for the response loop, and one less for the reader.
  predicate WellSpelledMessage(chunks: seq<Spelled>, last: Spelled, limit: nat) {
    && (forall i | 0 <= i < |chunks| :: WellSpelled(chunks[i]) && 0 < |chunks[i].payload| <= limit)
    && WellSpelled(last) && last.payload == ""
  }

  // ---- the size line ----

  lemma DigitsAreNoEnd(s: string, digits: seq<nat>)
    requires Spells(s, digits, 16)
    ensures '\r' !in s && '\n' !in s && '\0' !in s
  {
    forall i | 0 <= i < |s|
      ensures s[i] != '\r' && s[i] != '\n' && s[i] != '\0'
    {
      assert IsDigit(s[i], digits[i]);
    }
  }

  lemma SizeTextRead(c: Spelled, end: string)
    requires WellSpelled(c) && |c.payload| <= ULONG_MAX && (end == "" || end == CRLF)
    ensures '\r' !in SizeText(c) && '\n' !in SizeText(c) && '\0' !in SizeText(c)
    ensures Strtoul(SizeText(c) + end, 16) == Some(|c.payload|) && Stoul(SizeText(c) + end, 16) == Some(|c.payload|)
  {
    DigitsAreNoEnd(c.size, c.digits);
    assert Ends(c.extension + end, 16) && !LooksPrefixed("", c.size, c.extension + end, 16);
    SizeRead(c.size, c.digits, c.extension + end);
    assert SizeText(c) + end == c.size + (c.extension + end);
    hide Strtoul, Stoul, Spells, Value, Ends, LooksPrefixed;
  }

  // ---- read_content_chunked ----

  lemma ChunkRead(c: Spelled, rest: string, fails: bool)
    requires WellSpelled(c) && 0 < |c.payload| < ULONG_MAX
    ensures ReadChunked(ChunkText(c) + rest, fails) == Prefixed(c.payload, ReadChunked(rest, fails))
  {
    hide Strtoul, CString, LineOf, WellSpelled, SizeText;
    var n, tail := |c.payload|, c.payload + (CRLF + rest);
    assert ChunkText(c) + rest == SizeText(c) + CRLF + tail;
    SizeTextRead(c, CRLF);
    LineRead(SizeText(c), tail, fails);
    LineRead("", rest, fails);
    assert tail[..n] == c.payload && tail[n..] == "" + CRLF + rest;
    assert AfterSize(SizeText(c) + CRLF, tail, fails) == Next(c.payload, rest);
  }

  lemma LastRead(c: Spelled, rest: string, fails: bool)
    requires WellSpelled(c) && c.payload == ""
    ensures ReadChunked(ChunkText(c) + rest, fails) == Content(true, "", rest)
  {
    hide Strtoul, CString, LineOf, WellSpelled, SizeText;
    assert ChunkText(c) + rest == SizeText(c) + CRLF + ("" + CRLF + rest);
    SizeTextRead(c, CRLF);
    LineRead(SizeText(c), "" + CRLF + rest, fails);
    LineRead("", rest, fails);
  }

  // With any other line behind its payload, a chunk is taken for the last one.
  lemma OtherLineEnds(c: Spelled, line: string, rest: string, fails: bool)
    requires WellSpelled(c) && 0 < |c.payload| < ULONG_MAX
    requires line != "" && '\n' !in line && '\0' !in line
    ensures ReadChunked(SizeText(c) + CRLF + (c.payload + (line + CRLF + rest)), fails) ==
            Content(true, c.payload, rest)
  {
    hide Strtoul, CString, LineOf, WellSpelled, SizeText;
    var n, tail := |c.payload|, c.payload + (line + CRLF + rest);
    SizeTextRead(c, CRLF);
    LineRead(SizeText(c), tail, fails);
    LineRead(line, rest, fails);
    assert tail[..n] == c.payload && tail[n..] == line + CRLF + rest;
    assert |line + CRLF| > |CRLF|;
  }

  // And a last chunk with a trailer is rejected.
  lemma TrailerRejected(c: Spelled, line: string, rest: string, fails: bool)
    requires WellSpelled(c) && c.payload == "" && line != "" && '\n' !in line && '\0' !in line
    ensures ReadChunked(SizeText(c) + CRLF + (line + CRLF + rest), fails) == Content(false, "", rest)
  {
    hide Strtoul, CString, LineOf, WellSpelled, SizeText;
    SizeTextRead(c, CRLF);
    LineRead(SizeText(c), line + CRLF + rest, fails);
    LineRead(line, rest, fails);
    assert |line + CRLF| > |CRLF|;
  }

  // The content is the concatenation of the payloads, and the reader stops behind the
  // message.
  lemma {:induction false} MessageRead(chunks: seq<Spelled>, last: Spelled, rest: string, fails: bool)
    requires WellSpelledMessage(chunks, last, ULONG_MAX - 1)
    ensures ReadChunked(MessageText(chunks, last) + rest, fails) == Content(true, Payloads(chunks), rest)
  {
    hide ReadChunked, ChunkText, WellSpelled;
    if chunks == [] {
      LastRead(last, rest, fails);
      assert "" + ChunkText(last) == ChunkText(last);
    } else {
      var more := MessageText(chunks[1..], last) + rest;
      MessageRead(chunks[1..], last, rest, fails);
      assert MessageText(chunks, last) + rest == ChunkText(chunks[0]) + more;
      ChunkRead(chunks[0], more, fails);
    }
  }

  // ---- the response loop ----

  lemma SizeMove(st: HttpResponse.State, c: Spelled, rest: string)
    requires HttpReceiver.BetweenChunks(st) && st.data == SizeText(c) + CRLF + rest
    requires WellSpelled(c) && |c.payload| <= ULONG_MAX
    ensures HttpResponse.Step(st) ==
            (var st' := st.(data := rest, expected := |c.payload|);
             if |c.payload| == 0 then HttpResponse.Finish(st') else HttpResponse.Go(st'))
  {
    SizeTextRead(c, "");
    assert SizeText(c) + "" == SizeText(c);
    FindSubAfter(SizeText(c), CRLF, rest);
    assert st.data[..|SizeText(c)|] == SizeText(c) && st.data[|SizeText(c)| + 2..] == rest;
    hide Stoul, HttpResponse.FindCrlf, SizeText, WellSpelled;
  }

  lemma ChunkMoves(st: HttpResponse.State, c: Spelled, rest: string)
    requires HttpReceiver.BetweenChunks(st) && st.data == ChunkText(c) + rest
    requires WellSpelled(c) && 0 < |c.payload| <= ULONG_MAX
    ensures HttpResponse.Drain(st) == HttpResponse.Drain(HttpReceiver.With(st, rest, st.response.body + c.payload))
  {
    hide SizeText, WellSpelled, HttpResponse.HeaderMove, HttpResponse.FindCrlf, Stoul;
    var n, tail := |c.payload|, c.payload + (CRLF + rest);
    assert st.data == SizeText(c) + CRLF + tail;
    SizeMove(st, c, tail);
    HttpResponse.DrainGo(st);
    HttpReceiver.PayloadDecoded(st.(data := tail, expected := n), c.payload, CRLF, rest);
    hide HttpResponse.Drain, HttpResponse.Step;
  }

  lemma LastMove(st: HttpResponse.State, c: Spelled, rest: string)
    requires HttpReceiver.BetweenChunks(st) && st.data == ChunkText(c) + rest
    requires WellSpelled(c) && c.payload == ""
    ensures HttpResponse.Drain(st) ==
            HttpResponse.Complete(HttpReceiver.With(st, CRLF + rest, st.response.body + ""))
  {
    assert st.data == SizeText(c) + CRLF + (CRLF + rest);
    SizeMove(st, c, CRLF + rest);
    assert st.response.body + "" == st.response.body;
    hide HttpResponse.Step, SizeText, WellSpelled;
  }

  lemma {:induction false} MessageMoves(st: HttpResponse.State, chunks: seq<Spelled>, last: Spelled, rest: string)
    requires HttpReceiver.BetweenChunks(st) && st.data == MessageText(chunks, last) + rest
    requires WellSpelledMessage(chunks, last, ULONG_MAX)
    ensures HttpResponse.Drain(st) ==
            HttpResponse.Complete(HttpReceiver.With(st, CRLF + rest, st.response.body + Payloads(chunks)))
    decreases |chunks|
  {
    hide HttpResponse.Drain, HttpResponse.Step, WellSpelled, ChunkText;
    var body := st.response.body;
    if chunks == [] {
      assert "" + ChunkText(last) == ChunkText(last);
      LastMove(st, last, rest);
    } else {
      var more := MessageText(chunks[1..], last) + rest;
      assert st.data == ChunkText(chunks[0]) + more;
      ChunkMoves(st, chunks[0], more);
      MessageMoves(HttpReceiver.With(st, more, body + chunks[0].payload), chunks[1..], last, rest);
      assert body + chunks[0].payload + Payloads(chunks[1..]) == body + Payloads(chunks);
    }
  }

  // A chunked response of any peer is read, in every cutting, as its status, its
  // fields and the concatenation of the payloads.
  lemma ResponseRead(
    head: HttpMessage.Head, chunks: seq<Spelled>, last: Spelled, rest: string, pieces: seq<string>)
    requires HttpMessage.GoodHead(head) && WellSpelledMessage(chunks, last, ULONG_MAX)
    requires var f := HttpMessage.FramingOf(head.fields); f.Some? && f.value.chunked
    requires Concat(pieces) == HttpMessage.HeadText(head) + (MessageText(chunks, last) + rest)
    ensures HttpResponse.ResultOf(HttpResponse.Receive(HttpResponse.INIT, pieces)) ==
            Some(HttpResponse.Response(Stoi(head.code).value, head.fields, Payloads(chunks)))
  {
    hide HttpResponse.Drain, HttpMessage.HeadText, HttpMessage.FramingOf, Stoi, MessageText, WellSpelledMessage;
    var e := MessageText(chunks, last) + rest;
    HttpMessage.HeadRead(head, e);
    MessageMoves(HttpMessage.BehindHead(head, HttpMessage.FramingOf(head.fields).value, e), chunks, last, rest);
    assert "" + Payloads(chunks) == Payloads(chunks);
    HttpResponse.CutIndependence(pieces);
  }

  // ---- messages that break off ----

  // The text breaks off between the CR and the LF behind the payload of a chunk.
  predicate BehindCr(chunks: seq<Spelled>, k: nat) {
    chunks != [] &&
    var n := |ChunkText(chunks[0])|;
    (k == n - 1 || (k >= n && BehindCr(chunks[1..], k - n)))
  }

  // A line that breaks off is taken for a size line, but then nothing follows.
  lemma LineBroken(s: string, fails: bool)
    requires '\n' !in s
    ensures !ReadChunked(s, fails).ok
  {
    LineEnds(s, fails);
    hide LineOf, CString, Strtoul;
    LineEnds("", fails);
  }

  lemma LineEnds(s: string, fails: bool)
    requires '\n' !in s
    ensures LineOf(s, fails) == if s == "" || fails then NoLine else ALine(s, "")
  {
  }

  lemma OnlyCr()
    ensures CString("\r") != CRLF
  {
  }

  // The payload breaks off, or the line end behind it.
  lemma PayloadBroken(line: string, payload: string, j: nat, fails: bool)
    requires Strtoul(CString(line), 16) == Some(|payload|) && 0 < |payload| < ULONG_MAX
    requires j <= |payload| + 1
    ensures var p := AfterSize(line, (payload + "\r")[..j], fails);
            p.Stop? && (p.c.ok <==> !fails && j == |payload| + 1)
  {
    hide Strtoul, CString, LineOf;
    if j >= |payload| {
      var tail := if j == |payload| then "" else "\r";
      assert (payload + "\r")[..j][|payload|..] == tail;
      LineEnds(tail, fails);
      OnlyCr();
    }
  }

  lemma ChunkBroken(c: Spelled, k: nat, fails: bool)
    requires WellSpelled(c) && 0 < |c.payload| < ULONG_MAX && k < |ChunkText(c)|
    ensures ReadChunked(ChunkText(c)[..k], fails).ok <==> !fails && k == |ChunkText(c)| - 1
  {
    var l, s := |SizeText(c)|, ChunkText(c)[..k];
    SizeTextRead(c, CRLF);
    hide Strtoul, CString, LineOf, AfterSize, WellSpelled, SizeText;
    if k < l + 2 {
      assert s == (SizeText(c) + "\r")[..k];
      LineBroken(s, fails);
    } else {
      var rest := (c.payload + "\r")[..k - l - 2];
      assert s == SizeText(c) + CRLF + rest;
      LineRead(SizeText(c), rest, fails);
      PayloadBroken(SizeText(c) + CRLF, c.payload, k - l - 2, fails);
    }
  }

  lemma LastBroken(c: Spelled, k: nat, fails: bool)
    requires WellSpelled(c) && c.payload == "" && k < |ChunkText(c)|
    ensures !ReadChunked(ChunkText(c)[..k], fails).ok
  {
    var l, s := |SizeText(c)|, ChunkText(c)[..k];
    SizeTextRead(c, CRLF);
    hide Strtoul, CString, LineOf, WellSpelled, SizeText;
    if k < l + 2 {
      assert s == (SizeText(c) + "\r")[..k];
      LineBroken(s, fails);
    } else {
      var rest := if k == l + 2 then "" else "\r";
      assert s == SizeText(c) + CRLF + rest;
      LineRead(SizeText(c), rest, fails);
      LineEnds(rest, fails);
      OnlyCr();
    }
  }

  // A message that breaks off is rejected, except when the connection ends between the
  // CR and the LF behind a chunk: then the reader reports success.
  lemma {:induction false} BrokenExactly(chunks: seq<Spelled>, last: Spelled, k: nat, fails: bool)
    requires WellSpelledMessage(chunks, last, ULONG_MAX - 1) && k < |MessageText(chunks, last)|
    ensures ReadChunked(MessageText(chunks, last)[..k], fails).ok <==> !fails && BehindCr(chunks, k)
  {
    hide ReadChunked, ChunkText, WellSpelled;
    var text := MessageText(chunks, last);
    if chunks == [] {
      assert text == ChunkText(last);
      LastBroken(last, k, fails);
    } else {
      var c, n, more := chunks[0], |ChunkText(chunks[0])|, MessageText(chunks[1..], last);
      assert text == ChunkText(c) + more;
      if k < n {
        assert text[..k] == ChunkText(c)[..k];
        ChunkBroken(c, k, fails);
      } else {
        assert text[..k] == ChunkText(c) + more[..k - n];
        BrokenExactly(chunks[1..], last, k - n, fails);
        ChunkRead(c, more[..k - n], fails);
      }
    }
  }

  // For example, one chunk and no last chunk.
  lemma BrokenBehindCr()
    ensures ReadChunked("1\r\nx\r", false).ok
  {
    var c := Spelled("1", [1], "", "x");
    var last := Spelled("0", [0], "", "");
    assert Value([1], 16) == 1 by { assert [1][..0] == []; }
    assert Value([0], 16) == 0 by { assert [0][..0] == []; }
    assert SizeText(c) == "1";
    assert ChunkText(c) == "1\r\nx\r\n";
    assert [c][1..] == [];
    assert MessageText([c], last)[..5] == "1\r\nx\r";
    hide ReadChunked;
    BrokenExactly([c], last, 5, false);
  }
}
