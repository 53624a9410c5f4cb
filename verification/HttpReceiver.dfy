// The loops of Request::send in btor/HTTPRequest.hpp, proved against the machine
// of HttpResponse; and the agreement of its chunked decoder with the writer and
// the reader of btor/httplib.h.
module HttpReceiver {
  import opened Hex
  import opened Numbers
  import opened Text
  import opened HttpResponse
  import Chunked
  import opened Wrappers

  // ---- both decoders undo the writer ----

  // The state between chunks, with some data and body.
  predicate BetweenChunks(st: State) { st.parsedHeaders && st.chunked && st.expected == 0 && !st.removeCrlf }

  function With(st: State, data: string, body: string): State {
    st.(data := data, response := st.response.(body := body))
  }

  lemma SizeLineMove(st: State, n: nat, rest: string)
    requires BetweenChunks(st) && st.data == HexOf(n) + CRLF + rest && n <= ULONG_MAX
    ensures Step(st) == (var st' := st.(data := rest, expected := n); if n == 0 then Finish(st') else Go(st'))
  {
    Chunked.NoLineFeed(n);
    FindSubAfter(HexOf(n), CRLF, rest);
    assert st.data[..|HexOf(n)|] == HexOf(n) && st.data[|HexOf(n)| + 2..] == rest;
    StrtoulHex(n, "");
    assert HexOf(n) + "" == HexOf(n);
    hide Stoul, FindCrlf, HexOf;
  }

  // A payload whose size has been read, with any two bytes behind it.
  lemma PayloadDecoded(st: State, payload: string, end: string, rest: string)
    requires st.parsedHeaders && st.chunked && !st.removeCrlf && st.expected == |payload| > 0
    requires |end| == 2 && st.data == payload + (end + rest)
    ensures Drain(st) == Drain(With(st, rest, st.response.body + payload).(expected := 0))
  {
    hide HeaderMove, FindCrlf, Stoul;
    assert st.data[..|payload|] == payload && st.data[|payload|..] == end + rest;
    var st2 := With(st, end + rest, st.response.body + payload).(expected := 0, removeCrlf := true);
    assert Step(st) == Go(st2);
    DrainGo(st);
    assert (end + rest)[2..] == rest;
    assert Step(st2) == Go(With(st, rest, st.response.body + payload).(expected := 0));
    DrainGo(st2);
    hide Drain, Step;
  }

  // A chunk that the writer has emitted is decoded to its payload.
  lemma ChunkDecoded(st: State, payload: string, rest: string)
    requires BetweenChunks(st) && st.data == Chunked.Chunk(payload) + rest && 0 < |payload| <= ULONG_MAX
    ensures Drain(st) == Drain(With(st, rest, st.response.body + payload))
  {
    hide HexOf, HeaderMove, FindCrlf, Stoul;
    var tail := payload + (CRLF + rest);
    assert st.data == HexOf(|payload|) + CRLF + tail;
    SizeLineMove(st, |payload|, tail);
    DrainGo(st);
    PayloadDecoded(st.(data := tail, expected := |payload|), payload, CRLF, rest);
    hide Drain, Step;
  }

  lemma DoneDecoded(st: State, rest: string)
    requires BetweenChunks(st) && st.data == Chunked.DONE_MARKER + rest
    ensures Drain(st) == Complete(With(st, CRLF + rest, st.response.body + ""))
  {
    assert st.data == HexOf(0) + CRLF + (CRLF + rest);
    SizeLineMove(st, 0, CRLF + rest);
    assert st.response.body + "" == st.response.body;
    hide Step;
  }

  // So is an empty one, which the writer does not emit at all.
  lemma AnyChunkDecoded(st: State, payload: string, rest: string)
    requires BetweenChunks(st) && st.data == Chunked.Chunk(payload) + rest && |payload| <= ULONG_MAX
    ensures Drain(st) == Drain(With(st, rest, st.response.body + payload))
  {
    hide Drain, HexOf;
    if payload == "" {
      Chunked.EmptyChunk(rest);
      assert st.response.body + "" == st.response.body;
    } else {
      ChunkDecoded(st, payload, rest);
    }
  }

  // The loop decodes what the writer has emitted to the concatenation of the
  // writes and ends there.
  lemma {:induction false} MessageDecoded(st: State, writes: seq<string>, rest: string)
    requires BetweenChunks(st) && st.data == Chunked.Message(writes) + rest
    requires forall i | 0 <= i < |writes| :: |writes[i]| <= ULONG_MAX
    ensures Drain(st) == Complete(With(st, CRLF + rest, st.response.body + Concat(writes)))
    decreases |writes|
  {
    hide Drain, Chunked.Chunk;
    var body := st.response.body;
    if writes == [] {
      DoneDecoded(st, rest);
    } else {
      var more := Chunked.Message(writes[1..]) + rest;
      assert st.data == Chunked.Chunk(writes[0]) + more;
      AnyChunkDecoded(st, writes[0], more);
      MessageDecoded(With(st, more, body + writes[0]), writes[1..], rest);
      assert body + writes[0] + Concat(writes[1..]) == body + Concat(writes);
    }
  }

  // So the two decoders agree on everything that the writer can produce, and,
  // whatever the cutting, Request::send returns that body.
  lemma DecodersAgree(headers: string, st: State, writes: seq<string>, rest: string, fails: bool, pieces: seq<string>)
    requires forall i | 0 <= i < |writes| :: |writes[i]| < ULONG_MAX
    requires Drain(Feed(INIT, headers)) == More(st) && BetweenChunks(st) && st.data == "" && st.response.body == ""
    requires Concat(pieces) == headers + (Chunked.Message(writes) + rest)
    ensures Chunked.ReadChunked(Chunked.Message(writes) + rest, fails) ==
            Chunked.Content(true, Concat(writes), rest)
    ensures ResultOf(Receive(INIT, pieces)) == Some(st.response.(body := Concat(writes)))
  {
    hide Drain, Step, Chunked.ReadChunked;
    Chunked.RoundTrip(writes, rest, fails);
    var e := Chunked.Message(writes) + rest;
    assert Feed(st, e).data == e by { assert "" + e == e; }
    MessageDecoded(Feed(st, e), writes, rest);
    assert "" + Concat(writes) == Concat(writes);
    DrainFed(Feed(INIT, headers), e);
    FedTwice(INIT, headers, e);
    CutIndependence(pieces);
  }

  // ---- the loops ----

  class ResponseReader {
    var responseData: string
    var status: int
    var headers: seq<string>
    var body: string
    var statusLine: bool
    var parsedHeaders: bool
    var contentLengthReceived: bool
    var contentLength: nat
    var chunkedResponse: bool
    var expectedChunkSize: nat
    var removeCrlfAfterChunk: bool

    ghost function Now(): State
      reads this
    {
      State(responseData, Response(status, headers, body), statusLine, parsedHeaders,
            if contentLengthReceived then Some(contentLength) else None,
            chunkedResponse, expectedChunkSize, removeCrlfAfterChunk)
    }

    constructor ()
      ensures Now() == INIT
    {
      responseData, status, headers, body := "", 0, [], "";
      statusLine, parsedHeaders := true, false;
      contentLengthReceived, contentLength := false, 0;
      chunkedResponse, expectedChunkSize, removeCrlfAfterChunk := false, 0, false;
    }

    // The parts of the status line; the second is the status.
    method ParseStatusLine(line: string) returns (ok: bool)
      requires line != ""
      modifies `status
      ensures match StatusLine(old(Now()), line)
              case None => !ok
              case Some(st) => ok && Now() == st
    {
      hide Stoi, Find;
      var begin, partNum := 0, 0;
      while begin != |line|
        invariant 0 <= begin <= |line|
        invariant partNum == 0 ==> begin == 0 && status == old(status)
        invariant partNum == 1 ==> begin == Find(line, ' ') + 1 && status == old(status)
        invariant partNum >= 2 ==> StatusLine(old(Now()), line) == Some(Now())
        decreases |line| - begin
      {
        var end := begin + Find(line[begin..], ' ');
        var part := line[begin..end];
        assert begin == 0 ==> line[begin..] == line;
        partNum := partNum + 1;
        if partNum == 2 {
          assert part == line[begin..][..Find(line[begin..], ' ')];
          var n := Stoi(part);
          if n.None? {
            return false;
          }
          status := n.value;
        }
        if end == |line| {
          break;
        }
        begin := end + 1;
      }
      return true;
    }

    method ParseHeaderField(line: string) returns (ok: bool)
      modifies `headers, `contentLength, `contentLengthReceived, `chunkedResponse
      ensures match HeaderField(old(Now()).(response := old(Now()).response.(headers := old(headers) + [line])), line)
              case None => !ok
              case Some(st) => ok && Now() == st
    {
      headers := headers + [line];
      var pos := Find(line, ':');
      if pos != |line| {
        var headerName := line[..pos];
        var headerValue := RTrim(LTrim(line[pos + 1..]));
        if headerName == "Content-Length" {
          var n := Stoul(headerValue, 10);
          if n.None? {
            return false;
          }
          contentLength := n.value;
          contentLengthReceived := true;
        } else if headerName == "Transfer-Encoding" {
          if headerValue == "chunked" {
            chunkedResponse := true;
          } else {
            return false;
          }
        }
      }
      return true;
    }

    // One line of the header section, already removed from the data.
    method ParseLine(line: string) returns (ok: bool)
      modifies this
      ensures match HeaderLine(old(Now()), line)
              case None => !ok
              case Some(st) => ok && Now() == st
    {
      hide StatusLine, HeaderField;
      if line == "" {
        parsedHeaders := true;
        return true;
      } else if statusLine {
        statusLine := false;
        ok := ParseStatusLine(line);
      } else {
        ok := ParseHeaderField(line);
      }
    }

    // The loop over the lines of the header section.
    method ReadHeaders() returns (ok: bool)
      requires !parsedHeaders
      modifies this
      ensures !ok ==> Drain(old(Now())) == Failed
      ensures ok ==> Drain(Now()) == Drain(old(Now())) && (!parsedHeaders ==> Step(Now()) == Stuck)
    {
      hide Drain, Step, HeaderLine, HeaderMove, FindCrlf;
      while !parsedHeaders
        invariant Drain(Now()) == Drain(old(Now()))
        decreases |responseData|
      {
        HeaderMoves(Now());
        var i := FindCrlf(responseData);
        if i == |responseData| {
          return true;
        }
        var line := responseData[..i];
        responseData := responseData[i + 2..];
        HeaderLineParts(Now(), line);
        ok := ParseLine(line);
        if !ok {
          return false;
        }
      }
      return true;
    }

    // Move data of the current chunk to the body.
    method TakeData()
      requires expectedChunkSize > 0
      modifies `body, `responseData, `expectedChunkSize, `removeCrlfAfterChunk
      ensures Now() == if old(responseData) == "" then old(Now()) else TakeChunk(old(Now()), old(responseData))
      ensures |responseData| < |old(responseData)| || (responseData == old(responseData) == "")
    {
      ghost var before := body;
      var toWrite := Min(expectedChunkSize, |responseData|);
      body := body + responseData[..toWrite];
      responseData := responseData[toWrite..];
      expectedChunkSize := expectedChunkSize - toWrite;
      if expectedChunkSize == 0 {
        removeCrlfAfterChunk := true;
      }
      assert toWrite == 0 ==> body == before;
    }

    // The line with the size of the next chunk.
    method ReadSize() returns (ok: bool, found: bool)
      requires parsedHeaders && chunkedResponse && expectedChunkSize == 0 && !removeCrlfAfterChunk
      modifies `responseData, `expectedChunkSize
      ensures !ok ==> Drain(old(Now())) == Failed
      ensures ok && !found ==> Now() == old(Now()) && Drain(Now()) == More(Now())
      ensures ok && found ==>
                && |responseData| < |old(responseData)|
                && Drain(old(Now())) == if expectedChunkSize == 0 then Complete(Now()) else Drain(Now())
    {
      hide Drain, Step, FindCrlf, Stoul;
      ChunkMoves(Now());
      var i := FindCrlf(responseData);
      if i == |responseData| {
        return true, false;
      }
      var line := responseData[..i];
      responseData := responseData[i + 2..];
      var size := Stoul(line, 16);
      if size.None? {
        return false, false;
      }
      expectedChunkSize := size.value;
      return true, true;
    }

    // The loop over the chunks.
    method ReadChunks() returns (ok: bool, dataReceived: bool)
      requires parsedHeaders && chunkedResponse
      modifies this
      ensures !ok ==> Drain(old(Now())) == Failed
      ensures ok ==> Drain(old(Now())) == if dataReceived then Complete(Now()) else More(Now())
      ensures parsedHeaders && chunkedResponse
    {
      hide Drain, Step, TakeChunk, FindCrlf, Stoul;
      dataReceived := false;
      while true
        invariant parsedHeaders && chunkedResponse && !dataReceived
        invariant Drain(Now()) == Drain(old(Now()))
        decreases |responseData|, expectedChunkSize
      {
        ghost var before := Now();
        ChunkMoves(before);
        if expectedChunkSize > 0 {
          TakeData();
          if responseData == "" {
            ChunkMoves(Now());
            return true, false;
          }
        } else {
          if removeCrlfAfterChunk {
            if |responseData| >= 2 {
              removeCrlfAfterChunk := false;
              responseData := responseData[2..];
              ChunkMoves(Now());
            } else {
              return true, false;
            }
          }
          var found;
          ok, found := ReadSize();
          if !ok || !found {
            return ok, false;
          }
          if expectedChunkSize == 0 {
            return true, true;
          }
        }
      }
    }

    // One pass of the outer loop.
    method ProcessPiece(piece: string) returns (ok: bool, complete: bool)
      modifies this
      ensures var o := Settle(Drain(Feed(old(Now()), piece)));
              if !ok then o == Failed else if complete then o == Complete(Now()) else o == More(Now())
    {
      hide Drain, HeaderMove, ChunkMove;
      responseData := responseData + piece;
      if !parsedHeaders {
        ok := ReadHeaders();
        if !ok {
          return false, false;
        }
      }
      if parsedHeaders {
        if chunkedResponse {
          ok, complete := ReadChunks();
        } else {
          PlainMoves(Now());
          body := body + responseData;
          responseData := "";
          return true, contentLengthReceived && |body| >= contentLength;
        }
      } else {
        StuckMoves(Now());
        return true, false;
      }
    }

    // The outer loop: each non-empty delivery of the socket is a piece; then the peer
    // disconnects, or recv throws.
    method Run(pieces: seq<string>, recvThrows: bool) returns (ok: bool)
      requires Now() == INIT
      modifies this
      ensures match Receive(INIT, pieces)
              case Failed => !ok
              case Complete(st) => ok && Response(status, headers, body) == st.response
              case More(st) => ok == !recvThrows && Response(status, headers, body) == st.response
    {
      hide Drain, Settle;
      var i := 0;
      while i < |pieces|
        invariant 0 <= i <= |pieces|
        invariant Receive(INIT, pieces) == Receive(Now(), pieces[i..])
      {
        assert pieces[i..][1..] == pieces[i + 1..];
        var complete;
        ok, complete := ProcessPiece(pieces[i]);
        if !ok {
          return false;
        }
        if complete {
          return true;
        }
        i := i + 1;
      }
      return !recvThrows;
    }
  }

  lemma HeaderMoves(st: State)
    requires !st.parsedHeaders
    ensures var i := FindCrlf(st.data);
            i < |st.data| ==>
              match HeaderLine(st.(data := st.data[i + 2..]), st.data[..i])
              case None => Drain(st) == Failed
              case Some(st') => Drain(st) == Drain(st')
    ensures FindCrlf(st.data) == |st.data| ==> Step(st) == Stuck
  {
    hide HeaderLine;
    GoConsumes(st);
  }

  lemma StuckMoves(st: State)
    requires Step(st) == Stuck
    ensures Drain(st) == More(st)
  {
  }

  lemma PlainMoves(st: State)
    requires st.parsedHeaders && !st.chunked
    ensures Drain(st) == More(st.(response := st.response.(body := st.response.body + st.data), data := ""))
  {
    GoConsumes(st);
    if st.data == "" {
      assert st.response.body + "" == st.response.body;
    } else {
      assert Step(Step(st).st) == Stuck;
    }
  }

  // The moves of the loop over the chunks, one by one.
  lemma ChunkMoves(st: State)
    requires st.parsedHeaders && st.chunked
    ensures st.expected > 0 && st.data != "" ==> Drain(st) == Drain(TakeChunk(st, st.data))
    ensures st.expected > 0 && st.data == "" ==> Drain(st) == More(st)
    ensures st.expected == 0 && st.removeCrlf ==>
              Drain(st) == if |st.data| < 2 then More(st) else Drain(st.(data := st.data[2..], removeCrlf := false))
    ensures st.expected == 0 && !st.removeCrlf ==>
              var i := FindCrlf(st.data);
              Drain(st) ==
              if i == |st.data| then More(st)
              else
                match Stoul(st.data[..i], 16)
                case None => Failed
                case Some(n) =>
                  var st' := st.(data := st.data[i + 2..], expected := n);
                  if n == 0 then Complete(st') else Drain(st')
  {
    GoConsumes(st);
  }
}
