// The response-reading loop of Request::send in btor/HTTPRequest.hpp: header
// lines, the chunked state machine and the Content-Length path, driven by
// whatever pieces the socket delivers.
module HttpResponse {
  import opened Numbers
  import opened Text
  import opened Wrappers

  datatype Response = Response(status: int, headers: seq<string>, body: string)

  // The local variables of the loop.
  datatype State = State(
    data: string,               // responseData
    response: Response,
    statusLine: bool,
    parsedHeaders: bool,
    contentLength: Option<nat>, // contentLengthReceived and contentLength
    chunked: bool,              // chunkedResponse
    expected: nat,              // expectedChunkSize
    removeCrlf: bool            // removeCrlfAfterChunk
  )

  const INIT := State("", Response(0, [], ""), true, false, None, false, 0, false)

  // ---- lines ----

  // The position of the first CRLF in s, or |s|.
  function FindCrlf(s: string): (n: nat)
    ensures n <= |s| && (n < |s| ==> n + 2 <= |s| && s[n..n + 2] == CRLF)
  {
    FindSub(s, CRLF)
  }

  // The second of the parts of the line that spaces separate.
  function SecondPart(line: string): Option<string> {
    var i := Find(line, ' ');
    if i >= |line| - 1 then None
    else
      var tail := line[i + 1..];
      Some(tail[..Find(tail, ' ')])
  }

  // What a line of the header section does; None when it throws.
  function HeaderLine(st: State, line: string): Option<State> {
    if line == "" then Some(st.(parsedHeaders := true))
    else if st.statusLine then StatusLine(st.(statusLine := false), line)
    else HeaderField(st.(response := st.response.(headers := st.response.headers + [line])), line)
  }

  function StatusLine(st: State, line: string): Option<State> {
    match SecondPart(line)
    case None => Some(st)
    case Some(part) =>
      match Stoi(part)
      case None => None
      case Some(n) => Some(st.(response := st.response.(status := n)))
  }

  function HeaderField(st: State, line: string): Option<State> {
    var pos := Find(line, ':');
    if pos == |line| then Some(st)
    else
      var name, value := line[..pos], RTrim(LTrim(line[pos + 1..]));
      if name == "Content-Length" then
        match Stoul(value, 10)
        case None => None
        case Some(n) => Some(st.(contentLength := Some(n)))
      else if name == "Transfer-Encoding" then
        if value == "chunked" then Some(st.(chunked := true)) else None
      else Some(st)
  }

  // ---- one move of the machine on the data that has arrived ----

  datatype Move = Stuck | Go(st: State) | Finish(st: State) | Throw

  function Min(a: nat, b: nat): nat { if a <= b then a else b }

  function Step(st: State): Move {
    if !st.parsedHeaders then HeaderMove(st)
    else if st.chunked then ChunkMove(st)
    else if st.data == "" then Stuck
    else Go(st.(response := st.response.(body := st.response.body + st.data), data := ""))
  }

  function HeaderMove(st: State): Move {
    var i := FindCrlf(st.data);
    if i == |st.data| then Stuck
    else
      match HeaderLine(st.(data := st.data[i + 2..]), st.data[..i])
      case None => Throw
      case Some(st') => Go(st')
  }

  // Take as much of a chunk as there is.
  function TakeChunk(st: State, d: string): State
    requires st.expected > 0
  {
    var k := Min(st.expected, |d|);
    st.(response := st.response.(body := st.response.body + d[..k]), data := d[k..],
        expected := st.expected - k, removeCrlf := st.removeCrlf || k == st.expected)
  }

  function ChunkMove(st: State): Move {
    if st.expected > 0 then
      if st.data == "" then Stuck else Go(TakeChunk(st, st.data))
    else if st.removeCrlf then
      if |st.data| < 2 then Stuck else Go(st.(data := st.data[2..], removeCrlf := false))
    else
      var i := FindCrlf(st.data);
      if i == |st.data| then Stuck
      else
        match Stoul(st.data[..i], 16)
        case None => Throw
        case Some(n) =>
          var st' := st.(data := st.data[i + 2..], expected := n);
          if n == 0 then Finish(st') else Go(st')
  }

  datatype Outcome = More(st: State) | Complete(st: State) | Failed

  lemma GoConsumes(st: State)
    ensures Step(st).Go? ==> |Step(st).st.data| < |st.data|
  {
    if !st.parsedHeaders {
      var i := FindCrlf(st.data);
      if i < |st.data| {
        HeaderLineParts(st.(data := st.data[i + 2..]), st.data[..i]);
      }
    }
  }

  // A header line leaves data and body alone, and only an empty one ends the
  // headers.
  lemma HeaderLineParts(st: State, line: string)
    ensures HeaderLine(st, line).Some? ==>
              var st' := HeaderLine(st, line).value;
              && st'.data == st.data && st'.response.body == st.response.body
              && st'.parsedHeaders == (st.parsedHeaders || line == "")
  {
    hide Stoul, Stoi, SecondPart, Find, LTrim, RTrim;
  }

  lemma DrainGo(st: State)
    requires Step(st).Go?
    ensures Drain(st) == Drain(Step(st).st) && |Step(st).st.data| < |st.data|
  {
    GoConsumes(st);
  }

  // All moves that the data allows.
  function Drain(st: State): Outcome
    decreases |st.data|
  {
    GoConsumes(st);
    match Step(st)
    case Stuck => More(st)
    case Go(st') => Drain(st')
    case Finish(st') => Complete(st')
    case Throw => Failed
  }

  function Feed(st: State, piece: string): State { st.(data := st.data + piece) }

  // The end of the body is known from Content-Length.
  predicate LengthDelimited(st: State) { st.parsedHeaders && !st.chunked && st.contentLength.Some? }

  predicate GotAll(st: State) { LengthDelimited(st) && |st.response.body| >= st.contentLength.value }

  // The test at the end of a pass.
  function Settle(o: Outcome): Outcome {
    if o.More? && GotAll(o.st) then Complete(o.st) else o
  }

  // The outer loop: one pass for each piece, until the peer disconnects.
  function Receive(st: State, pieces: seq<string>): Outcome
    decreases |pieces|
  {
    if pieces == [] then More(st)
    else
      match Settle(Drain(Feed(st, pieces[0])))
      case More(st') => Receive(st', pieces[1..])
      case o => o
  }

  // What send returns, or None when it throws.
  function ResultOf(o: Outcome): Option<Response> {
    if o.Failed? then None else Some(o.st.response)
  }

  // ---- the result does not depend on how the stream was cut ----

  lemma HeaderLineFed(st: State, line: string, x: string)
    ensures HeaderLine(Feed(st, x), line) ==
            match HeaderLine(st, line) case None => None case Some(st') => Some(Feed(st', x))
  {
  }

  lemma LineFed(data: string, x: string)
    requires FindCrlf(data) < |data|
    ensures var i := FindCrlf(data);
            FindCrlf(data + x) == i && (data + x)[..i] == data[..i] && (data + x)[i + 2..] == data[i + 2..] + x
  {
    FindSubMore(data, CRLF, x);
  }

  function FedMove(m: Move, x: string): Move {
    match m
    case Go(st) => Go(Feed(st, x))
    case Finish(st) => Finish(Feed(st, x))
    case _ => m
  }

  lemma HeaderMoveFed(st: State, x: string)
    requires HeaderMove(st) != Stuck
    ensures HeaderMove(Feed(st, x)) == FedMove(HeaderMove(st), x)
  {
    hide HeaderLine, FindCrlf;
    LineFed(st.data, x);
    HeaderLineFed(st.(data := st.data[FindCrlf(st.data) + 2..]), st.data[..FindCrlf(st.data)], x);
  }

  lemma ChunkMoveFed(st: State, x: string)
    requires ChunkMove(st) != Stuck && st.expected <= |st.data|
    ensures ChunkMove(Feed(st, x)) == FedMove(ChunkMove(st), x)
  {
    hide Stoul, FindCrlf, TakeChunk;
    if st.expected > 0 {
      TakeFed(st, x);
    } else if st.removeCrlf {
      assert (st.data + x)[2..] == st.data[2..] + x;
    } else {
      LineFed(st.data, x);
    }
  }

  lemma TakeFed(st: State, x: string)
    requires 0 < st.expected <= |st.data|
    ensures TakeChunk(Feed(st, x), st.data + x) == Feed(TakeChunk(st, st.data), x)
  {
    var k := st.expected;
    assert (st.data + x)[..k] == st.data[..k] && (st.data + x)[k..] == st.data[k..] + x;
  }

  // A move that does not use up a whole delivery is the same with more data.
  lemma StepFed(st: State, x: string)
    requires Step(st) != Stuck && (st.parsedHeaders ==> st.chunked && st.expected <= |st.data|)
    ensures Step(Feed(st, x)) == FedMove(Step(st), x)
  {
    hide HeaderMove, ChunkMove;
    if !st.parsedHeaders {
      HeaderMoveFed(st, x);
    } else {
      ChunkMoveFed(st, x);
    }
  }

  lemma FedNothing(st: State)
    ensures Feed(st, "") == st
  {
    assert st.data + "" == st.data;
  }

  lemma PlainBodyInTwo(st: State, x: string)
    requires st.parsedHeaders && !st.chunked && st.data != "" && x != ""
    ensures Step(st).Go? && Step(Feed(st, x)) == Step(Feed(Step(st).st, x))
  {
    assert st.response.body + (st.data + x) == st.response.body + st.data + x;
    assert "" + x == x;
  }

  lemma ChunkBodyInTwo(st: State, x: string)
    requires st.parsedHeaders && st.chunked && st.expected > |st.data| > 0 && x != ""
    ensures Step(st).Go? && Step(Feed(st, x)) == Step(Feed(Step(st).st, x))
  {
    var d := st.data;
    assert Step(st) == Go(TakeChunk(st, d)) && Step(Feed(st, x)) == Go(TakeChunk(st, d + x));
    TakeInTwo(st, d, x);
    assert Feed(TakeChunk(st, d), x).data == "" + x == x;
    assert Step(Feed(TakeChunk(st, d), x)) == Go(TakeChunk(TakeChunk(st, d), x));
  }

  lemma TakeInTwo(st: State, d: string, x: string)
    requires st.expected > |d|
    ensures TakeChunk(st, d).data == "" && TakeChunk(st, d).expected > 0
    ensures TakeChunk(TakeChunk(st, d), x) == TakeChunk(st, d + x)
  {
    var b, k := st.response.body, Min(st.expected - |d|, |x|);
    assert d[..|d|] == d && d[|d|..] == "";
    assert (d + x)[..|d| + k] == d + x[..k] && (d + x)[|d| + k..] == x[k..];
    assert b + (d + x[..k]) == b + d + x[..k];
  }

  // Body data can be taken in two portions.
  lemma BodyInTwo(st: State, x: string)
    requires st.parsedHeaders && st.data != "" && (st.chunked ==> st.expected > |st.data|)
    ensures Step(st).Go? && Drain(Feed(st, x)) == Drain(Feed(Step(st).st, x))
  {
    if x == "" {
      FedNothing(st);
      FedNothing(Step(st).st);
    } else if !st.chunked {
      PlainBodyInTwo(st, x);
    } else {
      ChunkBodyInTwo(st, x);
    }
    hide Step;
  }

  // Draining before or after more data arrives makes no difference.
  lemma {:induction false} DrainFed(st: State, x: string)
    ensures match Drain(st)
            case More(st') => Drain(Feed(st, x)) == Drain(Feed(st', x))
            case Complete(st') => Drain(Feed(st, x)) == Complete(Feed(st', x))
            case Failed => Drain(Feed(st, x)) == Failed
    decreases |st.data|
  {
    GoConsumes(st);
    if Step(st) != Stuck {
      if st.parsedHeaders && (!st.chunked || st.expected > |st.data|) {
        BodyInTwo(st, x);
      } else {
        StepFed(st, x);
      }
      if Step(st).Go? {
        DrainFed(Step(st).st, x);
      }
    }
  }

  lemma {:induction false} DrainedIsStuck(st: State)
    requires Drain(st).More?
    ensures Step(Drain(st).st) == Stuck
    decreases |st.data|
  {
    GoConsumes(st);
    if Step(st).Go? {
      DrainedIsStuck(Step(st).st);
    }
  }

  lemma FedTwice(st: State, x: string, y: string)
    ensures Feed(Feed(st, x), y) == Feed(st, x + y)
  {
    assert st.data + x + y == st.data + (x + y);
  }

  // With a known length and all headers read, all that arrives is body.
  lemma LengthDelimitedBody(st: State, x: string)
    requires LengthDelimited(st) && st.data == ""
    ensures Drain(Feed(st, x)) == More(st.(response := st.response.(body := st.response.body + x)))
  {
    var st' := Feed(st, x);
    assert "" + x == x;
    if x == "" {
      assert st.response.body + x == st.response.body;
    } else {
      GoConsumes(st');
      assert Step(Step(st').st) == Stuck;
    }
  }

  // The whole stream delivered at once.
  function Whole(st: State, pieces: seq<string>): Outcome { Drain(Feed(st, Concat(pieces))) }

  lemma WholeAfterFirst(st: State, pieces: seq<string>)
    requires pieces != []
    ensures match Drain(Feed(st, pieces[0]))
            case More(st') => Whole(st, pieces) == Whole(st', pieces[1..])
            case Complete(st') => Whole(st, pieces) == Complete(Feed(st', Concat(pieces[1..])))
            case Failed => Whole(st, pieces) == Failed
  {
    FedTwice(st, pieces[0], Concat(pieces[1..]));
    DrainFed(Feed(st, pieces[0]), Concat(pieces[1..]));
  }

  lemma {:induction false} CutIndependenceFrom(st: State, pieces: seq<string>)
    requires Step(st) == Stuck
    requires Whole(st, pieces).More? ==> !LengthDelimited(Whole(st, pieces).st)
    ensures ResultOf(Receive(st, pieces)) == ResultOf(Whole(st, pieces))
    decreases |pieces|
  {
    if pieces == [] {
      assert Feed(st, "") == st by { assert st.data + "" == st.data; }
    } else {
      WholeAfterFirst(st, pieces);
      var o := Drain(Feed(st, pieces[0]));
      if o.More? {
        DrainedIsStuck(Feed(st, pieces[0]));
        if LengthDelimited(o.st) {
          LengthDelimitedBody(o.st, Concat(pieces[1..]));
        } else {
          CutIndependenceFrom(o.st, pieces[1..]);
        }
      }
    }
  }

  // When the response is chunked, or its length is not given, or it is broken,
  // send returns or throws the same for every way of cutting the stream.
  lemma CutIndependence(pieces: seq<string>)
    requires Whole(INIT, pieces).More? ==> !LengthDelimited(Whole(INIT, pieces).st)
    ensures ResultOf(Receive(INIT, pieces)) == ResultOf(Whole(INIT, pieces))
  {
    CutIndependenceFrom(INIT, pieces);
  }

  // With Content-Length, send returns the same status and headers for every way
  // of cutting, and a body that starts the stream's body and, unless the peer
  // disconnects earlier, is not shorter than Content-Length.
  lemma {:induction false} LengthDelimitedFrom(st: State, pieces: seq<string>)
    requires Step(st) == Stuck
    requires Whole(st, pieces).More? && LengthDelimited(Whole(st, pieces).st)
    ensures var w, r := Whole(st, pieces).st, ResultOf(Receive(st, pieces));
            && r.Some? && r.value == w.response.(body := r.value.body) && r.value.body <= w.response.body
            && Min(w.contentLength.value, |w.response.body|) <= |r.value.body|
    decreases |pieces|
  {
    if pieces == [] {
      assert Feed(st, "") == st by { assert st.data + "" == st.data; }
    } else {
      WholeAfterFirst(st, pieces);
      var o := Drain(Feed(st, pieces[0]));
      DrainedIsStuck(Feed(st, pieces[0]));
      if GotAll(o.st) {
        LengthDelimitedBody(o.st, Concat(pieces[1..]));
      } else {
        LengthDelimitedFrom(o.st, pieces[1..]);
      }
    }
  }

  // The length of the header section: up to and including the first empty line.
  function HeaderLength(s: string): (n: nat)
    ensures n <= |s|
  {
    var i := FindCrlf(s);
    if i == |s| then |s| else if i == 0 then 2 else i + 2 + HeaderLength(s[i + 2..])
  }

  lemma {:induction false} BodyFollowsHeaders(st: State)
    requires Drain(st).More? && !st.parsedHeaders && st.response.body == ""
    requires Drain(st).st.parsedHeaders && !Drain(st).st.chunked
    ensures Drain(st).st.response.body == st.data[HeaderLength(st.data)..]
    decreases |st.data|
  {
    hide Drain, Step, HeaderMove, FindCrlf;
    HeaderMoveParts(st);
    DrainGo(st);
    var i, st' := FindCrlf(st.data), HeaderMove(st).st;
    if i > 0 {
      BodyFollowsHeaders(st');
      var n := HeaderLength(st'.data);
      assert st'.data[n..] == st.data[i + 2 + n..];
    } else {
      BodyIsAll(st');
    }
  }

  lemma HeaderMoveParts(st: State)
    requires !st.parsedHeaders && Drain(st).More? && Drain(st).st.parsedHeaders
    ensures Step(st).Go? && Step(st) == HeaderMove(st)
    ensures var i, st' := FindCrlf(st.data), HeaderMove(st).st;
            && i < |st.data| && st'.data == st.data[i + 2..] && st'.response.body == st.response.body
            && (st'.parsedHeaders <==> i == 0)
  {
    hide HeaderLine, FindCrlf;
    var i := FindCrlf(st.data);
    if i < |st.data| {
      HeaderLineParts(st.(data := st.data[i + 2..]), st.data[..i]);
    }
  }

  lemma {:induction false} BodyIsAll(st: State)
    requires st.parsedHeaders && st.response.body == ""
    requires Drain(st).More? && !Drain(st).st.chunked
    ensures Drain(st).st.response.body == st.data
    decreases |st.data|
  {
    GoConsumes(st);
    if st.chunked {
      ChunkedStays(st);
    } else if st.data != "" {
      assert Step(Step(st).st) == Stuck;
      assert "" + st.data == st.data;
    }
  }

  lemma {:induction false} ChunkedStays(st: State)
    requires st.parsedHeaders && st.chunked && Drain(st).More?
    ensures Drain(st).st.chunked
    decreases |st.data|
  {
    if Step(st).Go? {
      DrainGo(st);
      assert Step(st).st.chunked && Step(st).st.parsedHeaders;
      ChunkedStays(Step(st).st);
      hide Step, Drain;
    }
  }

  // On normal completion of a response with Content-Length, the first
  // Content-Length bytes of the body are the bytes right after the empty line.
  lemma ContentLengthBody(pieces: seq<string>)
    requires Whole(INIT, pieces).More? && LengthDelimited(Whole(INIT, pieces).st)
    requires Receive(INIT, pieces).Complete?
    ensures var s, n, w := Concat(pieces), HeaderLength(Concat(pieces)), Whole(INIT, pieces).st;
            var r := ResultOf(Receive(INIT, pieces)).value;
            && r.status == w.response.status && r.headers == w.response.headers
            && w.contentLength.value <= |r.body| <= |s[n..]|
            && r.body[..w.contentLength.value] == s[n..][..w.contentLength.value]
  {
    var s := Concat(pieces);
    assert Feed(INIT, s).data == s;
    LengthDelimitedFrom(INIT, pieces);
    BodyFollowsHeaders(Feed(INIT, s));
    CompleteHasAll(INIT, pieces);
  }

  // A pass ends the loop on a response with a length only when all has arrived.
  lemma {:induction false} CompleteHasAll(st: State, pieces: seq<string>)
    requires Step(st) == Stuck
    requires Whole(st, pieces).More? && LengthDelimited(Whole(st, pieces).st)
    requires Receive(st, pieces).Complete?
    ensures Whole(st, pieces).st.contentLength.value <= |Receive(st, pieces).st.response.body|
    decreases |pieces|
  {
    WholeAfterFirst(st, pieces);
    var o := Drain(Feed(st, pieces[0]));
    DrainedIsStuck(Feed(st, pieces[0]));
    if GotAll(o.st) {
      LengthDelimitedBody(o.st, Concat(pieces[1..]));
    } else {
      CompleteHasAll(o.st, pieces[1..]);
    }
  }
}
