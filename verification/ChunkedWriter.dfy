// write_content_chunked of btor/httplib.h with the compressor that does nothing: the
// sink that it hands to the content provider, and its loop over the provider.
module ChunkedWriter {
  import opened Chunked
  import opened Hex
  import opened Numbers
  import opened Text

  // The receiving end of a connection; limit is how much it still takes.
  class Connection {
    var sent: string
    var limit: nat

    constructor (limit: nat)
      ensures sent == "" && this.limit == limit
    {
      sent, this.limit := "", limit;
    }

    // write_data: everything is sent, or the connection fails part of the way.
    method WriteData(d: string) returns (ok: bool)
      modifies this
      ensures ok <==> |d| <= old(limit)
      ensures ok ==> sent == old(sent) + d && limit == old(limit) - |d|
      ensures !ok ==> old(sent) <= sent <= old(sent) + d
    {
      if |d| <= limit {
        sent, limit := sent + d, limit - |d|;
        return true;
      }
      sent, limit := sent + d[..limit], 0;
      return false;
    }
  }

  // The callbacks that write_content_chunked hands to the content provider.
  class ChunkedSink {
    const strm: Connection
    var offset: nat
    var dataAvailable: bool
    var ok: bool

    constructor (strm: Connection)
      ensures this.strm == strm && offset == 0 && dataAvailable && ok
    {
      this.strm := strm;
      offset, dataAvailable, ok := 0, true, true;
    }

    method Write(d: string)
      modifies this, strm
      ensures !old(ok) ==> unchanged(this) && unchanged(strm)
      ensures old(ok) ==> dataAvailable == (d != "") && offset == old(offset) + |d|
      ensures ok <==> old(ok) && |Chunk(d)| <= old(strm.limit)
      ensures old(strm.sent) <= strm.sent <= old(strm.sent) + Chunk(d)
      ensures ok ==> strm.sent == old(strm.sent) + Chunk(d) && strm.limit == old(strm.limit) - |Chunk(d)|
    {
      if !ok {
        return;
      }
      dataAvailable := |d| > 0;
      offset := offset + |d|;
      var payload := d;
      if payload != "" {
        var hex := FromIToHex(|payload|);
        var chunk := hex + CRLF + payload + CRLF;
        ok := strm.WriteData(chunk);
      }
    }

    method Done()
      modifies this, strm
      ensures !old(ok) ==> unchanged(this) && unchanged(strm)
      ensures old(ok) ==> !dataAvailable && offset == old(offset)
      ensures ok <==> old(ok) && |DONE_MARKER| <= old(strm.limit)
      ensures old(strm.sent) <= strm.sent <= old(strm.sent) + DONE_MARKER
      ensures ok ==> strm.sent == old(strm.sent) + DONE_MARKER && strm.limit == old(strm.limit) - |DONE_MARKER|
    {
      if !ok {
        return;
      }
      dataAvailable := false;
      ok := strm.WriteData(DONE_MARKER);
    }
  }

  // ---- the content provider ----

  // A call of data_sink.write or data_sink.done.
  datatype SinkCall = Write(d: string) | Done

  // One turn of the loop: the answer of is_shutting_down, the calls of the sink that
  // the provider makes, and what it returns.
  datatype Turn = Turn(shuttingDown: bool, calls: seq<SinkCall>, go: bool)

  function CallText(call: SinkCall): string {
    match call
    case Write(d) => Chunk(d)
    case Done => DONE_MARKER
  }

  function CallsText(calls: seq<SinkCall>): string {
    if calls == [] then "" else CallText(calls[0]) + CallsText(calls[1..])
  }

  // data_available after these calls, when it was true before.
  predicate GoesOn(calls: seq<SinkCall>) {
    calls == [] || (calls[|calls| - 1].Write? && calls[|calls| - 1].d != "")
  }

  // The calls that are made before the loop ends.
  function Executed(turns: seq<Turn>): seq<SinkCall> {
    if turns == [] || turns[0].shuttingDown then []
    else turns[0].calls + (if turns[0].go && GoesOn(turns[0].calls) then Executed(turns[1..]) else [])
  }

  // The loop ends because data_available is false or the server shuts down, and not
  // because the provider gives up.
  predicate Succeeds(turns: seq<Turn>) {
    turns != [] &&
    (turns[0].shuttingDown || (turns[0].go && (GoesOn(turns[0].calls) ==> Succeeds(turns[1..]))))
  }

  method Make(sink: ChunkedSink, call: SinkCall)
    modifies sink, sink.strm
    ensures !old(sink.ok) ==> unchanged(sink) && unchanged(sink.strm)
    ensures var strm, text := sink.strm, CallText(call);
            old(sink.ok) ==>
              && (sink.ok <==> |text| <= old(strm.limit))
              && (sink.ok ==> strm.sent == old(strm.sent) + text && strm.limit == old(strm.limit) - |text|)
              && old(strm.sent) <= strm.sent <= old(strm.sent) + text
              && sink.dataAvailable == GoesOn([call])
  {
    hide Chunk;
    match call {
      case Write(d) => sink.Write(d);
      case Done => sink.Done();
    }
  }

  // The provider makes its calls.  After a failure they do nothing.
  method Provide(sink: ChunkedSink, calls: seq<SinkCall>)
    requires sink.ok
    modifies sink, sink.strm
    ensures var strm, text := sink.strm, CallsText(calls);
            && (sink.ok <==> |text| <= old(strm.limit))
            && (sink.ok ==> strm.sent == old(strm.sent) + text && strm.limit == old(strm.limit) - |text|)
            && old(strm.sent) <= strm.sent <= old(strm.sent) + text
    ensures sink.ok && old(sink.dataAvailable) ==> sink.dataAvailable == GoesOn(calls)
  {
    hide CallText, CallsText, GoesOn;
    ghost var strm, start, text := sink.strm, sink.strm.sent, CallsText(calls);
    ghost var before := sink.dataAvailable;
    CallsEnds(calls, start);
    var i := 0;
    while i < |calls|
      invariant 0 <= i <= |calls| && start <= strm.sent <= start + text
      invariant sink.ok ==> strm.sent + CallsText(calls[i..]) == start + text
      invariant sink.ok ==> |strm.sent| - |start| + strm.limit == old(strm.limit)
      invariant !sink.ok ==> |text| > old(strm.limit)
      invariant sink.ok && before ==> sink.dataAvailable == GoesOn(calls[..i])
    {
      CallsStep(calls, i, strm.sent);
      Make(sink, calls[i]);
      i := i + 1;
    }
    assert calls[..i] == calls && calls[i..] == [];
    CallsEnds([], strm.sent);
  }

  lemma CallsEnds(calls: seq<SinkCall>, sent: string)
    ensures calls[0..] == calls && GoesOn(calls[..0]) && sent + CallsText([]) == sent
  {
  }

  lemma CallsStep(calls: seq<SinkCall>, i: nat, sent: string)
    requires i < |calls|
    ensures sent + CallsText(calls[i..]) == sent + CallText(calls[i]) + CallsText(calls[i + 1..])
    ensures GoesOn(calls[..i + 1]) == GoesOn([calls[i]])
  {
    assert calls[i..][1..] == calls[i + 1..];
  }

  method WriteContentChunked(strm: Connection, turns: seq<Turn>) returns (ok: bool)
    modifies strm
    ensures var text := CallsText(Executed(turns));
            && (ok <==> Succeeds(turns) && |text| <= old(strm.limit))
            && (|text| <= old(strm.limit) ==> strm.sent == old(strm.sent) + text)
            && old(strm.sent) <= strm.sent <= old(strm.sent) + text
  {
    hide Chunk, CallsText, GoesOn;
    var sink := new ChunkedSink(strm);
    var i := 0;
    ghost var text := CallsText(Executed(turns));
    NothingMore(strm.sent);
    while sink.dataAvailable
      invariant sink.strm == strm && fresh(sink) && sink.ok && 0 <= i <= |turns|
      invariant |strm.sent| - |old(strm.sent)| + strm.limit == old(strm.limit)
      invariant old(strm.sent) <= strm.sent
      invariant sink.dataAvailable ==> strm.sent + CallsText(Executed(turns[i..])) == old(strm.sent) + text
      invariant sink.dataAvailable ==> (Succeeds(turns) <==> Succeeds(turns[i..]))
      invariant !sink.dataAvailable ==> strm.sent == old(strm.sent) + text && Succeeds(turns)
      decreases |turns| - i
    {
      NothingMore(strm.sent);
      if i == |turns| {
        return false;
      }
      if turns[i].shuttingDown {
        break;
      }
      assert turns[i..][1..] == turns[i + 1..];
      TurnStep(turns[i..], strm.sent);
      Provide(sink, turns[i].calls);
      if !turns[i].go {
        return false;
      }
      if !sink.ok {
        return false;
      }
      i := i + 1;
    }
    return true;
  }

  lemma NothingMore(sent: string)
    ensures sent + CallsText([]) == sent
  {
  }

  lemma TurnStep(turns: seq<Turn>, sent: string)
    requires turns != [] && !turns[0].shuttingDown
    ensures var t := turns[0];
            var rest := if t.go && GoesOn(t.calls) then CallsText(Executed(turns[1..])) else "";
            sent + CallsText(Executed(turns)) == sent + CallsText(t.calls) + rest
  {
    hide GoesOn;
    var t := turns[0];
    var more := if t.go && GoesOn(t.calls) then Executed(turns[1..]) else [];
    CallsTextConcat(t.calls, more);
    assert sent + (CallsText(t.calls) + CallsText(more)) == sent + CallsText(t.calls) + CallsText(more);
  }

  lemma {:induction false} CallsTextConcat(a: seq<SinkCall>, b: seq<SinkCall>)
    ensures CallsText(a + b) == CallsText(a) + CallsText(b)
  {
    if a == [] {
      assert a + b == b;
    } else {
      assert (a + b)[1..] == a[1..] + b;
      CallsTextConcat(a[1..], b);
    }
  }

  // ---- what is read back ----

  // The pieces of these calls, one after the other.
  function Payload(calls: seq<SinkCall>): string {
    if calls == [] then "" else (if calls[0].Write? then calls[0].d else "") + Payload(calls[1..])
  }

  // The pieces are shorter than ULONG_MAX, and behind the first done comes nothing
  // but empty pieces.
  predicate Proper(calls: seq<SinkCall>) {
    calls != [] &&
    match calls[0]
    case Write(d) => |d| < ULONG_MAX && Proper(calls[1..])
    case Done => Quiet(calls[1..])
  }

  predicate Quiet(calls: seq<SinkCall>) {
    forall i | 0 <= i < |calls| :: calls[i] == Write("")
  }

  lemma {:induction false} QuietExactly(calls: seq<SinkCall>)
    ensures Quiet(calls) <==> CallsText(calls) == ""
    ensures Quiet(calls) ==> Payload(calls) == ""
  {
    hide HexOf;
    if calls != [] {
      QuietExactly(calls[1..]);
      assert Quiet(calls) <==> calls[0] == Write("") && Quiet(calls[1..]) by {
        if calls[0] == Write("") && Quiet(calls[1..]) {
          forall i | 0 <= i < |calls|
            ensures calls[i] == Write("")
          {
            assert i > 0 ==> calls[i] == calls[1..][i - 1];
          }
        }
      }
    }
  }

  // What any calls of the sink emit is read back, to its end and as their pieces,
  // exactly when they are proper.
  lemma {:induction false} ReadBackExactly(calls: seq<SinkCall>, fails: bool)
    ensures Proper(calls) <==> ReadChunked(CallsText(calls), fails) == Content(true, Payload(calls), "")
  {
    hide ReadChunked, Chunk, Quiet;
    if calls == [] {
      NothingToRead(fails);
    } else {
      var rest := CallsText(calls[1..]);
      match calls[0]
      case Write(d) =>
        ReadBackExactly(calls[1..], fails);
        if d == "" {
          EmptyChunk(rest);
          assert "" + Payload(calls[1..]) == Payload(calls[1..]);
        } else if |d| < ULONG_MAX {
          ReadOneChunk(d, rest, fails);
          var c := ReadChunked(rest, fails);
          assert (d + c.body)[|d|..] == c.body && (d + Payload(calls[1..]))[|d|..] == Payload(calls[1..]);
        } else {
          HugeChunk(d, rest, fails);
        }
      case Done =>
        ReadDone(rest, fails);
        QuietExactly(calls[1..]);
        assert "" + Payload(calls[1..]) == Payload(calls[1..]);
    }
  }

  lemma NothingToRead(fails: bool)
    ensures !ReadChunked("", fails).ok
  {
  }

  // Without done, the message has no end.
  lemma {:induction false} NoEnd(calls: seq<SinkCall>, fails: bool)
    requires forall i | 0 <= i < |calls| :: calls[i].Write?
    ensures !ReadChunked(CallsText(calls), fails).ok
  {
    hide ReadChunked, Chunk;
    if calls == [] {
      NothingToRead(fails);
    } else {
      var d, rest := calls[0].d, CallsText(calls[1..]);
      NoEnd(calls[1..], fails);
      if d == "" {
        EmptyChunk(rest);
      } else if |d| < ULONG_MAX {
        ReadOneChunk(d, rest, fails);
      } else {
        HugeChunk(d, rest, fails);
      }
    }
  }

  // ---- a provider that means to write some pieces and then be done ----

  function AllCalls(turns: seq<Turn>): seq<SinkCall> {
    if turns == [] then [] else turns[0].calls + AllCalls(turns[1..])
  }

  function Intended(writes: seq<string>): seq<SinkCall> {
    if writes == [] then [Done] else [Write(writes[0])] + Intended(writes[1..])
  }

  // The loop goes on from turn to turn as far as the sink lets it.
  predicate Willing(turns: seq<Turn>) {
    forall i | 0 <= i < |turns| :: turns[i].go && !turns[i].shuttingDown
  }

  // The last call of the turn is an empty piece.
  predicate EndsEmpty(turn: Turn) { turn.calls != [] && turn.calls[|turn.calls| - 1] == Write("") }

  predicate NoneEndsEmpty(turns: seq<Turn>) {
    forall i | 0 <= i < |turns| :: !EndsEmpty(turns[i])
  }

  // done is the last call, and the only one.
  predicate OneDone(calls: seq<SinkCall>) {
    calls != [] && calls[|calls| - 1] == Done && forall i | 0 <= i < |calls| - 1 :: calls[i].Write?
  }

  lemma {:induction false} IntendedParts(writes: seq<string>)
    ensures OneDone(Intended(writes)) && Payload(Intended(writes)) == Concat(writes)
    ensures CallsText(Intended(writes)) == Message(writes)
    ensures Proper(Intended(writes)) <==> forall i | 0 <= i < |writes| :: |writes[i]| < ULONG_MAX
  {
    hide Chunk;
    var calls := Intended(writes);
    if writes == [] {
      assert calls[1..] == [];
    } else {
      assert calls[1..] == Intended(writes[1..]);
      IntendedParts(writes[1..]);
    }
  }

  // A turn of such a provider that is not its last holds pieces only.
  lemma TurnParts(turns: seq<Turn>)
    requires turns != [] && OneDone(AllCalls(turns))
    ensures var rest := AllCalls(turns[1..]);
            if rest == [] then turns[0].calls == AllCalls(turns)
            else OneDone(rest) && forall i | 0 <= i < |turns[0].calls| :: turns[0].calls[i].Write?
  {
    var calls, rest, all := turns[0].calls, AllCalls(turns[1..]), AllCalls(turns);
    forall i | 0 <= i < |calls|
      ensures calls[i] == all[i]
    {
    }
    forall i | 0 <= i < |rest|
      ensures rest[i] == all[|calls| + i]
    {
    }
  }

  // All its calls are made, however it groups them, unless a turn ends with an empty
  // piece; then done is never reached.
  lemma {:induction false} ExecutedExactly(turns: seq<Turn>)
    requires Willing(turns) && OneDone(AllCalls(turns))
    ensures NoneEndsEmpty(turns) ==> Executed(turns) == AllCalls(turns)
    ensures !NoneEndsEmpty(turns) ==> forall i | 0 <= i < |Executed(turns)| :: Executed(turns)[i].Write?
  {
    var turn, rest := turns[0], turns[1..];
    TurnParts(turns);
    if AllCalls(rest) == [] {
      NoCallsNoEnds(rest);
    } else if !EndsEmpty(turn) {
      ExecutedExactly(rest);
    }
    assert NoneEndsEmpty(turns) <==> !EndsEmpty(turn) && NoneEndsEmpty(rest) by {
      forall i | 0 < i < |turns|
        ensures turns[i] == rest[i - 1]
      {
      }
    }
  }

  lemma {:induction false} NoCallsNoEnds(turns: seq<Turn>)
    requires AllCalls(turns) == []
    ensures NoneEndsEmpty(turns)
  {
    if turns != [] {
      NoCallsNoEnds(turns[1..]);
      forall i | 0 <= i < |turns|
        ensures !EndsEmpty(turns[i])
      {
        assert i > 0 ==> turns[i] == turns[1..][i - 1];
      }
    }
  }

  // However the provider groups its calls, the chunks are emitted in order.
  lemma EmittedInOrder(turns: seq<Turn>, writes: seq<string>)
    requires Willing(turns) && AllCalls(turns) == Intended(writes) && NoneEndsEmpty(turns)
    ensures CallsText(Executed(turns)) == Message(writes)
  {
    IntendedParts(writes);
    ExecutedExactly(turns);
  }

  // What such a provider has written is read back exactly when no turn ends with an
  // empty piece and no piece is too long.
  lemma RoundTripExactly(turns: seq<Turn>, writes: seq<string>, fails: bool)
    requires Willing(turns) && AllCalls(turns) == Intended(writes)
    ensures ReadChunked(CallsText(Executed(turns)), fails) == Content(true, Concat(writes), "") <==>
            NoneEndsEmpty(turns) && forall i | 0 <= i < |writes| :: |writes[i]| < ULONG_MAX
  {
    hide ReadChunked, Proper, OneDone;
    IntendedParts(writes);
    ExecutedExactly(turns);
    if NoneEndsEmpty(turns) {
      ReadBackExactly(Executed(turns), fails);
    } else {
      NoEnd(Executed(turns), fails);
    }
  }
}
