// MultipartFormDataParser of btor/httplib.h, with callbacks that accept everything
// and record what they receive.
module MultipartParser {
  import opened Text
  import opened Multipart
  import opened MultipartRoundTrip
  import opened MultipartRuns
  import opened Wrappers

  class MultipartFormDataParser {
    var boundary: string
    var buf: string
    var state: nat
    var isValid: bool
    var off: nat
    var file: Item
    var received: seq<Item>

    ghost predicate Ready()
      reads this
    {
      state <= 5
    }

    ghost function Value(): Machine
      reads this
    {
      Machine(buf, state, isValid, off, file, received)
    }

    constructor ()
      ensures Ready() && Value() == INIT
    {
      boundary, buf, state, isValid, off, file, received := "", "", 0, false, 0, NO_FILE, [];
    }

    method SetBoundary(b: string)
      modifies this`boundary
      ensures boundary == b
    {
      boundary := b;
    }

    method ContentCallback(data: string)
      modifies this`received
      ensures received == AddContent(old(received), data)
    {
      received := AddContent(received, data);
    }

    method Erase(n: nat)
      requires n <= |buf|
      modifies this`buf, this`off
      ensures Value() == Eat(old(Value()), n)
    {
      buf := buf[n..];
      off := off + n;
    }

    method InitialBoundary() returns (ended: Option<bool>)
      requires state == 0
      modifies this`buf, this`off, this`state
      ensures Step(old(Value()), boundary) == AsMove(ended, Value())
    {
      var pattern := "--" + boundary + CRLF;
      if |pattern| > |buf| {
        return Some(true);
      }
      var pos := FindSub(buf, pattern);
      if pos != 0 {
        return Some(false);
      }
      Erase(|pattern|);
      state := 1;
      return None;
    }

    // All the header lines in buf. The loop leaves as soon as the blank line is read.
    method Headers() returns (ended: Option<bool>)
      requires state == 2 && buf != ""
      modifies this`buf, this`off, this`state, this`file, this`received
      ensures Ready()
      ensures ended.None? ==> Drain(Value(), boundary) == old(Drain(Value(), boundary))
      ensures ended.None? ==> Measure(Value()) < old(Measure(Value()))
      ensures ended.Some? ==> (ended.value, Value()) == old(Drain(Value(), boundary))
    {
      hide Header, FindSub, Drain;
      ghost var start := Value();
      var pos := FindSub(buf, CRLF);
      while pos != |buf|
        invariant state == 2 && pos == FindSub(buf, CRLF)
        invariant Drain(Value(), boundary) == Drain(start, boundary)
        invariant |buf| <= |start.buf|
        decreases |buf|
      {
        DrainHeader(Value(), boundary);
        if pos == 0 {
          received := received + [file.(content := "")];
          Erase(2);
          state := 3;
          break;
        }
        var header := buf[..pos];
        file := Header(file, header);
        Erase(pos + 2);
        pos := FindSub(buf, CRLF);
      }
      if state != 3 {
        DrainHeader(Value(), boundary);
        return Some(true);
      }
      return None;
    }

    method Body() returns (ended: Option<bool>)
      requires state == 3
      modifies this`buf, this`off, this`state, this`received
      ensures Step(old(Value()), boundary) == AsMove(ended, Value())
    {
      hide FindString, FindSub, AddContent, Multipart.Delimiter;
      var pattern := CRLF + "--";
      if |pattern| > |buf| {
        return Some(true);
      }
      var pos := FindStringLoop(buf, pattern);
      ContentCallback(buf[..pos]);
      Erase(pos);
      ended := Delimiter();
    }

    // The second block of the body case.
    method Delimiter() returns (ended: Option<bool>)
      requires state == 3
      modifies this`buf, this`off, this`state, this`received
      ensures Multipart.Delimiter(old(Value()), boundary) == AsMove(ended, Value())
    {
      hide FindSub, AddContent;
      var pattern := CRLF + "--" + boundary;
      if |pattern| > |buf| {
        return Some(true);
      }
      var pos := FindSub(buf, pattern);
      if pos != |buf| {
        ContentCallback(buf[..pos]);
        assert buf[pos..][|pattern|..] == buf[pos + |pattern|..];
        Erase(pos + |pattern|);
        state := 4;
      } else {
        ContentCallback(buf[..|pattern|]);
        Erase(|pattern|);
      }
      return None;
    }

    method Boundary() returns (ended: Option<bool>)
      requires state == 4
      modifies this`buf, this`off, this`state, this`isValid
      ensures Step(old(Value()), boundary) == AsMove(ended, Value())
    {
      if |buf| < 2 {
        return Some(true);
      }
      if buf[..2] == CRLF {
        Erase(2);
        state := 1;
      } else {
        var pattern := "--" + CRLF;
        if |pattern| > |buf| {
          return Some(true);
        }
        if buf[..|pattern|] != pattern {
          return Some(true);
        }
        Erase(|pattern|);
        isValid := true;
        state := 5;
      }
      return None;
    }

    method Parse(data: string) returns (ok: bool)
      requires Ready()
      modifies this
      ensures Ready() && boundary == old(boundary)
      ensures (ok, Value()) == Multipart.Parse(old(Value()), boundary, data)
    {
      hide Step, Measure, Drain;
      buf := buf + data;
      ghost var start := Value();
      while buf != ""
        invariant Ready() && boundary == old(boundary)
        invariant Drain(Value(), boundary) == Drain(start, boundary)
        decreases Measure(Value())
      {
        ghost var before := Value();
        var ended: Option<bool> := None;
        match state {
          case 0 => ended := InitialBoundary();
          case 1 => file := NO_FILE; state := 2;
          case 2 => ended := Headers();
          case 3 => ended := Body();
          case 4 => ended := Boundary();
          case _ => isValid := false; ended := Some(false);
        }
        if before.state != 2 {
          Turn(before, boundary, ended, Value());
        }
        if ended.Some? {
          return ended.value;
        }
      }
      DrainNothing(Value(), boundary);
      return true;
    }
  }

  // How a case of the switch ends: a return of true or false, or the next turn.
  function AsMove(ended: Option<bool>, m: Machine): Move {
    match ended
    case None => Go(m)
    case Some(ok) => if ok then Wait(m) else Reject(m)
  }

  // One turn of the loop of parse is one move of the machine.
  lemma Turn(m: Machine, boundary: string, ended: Option<bool>, m': Machine)
    requires m.buf != "" && m.state <= 5
    requires match m.state
             case 1 => ended == None && m' == m.(file := NO_FILE, state := 2)
             case 5 => ended == Some(false) && m' == m.(valid := false)
             case _ => Step(m, boundary) == AsMove(ended, m')
    ensures m'.state <= 5
    ensures ended.None? ==> Drain(m, boundary) == Drain(m', boundary) && Measure(m') < Measure(m)
    ensures ended.Some? ==> Drain(m, boundary) == (ended.value, m')
  {
    hide Measure, HeaderLine, InitialBoundary, Body, Multipart.Boundary;
    StepUses(m, boundary);
  }

  lemma DrainHeader(m: Machine, boundary: string)
    requires m.state == 2
    ensures Drain(m, boundary) ==
            if FindSub(m.buf, CRLF) == |m.buf| then (true, m) else Drain(HeaderLine(m).m, boundary)
    ensures HeaderLine(m).m.state <= 5
  {
    hide FindSub, Header, Measure;
    StepUses(m, boundary);
  }

  lemma DrainNothing(m: Machine, boundary: string)
    requires m.state <= 5 && m.buf == ""
    ensures Drain(m, boundary) == (true, m)
  {
  }

  // The multipart part of Server::read_content_core, for a body that arrives in the
  // given pieces: what the callbacks receive, and whether the request is accepted.
  method ReadContentCore(boundary: string, pieces: seq<string>) returns (ok: bool, received: seq<Item>)
    ensures var (read, m) := ParseAll(INIT, boundary, pieces); ok == (read && m.valid) && received == m.received
    ensures forall items | items != [] && PlainItems(items) && ItemsFit(items, boundary) && '\r' !in boundary ::
              Concat(pieces) == BodyText(items, boundary) ==> ok && received == items
    ensures forall parts | parts != [] && GoodParts(parts) && ItemsFit(ItemsOf(parts), boundary) && '\r' !in boundary ::
              Concat(pieces) == MessageText(parts, boundary) ==> ok && received == ItemsOf(parts)
  {
    hide PlainItems, ItemsFit, BodyText, MessageText, GoodParts, Multipart.Parse;
    forall parts | parts != [] && GoodParts(parts) && ItemsFit(ItemsOf(parts), boundary) && '\r' !in boundary &&
                   Concat(pieces) == MessageText(parts, boundary)
      ensures HandedOut(ParseAll(INIT, boundary, pieces), ItemsOf(parts))
    {
      EveryCutOfParts(parts, boundary, pieces);
    }
    forall items | items != [] && PlainItems(items) && ItemsFit(items, boundary) && '\r' !in boundary &&
                   Concat(pieces) == BodyText(items, boundary)
      ensures HandedOut(ParseAll(INIT, boundary, pieces), items)
    {
      EveryCut(items, boundary, pieces);
    }
    var parser := new MultipartFormDataParser();
    parser.SetBoundary(boundary);
    ok := true;
    var i := 0;
    while ok && i < |pieces|
      invariant 0 <= i <= |pieces| && parser.Ready() && parser.boundary == boundary
      invariant ParseAll(INIT, boundary, pieces) ==
                if ok then ParseAll(parser.Value(), boundary, pieces[i..]) else (false, parser.Value())
    {
      assert pieces[i..][1..] == pieces[i + 1..];
      ok := parser.Parse(pieces[i]);
      i := i + 1;
    }
    received := parser.received;
    ok := ok && parser.isValid;
  }
}
