// Bodies that the parser refuses in every cutting: with text before the first boundary, or
// behind the last one (the preamble and the epilogue of section 5.1.1 of RFC 2046), and
// bodies that break off.
module MultipartRefused {
  import opened Text
  import opened Multipart
  import opened MultipartRoundTrip
  import opened MultipartCuts
  import opened MultipartRuns

  // ---- a wrong start ----

  function FirstLine(boundary: string): string { "--" + boundary + CRLF }

  predicate StartsRight(text: string, boundary: string) {
    |text| >= |FirstLine(boundary)| && text[..|FirstLine(boundary)|] == FirstLine(boundary)
  }

  // The parser waits for the first line.
  predicate Waiting(m: Machine) { m.state == 0 && !m.valid && m.received == [] }

  lemma WrongStartDrained(m: Machine, boundary: string)
    requires Waiting(m) && !StartsRight(m.buf, boundary)
    ensures Drain(m, boundary) == (|m.buf| < |FirstLine(boundary)|, m)
  {
    var t := FirstLine(boundary);
    if |m.buf| >= |t| {
      assert FindSub(m.buf, t) != 0;
      assert Step(m, boundary) == Reject(m);
    } else if m.buf != "" {
      assert Step(m, boundary) == Wait(m);
    }
  }

  lemma StartStays(text: string, more: string, boundary: string)
    ensures StartsRight(text, boundary) ==> StartsRight(text + more, boundary)
  {
    var n := |FirstLine(boundary)|;
    if |text| >= n {
      assert (text + more)[..n] == text[..n];
    }
  }

  // A body that does not start with the first boundary: nothing is handed out, and it
  // is not accepted.
  lemma {:induction false} WrongStart(m: Machine, boundary: string, pieces: seq<string>)
    requires Waiting(m) && |m.buf| < |FirstLine(boundary)|
    requires !StartsRight(m.buf + Concat(pieces), boundary)
    ensures var (ok, m') := ParseAll(m, boundary, pieces);
            Waiting(m') && (ok ==> |m.buf + Concat(pieces)| < |FirstLine(boundary)|)
    decreases |pieces|
  {
    hide Drain, FirstLine;
    if pieces != [] {
      var m1 := m.(buf := m.buf + pieces[0]);
      assert m.buf + Concat(pieces) == m1.buf + Concat(pieces[1..]);
      StartStays(m1.buf, Concat(pieces[1..]), boundary);
      WrongStartDrained(m1, boundary);
      if |m1.buf| < |FirstLine(boundary)| {
        WrongStart(m1, boundary, pieces[1..]);
      }
    }
  }

  // ---- text behind the end ----

  function More(m: Machine, x: string): Machine { m.(buf := m.buf + x) }

  lemma {:induction false} FindStringMore(s: string, p: string, x: string)
    requires p != "" && FindString(s, p) + |p| <= |s|
    ensures FindString(s + x, p) == FindString(s, p)
  {
    assert (s + x)[..|p|] == s[..|p|];
    if !(s[0] == p[0] && s[..|p|] == p) {
      assert (s + x)[1..] == s[1..] + x;
      FindStringMore(s[1..], p, x);
    }
  }

  lemma Cuts(s: string, x: string, n: nat)
    requires n <= |s|
    ensures (s + x)[..n] == s[..n] && (s + x)[n..] == s[n..] + x
  {
  }

  lemma EatMore(m: Machine, n: nat, x: string)
    requires n <= |m.buf|
    ensures More(m, x).buf[..n] == m.buf[..n]
    ensures Eat(More(m, x), n) == More(Eat(m, n), x)
    ensures Emit(More(m, x), n) == More(Emit(m, n), x)
  {
    hide AddContent;
    Cuts(m.buf, x, n);
  }

  lemma StartMore(m: Machine, boundary: string, x: string)
    requires InitialBoundary(m, boundary).Go?
    ensures InitialBoundary(More(m, x), boundary) == Go(More(InitialBoundary(m, boundary).m, x))
  {
    var t := "--" + boundary + CRLF;
    FindSubMore(m.buf, t, x);
    EatMore(m, |t|, x);
    hide FindSub, Eat;
  }

  // The same line stands at the start, and the machine does the same with it.
  lemma LineMore(m: Machine, x: string)
    requires HeaderLine(m).Go?
    ensures HeaderLine(More(m, x)) == Go(More(HeaderLine(m).m, x))
  {
    var n := FindSub(m.buf, CRLF);
    FindSubMore(m.buf, CRLF, x);
    EatMore(m, n, x);
    EatMore(m, n + 2, x);
    LineOnly(m, n);
    LineOnly(More(m, x), n);
    AfterLineMore(Eat(m, n + 2), m.buf[..n], x);
    hide FindSub, Eat, Header, HeaderLine, AfterLine;
  }

  // What the first line does, as a function of where it ends.
  function AfterLine(e: Machine, line: string): Machine {
    if line == "" then e.(state := 3, received := e.received + [e.file.(content := "")])
    else e.(file := Header(e.file, line))
  }

  lemma LineOnly(m: Machine, n: nat)
    requires n == FindSub(m.buf, CRLF) < |m.buf|
    ensures HeaderLine(m) == Go(AfterLine(Eat(m, n + 2), m.buf[..n]))
  {
    hide FindSub, Header;
  }

  lemma AfterLineMore(e: Machine, line: string, x: string)
    ensures AfterLine(More(e, x), line) == More(AfterLine(e, line), x)
  {
    hide Header;
  }

  lemma BoundaryMore(m: Machine, x: string)
    requires Multipart.Boundary(m).Go?
    ensures Multipart.Boundary(More(m, x)) == Go(More(Multipart.Boundary(m).m, x))
  {
    Cuts(m.buf, x, 2);
    if |m.buf| >= 4 {
      Cuts(m.buf, x, 4);
    }
  }

  // The whole content and the delimiter behind it are in the buffer.
  lemma BodyMore(m: Machine, p: Place, boundary: string, x: string, items: seq<Item>)
    requires At(m, p, boundary, "", items) && p.Content? && '\r' !in boundary && Unambiguous(p.c, boundary)
    ensures Body(m, boundary).Go? && Body(More(m, x), boundary) == Go(More(Body(m, boundary).m, x))
  {
    hide AfterText, Unambiguous, GoodPart, AddContent, FindSub, FindString, Dash, Received;
    var d, rest := Dash(boundary), AfterText(p.rest, boundary);
    assert m.buf == m.buf + "" == p.c + (d + rest);
    DashShape(boundary);
    Regroup(DASHES, boundary, rest);
    assert d == DASHES + boundary by { assert Dash(boundary) == DASHES + boundary; }
    SearchStops(m.buf, "", p.c, boundary + rest);
    var n := FindString(m.buf, DASHES);
    FindStringMore(m.buf, DASHES, x);
    EatMore(m, n, x);
    StillFits(p.c, boundary, n);
    var e := Emit(m, n);
    assert e.buf + "" == p.c[n..] + (d + rest);
    NoDelimiter(p.c[n..], boundary);
    DelimiterPlace(e.buf, "", p.c[n..], d, rest);
    DelimiterMore(e, boundary, x);
  }

  lemma DelimiterMore(m: Machine, boundary: string, x: string)
    requires FindSub(m.buf, CRLF + "--" + boundary) < |m.buf|
    ensures Delimiter(m, boundary).Go?
    ensures Delimiter(More(m, x), boundary) == Go(More(Delimiter(m, boundary).m, x))
  {
    var d, n := CRLF + "--" + boundary, FindSub(m.buf, CRLF + "--" + boundary);
    FindSubMore(m.buf, d, x);
    EatMore(m, n, x);
    EatMore(Emit(m, n), |d|, x);
    hide FindSub, Eat, Emit;
  }

  // With all of the rest of the body in the buffer, a move does not see what is behind.
  lemma StepMore(m: Machine, p: Place, boundary: string, x: string, items: seq<Item>) returns (p': Place)
    requires At(m, p, boundary, "", items) && !p.Done? && '\r' !in boundary && ContentsFit(p, boundary)
    ensures m.state <= 5 && m.buf != "" && Step(m, boundary).Go?
    ensures Step(More(m, x), boundary) == Go(More(Step(m, boundary).m, x))
    ensures At(Step(m, boundary).m, p', boundary, "", items) && ContentsFit(p', boundary)
  {
    hide TextAt, Received, GoodParts, InitialBoundary, HeaderLine, Body, Multipart.Boundary, Next, ContentsFit, Behind;
    NotOver(p, boundary);
    assert m.buf + "" == m.buf;
    FitsHere(p, boundary);
    p' := StepKeeps(m, p, boundary, "", items);
    NextFits(p, p', boundary);
    match p
    case Start(_) => StartMore(m, boundary, x);
    case Entry(_) =>
    case Headers(_, _, _) => LineMore(m, x);
    case Content(_, _) => BodyMore(m, p, boundary, x, items);
    case Boundary(_) => BoundaryMore(m, x);
  }

  // So the loop comes to the end, and gives up there.
  lemma {:induction false} DrainMore(m: Machine, p: Place, boundary: string, x: string, items: seq<Item>)
    requires At(m, p, boundary, "", items) && m.state <= 5 && '\r' !in boundary && ContentsFit(p, boundary)
    requires x != ""
    ensures var (ok, m') := Drain(More(m, x), boundary); !ok && !m'.valid
    decreases Measure(m)
  {
    hide Step, At, ContentsFit;
    if p.Done? {
      AtEnd(m, p, boundary, items);
      GivesUp(More(m, x), boundary);
    } else {
      StepUses(m, boundary);
      StepUses(More(m, x), boundary);
      var p' := StepMore(m, p, boundary, x, items);
      DrainMore(Step(m, boundary).m, p', boundary, x, items);
    }
  }

  lemma AtEnd(m: Machine, p: Place, boundary: string, items: seq<Item>)
    requires At(m, p, boundary, "", items) && p.Done?
    ensures m.state == 5
  {
  }

  lemma GivesUp(m: Machine, boundary: string)
    requires m.state == 5 && m.buf != ""
    ensures var (ok, m') := Drain(m, boundary); !ok && !m'.valid
  {
  }

  lemma {:induction false} EpilogueRefusedAt(
    m: Machine, p: Place, boundary: string, pieces: seq<string>, future: string, x: string, items: seq<Item>)
    requires At(m, p, boundary, future, items) && m.state <= 5 && '\r' !in boundary && ContentsFit(p, boundary)
    requires Concat(pieces) == future + x && x != ""
    ensures var (ok, m') := ParseAll(m, boundary, pieces); !ok && !m'.valid
    decreases |pieces|
  {
    hide At, ContentsFit, Drain;
    var first, rest := pieces[0], Concat(pieces[1..]);
    if |first| <= |future| {
      var left := future[|first|..];
      TakeFirst(first, rest, future, x);
      Arrive(m, p, boundary, first, left, items);
      var p' := DrainKeeps(m.(buf := m.buf + first), p, boundary, left, items);
      EpilogueRefusedAt(Parse(m, boundary, first).1, p', boundary, pieces[1..], left, x, items);
    } else {
      var y := first[|future|..];
      assert first == future + y by { TakeFirst(future, x, first, rest); }
      assert future + "" == future;
      Arrive(m, p, boundary, future, "", items);
      DrainMore(m.(buf := m.buf + future), p, boundary, y, items);
      Regroup(m.buf, future, y);
    }
  }

  // Two ways of cutting the same text.
  lemma TakeFirst(a: string, b: string, c: string, d: string)
    requires a + b == c + d && |a| <= |c|
    ensures c == a + c[|a|..] && b == c[|a|..] + d
  {
    assert (a + b)[..|a|] == a && (c + d)[..|a|] == c[..|a|];
    assert (a + b)[|a|..] == b && (c + d)[|a|..] == c[|a|..] + d;
  }

  // A body that goes on behind its end is not accepted, in any cutting.
  lemma EpilogueRefused(parts: seq<Part>, boundary: string, x: string, pieces: seq<string>)
    requires parts != [] && GoodParts(parts) && ItemsFit(ItemsOf(parts), boundary) && '\r' !in boundary
    requires Concat(pieces) == MessageText(parts, boundary) + x && x != ""
    ensures var (ok, m) := ParseAll(INIT, boundary, pieces); !ok && !m.valid
  {
    hide At, ContentsFit, ParseAll, MessageText, ItemsFit;
    StartsAt(parts, boundary);
    PartsFit(parts, boundary);
    EpilogueRefusedAt(INIT, Start(parts), boundary, pieces, MessageText(parts, boundary), x, ItemsOf(parts));
  }

  // Neither is one that breaks off anywhere.
  lemma BrokenOffRefused(parts: seq<Part>, boundary: string, future: string, pieces: seq<string>)
    requires parts != [] && GoodParts(parts) && ItemsFit(ItemsOf(parts), boundary) && '\r' !in boundary
    requires Concat(pieces) + future == MessageText(parts, boundary) && future != ""
    ensures var (ok, m) := ParseAll(INIT, boundary, pieces); ok && !m.valid
  {
    hide ParseAll, MessageText, ItemsFit, TextAt, Received, GoodParts, Behind, Unambiguous;
    StartsAt(parts, boundary);
    PartsFit(parts, boundary);
    var p := ParseAllKeeps(INIT, Start(parts), boundary, pieces, future, ItemsOf(parts));
    if p.Done? {
      DoneIsEmpty(ParseAll(INIT, boundary, pieces).1, p, boundary, future, ItemsOf(parts));
    }
  }
}
