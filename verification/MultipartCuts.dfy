// Where the parser stands in a body made of parts, and that every move
// keeps it there, whatever part of the rest has arrived.
module MultipartCuts {
  import opened Text
  import opened Multipart
  import opened MultipartHeaders
  import opened MultipartRoundTrip

  // A place in the body: what is still to be read there, and the parts behind it.
  datatype Place =
    | Start(rest: seq<Part>)
    | Entry(rest: seq<Part>)
    | Headers(lines: seq<string>, item: Item, rest: seq<Part>)
    | Content(c: string, rest: seq<Part>)
    | Boundary(rest: seq<Part>)
    | Done(rest: seq<Part>)

  predicate Sound(p: Place) {
    match p
    case Start(rest) => rest != []
    case Entry(rest) => rest != []
    case Headers(lines, _, _) => GoodLines(lines)
    case Content(_, _) => true
    case Boundary(_) => true
    case Done(rest) => rest == []
  }

  function TextAt(p: Place, boundary: string): string
    requires Sound(p)
  {
    match p
    case Start(rest) => "--" + boundary + CRLF + EntryText(rest, boundary)
    case Entry(rest) => EntryText(rest, boundary)
    case Headers(lines, item, rest) => HeadersText(lines, item, rest, boundary)
    case Content(c, rest) => ContentText(c, rest, boundary)
    case Boundary(rest) => AfterText(rest, boundary)
    case Done(_) => ""
  }

  function StateAt(p: Place): nat {
    match p
    case Start(_) => 0
    case Entry(_) => 1
    case Headers(_, _, _) => 2
    case Content(_, _) => 3
    case Boundary(_) => 4
    case Done(_) => 5
  }

  // What follows the part of the body that the parser reads at p.
  function Behind(p: Place, boundary: string): string
    requires Sound(p)
  {
    match p
    case Start(rest) => EntryText(rest, boundary)
    case Entry(rest) => EntryText(rest, boundary)
    case Headers(lines, item, rest) =>
      if lines == [] then ContentText(item.content, rest, boundary) else HeadersText(lines[1..], item, rest, boundary)
    case Content(c, rest) => AfterText(rest, boundary)
    case Boundary(rest) => if rest == [] then "" else EntryText(rest, boundary)
    case Done(_) => ""
  }

  // The contents that the parser still has to find the ends of are unambiguous.
  predicate ContentsFit(p: Place, boundary: string) {
    (forall i | 0 <= i < |p.rest| :: Unambiguous(p.rest[i].item.content, boundary)) &&
    (p.Headers? ==> Unambiguous(p.item.content, boundary)) && (p.Content? ==> Unambiguous(p.c, boundary))
  }

  // What has been received and what is still to be read make up the items.
  predicate Received(m: Machine, p: Place, items: seq<Item>) {
    match p
    case Headers(lines, item, rest) =>
      Fold(m.file, lines) == item.(content := "") && m.received + [item] + ItemsOf(rest) == items
    case Content(c, rest) =>
      m.received != [] && AddContent(m.received, c) + ItemsOf(rest) == items
    case _ => m.received + ItemsOf(p.rest) == items
  }

  // The parser stands at p, with future still to arrive.
  predicate At(m: Machine, p: Place, boundary: string, future: string, items: seq<Item>) {
    Sound(p) && m.buf + future == TextAt(p, boundary) && m.state == StateAt(p) &&
    (m.valid <==> p.Done?) && GoodParts(p.rest) && Received(m, p, items)
  }

  // A move in the loop leaves the parser at a place again; it waits only when a part
  // of what it reads there is to come, and never gives up.
  predicate Kept(move: Move, p: Place, boundary: string, future: string, items: seq<Item>) {
    match move
    case Go(m) => At(m, p, boundary, future, items)
    case Wait(m) => At(m, p, boundary, future, items) && |future| > |Behind(p, boundary)|
    case Reject(_) => false
  }

  // The places that follow p in the body.
  predicate Next(p: Place, p': Place, boundary: string) {
    match p
    case Start(rest) => p' == p || p' == Entry(rest)
    case Entry(rest) => rest != [] && p' == Headers(rest[0].lines, rest[0].item, rest[1..])
    case Headers(lines, item, rest) =>
      p' == p || p' == if lines == [] then Content(item.content, rest) else Headers(lines[1..], item, rest)
    case Content(_, rest) =>
      p' == Place.Boundary(rest) || (p'.Content? && p'.rest == rest && Unambiguous(p'.c, boundary))
    case Boundary(rest) => p' == p || p' == if rest == [] then Done([]) else Entry(rest)
    case Done(_) => false
  }

  // ---- one state at a time ----

  // buf is the start of t + rest, longer than t.
  lemma Split(buf: string, future: string, t: string, rest: string)
    requires buf + future == t + rest
    ensures |buf| >= |t| ==> buf[..|t|] == t && buf[|t|..] + future == rest
    ensures |buf| < |t| ==> buf == t[..|buf|] && |future| > |rest|
  {
    if |buf| >= |t| {
      assert (buf + future)[..|t|] == buf[..|t|];
      assert (buf + future)[|t|..] == buf[|t|..] + future;
      assert (t + rest)[..|t|] == t;
      assert (t + rest)[|t|..] == rest;
    } else {
      assert (buf + future)[..|buf|] == buf;
      assert (t + rest)[..|buf|] == t[..|buf|];
    }
  }

  lemma StartStep(m: Machine, p: Place, boundary: string, future: string, items: seq<Item>)
    returns (p': Place)
    requires At(m, p, boundary, future, items) && p.Start?
    ensures Kept(InitialBoundary(m, boundary), p', boundary, future, items) && Next(p, p', boundary)
  {
    hide EntryText, Unambiguous, GoodPart, GoodParts;
    var t := "--" + boundary + CRLF;
    Split(m.buf, future, t, EntryText(p.rest, boundary));
    if |m.buf| < |t| {
      p' := p;
    } else {
      assert Occurs(m.buf, t, 0);
      FindSubIs(m.buf, t, 0);
      p' := Entry(p.rest);
    }
  }

  lemma EntryStep(m: Machine, p: Place, boundary: string, future: string, items: seq<Item>)
    returns (p': Place)
    requires At(m, p, boundary, future, items) && p.Entry?
    ensures Kept(Go(m.(file := NO_FILE, state := 2)), p', boundary, future, items) && Next(p, p', boundary)
  {
    hide HeadersText, Unambiguous, Fold;
    var part := p.rest[0];
    assert GoodPart(part);
    assert m.received + [part.item] + ItemsOf(p.rest[1..]) == m.received + ItemsOf(p.rest);
    p' := Headers(part.lines, part.item, p.rest[1..]);
  }

  lemma BlankLineStep(m: Machine, p: Place, boundary: string, future: string, items: seq<Item>)
    returns (p': Place)
    requires At(m, p, boundary, future, items) && p.Headers? && p.lines == []
    ensures Kept(HeaderLine(m), p', boundary, future, items) && Next(p, p', boundary)
  {
    hide ContentText, Unambiguous, GoodPart, GoodParts, Header, FindSub;
    var rest := ContentText(p.item.content, p.rest, boundary);
    assert LinesText(p.lines) + (CRLF + rest) == "" + (CRLF + rest);
    LineEnd(m.buf, future, "", rest);
    p' := if |m.buf| < 2 then p else Content(p.item.content, p.rest);
    var r := m.received + [m.file.(content := "")];
    assert r[..|r| - 1] == m.received && "" + p.item.content == p.item.content;
  }

  lemma FullLineStep(m: Machine, p: Place, boundary: string, future: string, items: seq<Item>)
    returns (p': Place)
    requires At(m, p, boundary, future, items) && p.Headers? && p.lines != []
    ensures Kept(HeaderLine(m), p', boundary, future, items) && Next(p, p', boundary)
  {
    hide HeadersText, Unambiguous, GoodPart, GoodParts, Header, FindSub;
    var line, lines := p.lines[0], p.lines[1..];
    var rest := HeadersText(lines, p.item, p.rest, boundary);
    FirstOfLines(p.lines, p.item, p.rest, boundary);
    LineEnd(m.buf, future, line, rest);
    FoldStep(m.file, p.lines);
    assert line in p.lines;
    if |m.buf| < |line| + 2 {
      p' := p;
      assert HeaderLine(m) == Wait(m) && |future| > |rest|;
    } else {
      p' := Headers(lines, p.item, p.rest);
      var m' := Eat(m, |line| + 2).(file := Header(m.file, line));
      assert HeaderLine(m) == Go(m') && m'.buf + future == rest;
      TailSound(p.lines, p.item, p.rest);
      hide Fold, HeaderLine, Sound;
      assert Received(m', p', items) && TextAt(p', boundary) == rest;
    }
  }

  lemma TailSound(lines: seq<string>, item: Item, rest: seq<Part>)
    requires lines != [] && Sound(Headers(lines, item, rest))
    ensures Sound(Headers(lines[1..], item, rest))
  {
    var tail := lines[1..];
    forall line | line in tail
      ensures line in lines
    {
      var i :| 0 <= i < |tail| && tail[i] == line;
      assert lines[i + 1] == line;
    }
  }

  lemma FoldStep(file: Item, lines: seq<string>)
    requires lines != []
    ensures Fold(file, lines) == Fold(Header(file, lines[0]), lines[1..])
  {
    hide Header;
  }

  lemma FirstOfLines(lines: seq<string>, item: Item, rest: seq<Part>, boundary: string)
    requires lines != []
    ensures HeadersText(lines, item, rest, boundary) ==
            lines[0] + (CRLF + HeadersText(lines[1..], item, rest, boundary))
  {
    hide ContentText;
    Regroup3(lines[0], CRLF, LinesText(lines[1..]), CRLF + ContentText(item.content, rest, boundary));
  }

  lemma Regroup3(a: string, b: string, c: string, d: string)
    ensures a + (b + c) + d == a + (b + (c + d))
  {
  }

  // Whether the line end has arrived.
  lemma LineEnd(buf: string, future: string, line: string, rest: string)
    requires buf + future == line + (CRLF + rest) && '\r' !in line
    ensures FindSub(buf, CRLF) == if |buf| < |line| + 2 then |buf| else |line|
    ensures |buf| >= |line| + 2 ==> buf[..|line|] == line && buf[|line| + 2..] + future == rest
    ensures |buf| < |line| + 2 ==> |future| > |rest|
  {
    hide FindSub, Occurs;
    if |buf| < |line| + 2 {
      Regroup(line, CRLF, rest);
      Split(buf, future, line + CRLF, rest);
      NoLineEnd(buf, line, |buf|);
      FindSubIs(buf, CRLF, |buf|);
    } else {
      DelimiterHere(buf, future, line, CRLF, rest);
      NoLineEnd(buf, line, |line|);
      FindSubIs(buf, CRLF, |line|);
    }
  }

  lemma NoLineEnd(buf: string, line: string, n: nat)
    requires '\r' !in line && n <= |buf| && (n <= |line| || (n == |buf| == |line| + 1))
    requires forall k | 0 <= k < n && k < |line| :: buf[k] == line[k]
    ensures forall k: nat | k < n :: !Occurs(buf, CRLF, k)
  {
    forall k: nat | k < n
      ensures !Occurs(buf, CRLF, k)
    {
      if k + 2 <= |buf| {
        assert buf[k..k + 2][0] == buf[k] == line[k];
      }
    }
  }

  lemma BoundaryStep(m: Machine, p: Place, boundary: string, future: string, items: seq<Item>)
    returns (p': Place)
    requires At(m, p, boundary, future, items) && p.Boundary?
    ensures Kept(Multipart.Boundary(m), p', boundary, future, items) && Next(p, p', boundary)
  {
    hide EntryText, Unambiguous, GoodPart, GoodParts;
    if p.rest == [] {
      assert "--" + CRLF == ("--" + CRLF) + "";
      Split(m.buf, future, "--" + CRLF, "");
      assert |m.buf| >= 2 ==> m.buf[..2][0] == m.buf[0] == '-';
      p' := if |m.buf| < 4 then p else Done([]);
    } else {
      Split(m.buf, future, CRLF, EntryText(p.rest, boundary));
      p' := if |m.buf| < 2 then p else Entry(p.rest);
    }
  }

  // ---- content ----

  // A carriage return stands at the start of p only, so p cannot run over one.
  lemma NoStraddle(s: string, p: string, k: nat, e: nat)
    requires p != "" && '\r' !in p[1..] && k < e < |s| && s[e] == '\r' && e < k + |p|
    ensures !Occurs(s, p, k)
  {
    assert p[1..][e - k - 1] == p[e - k];
    if k + |p| <= |s| {
      assert s[k..k + |p|][e - k] == s[e];
    }
  }

  // So what stands in the content and its delimiter, and starts in the content,
  // stands in the content.
  lemma InsideContent(buf: string, future: string, c: string, tail: string, p: string, k: nat)
    requires buf + future == c + tail && tail != "" && tail[0] == '\r'
    requires p != "" && '\r' !in p[1..] && k < |c|
    ensures Occurs(buf, p, k) ==> Occurs(c, p, k)
  {
    if |c| < |buf| && |c| < k + |p| {
      assert buf[|c|] == (buf + future)[|c|] == (c + tail)[|c|] == '\r';
      NoStraddle(buf, p, k, |c|);
    } else if k + |p| <= |buf| {
      assert c[k..k + |p|] == (c + tail)[k..k + |p|] == (buf + future)[k..k + |p|] == buf[k..k + |p|];
    }
  }

  // Content stays unambiguous up to the first CRLF-dash-dash.
  lemma StillFits(c: string, boundary: string, k: nat)
    requires Unambiguous(c, boundary) && k <= FindSub(c, DASHES)
    ensures Unambiguous(c[k..], boundary)
  {
    hide FindSub, Dash;
    var n, width := FindSub(c, DASHES), |Dash(boundary)|;
    DashLater(c, boundary);
    FindSubDrop(c, Dash(boundary), k);
    FindSubDrop(c, DASHES, k);
    if n < |c| {
      assert c[k..][n - k + width..] == c[n + width..];
    }
  }

  lemma FitsUnfold(c: string, width: nat)
    requires Fits(c, width) && c != "" && FindSub(c, DASHES) == 0
    ensures width <= |c| && Fits(c[width..], width)
  {
    hide FindSub;
    assert c[0 + width..] == c[width..];
  }

  // And behind the width that the parser takes from there.
  lemma FitsBehind(c: string, boundary: string)
    requires Unambiguous(c, boundary) && c != "" && FindSub(c, DASHES) == 0
    ensures |Dash(boundary)| <= |c| && Unambiguous(c[|Dash(boundary)|..], boundary)
  {
    var width := |Dash(boundary)|;
    FitsUnfold(c, width);
    NoDelimiter(c, boundary);
    hide FindSub, Dash, Fits;
    FindSubDrop(c, Dash(boundary), width);
  }

  lemma DashLater(c: string, boundary: string)
    ensures FindSub(c, DASHES) <= FindSub(c, Dash(boundary))
  {
    hide FindSub;
    var n := FindSub(c, Dash(boundary));
    if n < FindSub(c, DASHES) {
      FindSubFirst(c, DASHES, n);
      OccursStart(c, DASHES, boundary, n);
    }
  }

  // The first search stops in the content, at its first CRLF-dash-dash at the latest.
  lemma SearchStops(buf: string, future: string, c: string, tail: string)
    requires buf + future == c + (DASHES + tail)
    ensures FindString(buf, DASHES) <= FindSub(c, DASHES)
  {
    hide FindString, FindSub;
    var n := FindSub(c, DASHES);
    DashesAt(buf, future, c, tail, n);
    if n < FindString(buf, DASHES) {
      FindStringFirst(buf, DASHES, n);
    }
  }

  lemma DashesAt(buf: string, future: string, c: string, tail: string, n: nat)
    requires buf + future == c + (DASHES + tail)
    requires n == |c| || Occurs(c, DASHES, n)
    ensures n < |buf| ==> buf[n] == DASHES[0] && (|buf| - n < 4 || Occurs(buf, DASHES, n))
  {
    var all := c + (DASHES + tail);
    assert all[n..n + 4] == DASHES;
    if n < |buf| {
      assert buf[n] == (buf + future)[n] == all[n..n + 4][0];
      if n + 4 <= |buf| {
        assert buf[n..n + 4] == (buf + future)[n..n + 4];
      }
    }
  }

  lemma AddTwice(items: seq<Item>, a: string, b: string)
    ensures AddContent(AddContent(items, a), b) == AddContent(items, a + b)
  {
    if items != [] {
      var once := AddContent(items, a);
      assert once[..|once| - 1] == items[..|items| - 1];
      Regroup(items[|items| - 1].content, a, b);
    }
  }

  // Passing on a part of the content leaves the parser in it.
  lemma EmitStays(m: Machine, p: Place, boundary: string, future: string, items: seq<Item>, n: nat)
    requires At(m, p, boundary, future, items) && p.Content?
    requires n <= |m.buf| && n <= |p.c|
    ensures At(Emit(m, n), Content(p.c[n..], p.rest), boundary, future, items)
  {
    hide AfterText, Unambiguous, GoodPart, GoodParts, AddContent, Dash;
    var tail := Dash(boundary) + AfterText(p.rest, boundary);
    assert p.c == p.c[..n] + p.c[n..];
    Regroup(p.c[..n], p.c[n..], tail);
    Split(m.buf, future, p.c[..n], p.c[n..] + tail);
    AddTwice(m.received, m.buf[..n], p.c[n..]);
    AddKeepsSome(m.received, m.buf[..n]);
  }

  lemma AddKeepsSome(items: seq<Item>, data: string)
    ensures AddContent(items, data) != [] <==> items != []
  {
  }

  // The delimiter behind the content has arrived or not.
  lemma DelimiterPlace(buf: string, future: string, c: string, d: string, rest: string)
    requires buf + future == c + (d + rest)
    requires d != "" && d[0] == '\r' && '\r' !in d[1..] && FindSub(c, d) == |c|
    ensures |buf| < |c| + |d| ==> FindSub(buf, d) == |buf|
    ensures |buf| >= |c| + |d| ==> FindSub(buf, d) == |c|
    ensures |buf| >= |c| + |d| ==> buf[..|c|] == c && buf[|c| + |d|..] + future == rest
  {
    hide FindSub, Occurs;
    forall k: nat | k < |c| || |buf| < |c| + |d|
      ensures !Occurs(buf, d, k)
    {
      NotInContent(buf, future, c, d, rest, k);
    }
    if |buf| < |c| + |d| {
      FindSubIs(buf, d, |buf|);
    } else {
      DelimiterHere(buf, future, c, d, rest);
      FindSubIs(buf, d, |c|);
    }
  }

  lemma NotInContent(buf: string, future: string, c: string, d: string, rest: string, k: nat)
    requires buf + future == c + (d + rest)
    requires d != "" && d[0] == '\r' && '\r' !in d[1..] && FindSub(c, d) == |c|
    requires k < |c| || |buf| < |c| + |d|
    ensures !Occurs(buf, d, k)
  {
    hide FindSub;
    if k < |c| {
      InsideContent(buf, future, c, d + rest, d, k);
      FindSubFirst(c, d, k);
    }
  }

  lemma DelimiterHere(buf: string, future: string, c: string, d: string, rest: string)
    requires buf + future == c + (d + rest) && |buf| >= |c| + |d|
    ensures Occurs(buf, d, |c|) && buf[..|c|] == c && buf[|c| + |d|..] + future == rest
  {
    Split(buf, future, c, d + rest);
    Split(buf[|c|..], future, d, rest);
    assert buf[|c|..|c| + |d|] == buf[|c|..][..|d|];
    assert buf[|c|..][|d|..] == buf[|c| + |d|..];
  }

  // With less than the delimiter behind it, the content starts with CRLF and two
  // dashes as the buffer does.
  lemma DashesInContent(buf: string, future: string, c: string, tail: string)
    requires buf + future == c + tail && tail != "" && tail[0] == '\r'
    requires Occurs(buf, DASHES, 0) && c != ""
    ensures FindSub(c, DASHES) == 0
  {
    hide FindSub;
    assert DASHES[1..] == "\n--";
    InsideContent(buf, future, c, tail, DASHES, 0);
    FindSubIs(c, DASHES, 0);
  }

  lemma DelimiterStep(m: Machine, p: Place, boundary: string, future: string, items: seq<Item>)
    returns (p': Place)
    requires At(m, p, boundary, future, items) && p.Content? && '\r' !in boundary
    requires Unambiguous(p.c, boundary)
    requires |m.buf| < 4 || Occurs(m.buf, DASHES, 0)
    ensures Kept(Delimiter(m, boundary), p', boundary, future, items) && Next(p, p', boundary)
  {
    hide AfterText, Unambiguous, GoodPart, GoodParts, AddContent, FindSub, Dash;
    var d, rest, c := Dash(boundary), AfterText(p.rest, boundary), p.c;
    DashShape(boundary);
    NoDelimiter(c, boundary);
    if |m.buf| < |d| {
      Regroup(c, d, rest);
      Split(m.buf, future, c + d, rest);
      p' := p;
    } else {
      DelimiterPlace(m.buf, future, c, d, rest);
      if |m.buf| >= |c| + |d| {
        assert m.buf[|c|..][|d|..] == m.buf[|c| + |d|..];
        p' := Place.Boundary(p.rest);
      } else {
        DashesInContent(m.buf, future, c, d + rest);
        FitsBehind(c, boundary);
        EmitStays(m, p, boundary, future, items, |d|);
        p' := Content(c[|d|..], p.rest);
      }
    }
  }

  lemma DashShape(boundary: string)
    requires '\r' !in boundary
    ensures var d := Dash(boundary); |d| >= 4 && d[0] == '\r' && '\r' !in d[1..]
    ensures CRLF + "--" + boundary == Dash(boundary)
  {
    assert Dash(boundary)[1..] == "\n--" + boundary;
  }

  lemma NoDelimiter(c: string, boundary: string)
    requires Unambiguous(c, boundary)
    ensures FindSub(c, Dash(boundary)) == |c|
  {
  }

  lemma BodyStep(m: Machine, p: Place, boundary: string, future: string, items: seq<Item>)
    returns (p': Place)
    requires At(m, p, boundary, future, items) && p.Content? && '\r' !in boundary
    requires Unambiguous(p.c, boundary)
    ensures Kept(Body(m, boundary), p', boundary, future, items) && Next(p, p', boundary)
  {
    hide AfterText, Unambiguous, GoodPart, GoodParts, AddContent, FindSub, Delimiter;
    if |m.buf| < 4 {
      AfterIsLong(p.rest, boundary);
      p' := p;
    } else {
      var tail := boundary + AfterText(p.rest, boundary);
      Regroup(DASHES, boundary, AfterText(p.rest, boundary));
      SearchStops(m.buf, future, p.c, tail);
      var n := FindString(m.buf, DASHES);
      StillFits(p.c, boundary, n);
      EmitStays(m, p, boundary, future, items, n);
      DashesNext(m.buf);
      p' := DelimiterStep(Emit(m, n), Content(p.c[n..], p.rest), boundary, future, items);
    }
  }

  lemma AfterIsLong(rest: seq<Part>, boundary: string)
    ensures |AfterText(rest, boundary)| > 0
  {
    hide EntryText;
  }

  lemma DashesNext(buf: string)
    ensures var n := FindString(buf, DASHES); |buf[n..]| < 4 || Occurs(buf[n..], DASHES, 0)
  {
  }

  // Every move in the loop of parse keeps the parser at a place of the body.
  lemma StepKeeps(m: Machine, p: Place, boundary: string, future: string, items: seq<Item>)
    returns (p': Place)
    requires At(m, p, boundary, future, items) && m.buf != "" && '\r' !in boundary
    requires p.Content? ==> Unambiguous(p.c, boundary)
    ensures m.state <= 5 && Kept(Step(m, boundary), p', boundary, future, items) && Next(p, p', boundary)
  {
    hide TextAt, Received, GoodParts, InitialBoundary, HeaderLine, Body, Multipart.Boundary, Next, Behind;
    match p
    case Start(_) => p' := StartStep(m, p, boundary, future, items);
    case Entry(_) => p' := EntryStep(m, p, boundary, future, items);
    case Headers(lines, _, _) =>
      if lines == [] {
        p' := BlankLineStep(m, p, boundary, future, items);
      } else {
        p' := FullLineStep(m, p, boundary, future, items);
      }
    case Content(_, _) => p' := BodyStep(m, p, boundary, future, items);
    case Boundary(_) => p' := BoundaryStep(m, p, boundary, future, items);
    case Done(_) => DoneIsEmpty(m, p, boundary, future, items);
  }

  lemma DoneIsEmpty(m: Machine, p: Place, boundary: string, future: string, items: seq<Item>)
    requires At(m, p, boundary, future, items) && p.Done?
    ensures m.buf == "" && future == ""
  {
  }

  lemma NextFits(p: Place, p': Place, boundary: string)
    requires ContentsFit(p, boundary) && Next(p, p', boundary)
    ensures ContentsFit(p', boundary)
  {
    hide Unambiguous;
  }

  // The parser is not in the middle of something that it could go on with.
  predicate Stopped(m: Machine, p: Place, boundary: string, future: string) {
    Sound(p) && (m.buf == "" || |future| > |Behind(p, boundary)|) &&
    (m.state == 3 ==> |m.buf| < |Dash(boundary)|)
  }

  lemma WaitsShort(m: Machine, boundary: string)
    requires m.state <= 5
    ensures Step(m, boundary).Wait? && Step(m, boundary).m.state == 3 ==>
              |Step(m, boundary).m.buf| < |Dash(boundary)|
  {
    hide FindString, FindSub, AddContent, Header;
  }

  // So does the loop, which ends where the parser has to stop.
  lemma {:induction false} DrainKeeps(m: Machine, p: Place, boundary: string, future: string, items: seq<Item>)
    returns (p': Place)
    requires At(m, p, boundary, future, items) && m.state <= 5 && '\r' !in boundary
    requires ContentsFit(p, boundary)
    ensures var (ok, m') := Drain(m, boundary);
            ok && At(m', p', boundary, future, items) && Stopped(m', p', boundary, future)
    ensures ContentsFit(p', boundary)
    decreases Measure(m)
  {
    hide Step, At, ContentsFit, Next, Behind, Stopped;
    WaitsShort(m, boundary);
    StopsAt(m, p, boundary, future, items);
    if m.buf == "" {
      p' := p;
    } else {
      StepUses(m, boundary);
      FitsHere(p, boundary);
      p' := StepKeeps(m, p, boundary, future, items);
      NextFits(p, p', boundary);
      StopsAt(Step(m, boundary).m, p', boundary, future, items);
      if Step(m, boundary).Go? {
        p' := DrainKeeps(Step(m, boundary).m, p', boundary, future, items);
      }
    }
  }

  lemma StopsAt(m: Machine, p: Place, boundary: string, future: string, items: seq<Item>)
    ensures At(m, p, boundary, future, items) ==> Sound(p)
    ensures Sound(p) && m.buf == "" ==> Stopped(m, p, boundary, future)
    ensures Sound(p) && |future| > |Behind(p, boundary)| && (m.state == 3 ==> |m.buf| < |Dash(boundary)|) ==>
              Stopped(m, p, boundary, future)
  {
  }

  lemma FitsHere(p: Place, boundary: string)
    requires ContentsFit(p, boundary)
    ensures p.Content? ==> Unambiguous(p.c, boundary)
  {
  }
}
