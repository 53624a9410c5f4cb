// The items come out of the parser as they went into the body, in every cutting of it,
// exactly when all contents are unambiguous.
module MultipartExact {
  import opened Cutting
  import opened Text
  import opened Multipart
  import opened MultipartHeaders
  import opened MultipartRoundTrip
  import opened MultipartCuts
  import opened MultipartRuns

  // ---- where a content is ambiguous ----

  // The first CRLF-dash-dash, as the parser goes from one to the next, that has a
  // delimiter or the end of the content within the width of a delimiter.
  function MisfitAt(c: string, boundary: string): nat
    decreases |c|
  {
    var k := FindSub(c, DASHES) + |Dash(boundary)|;
    if FindSub(c, Dash(boundary)) < k then FindSub(c, DASHES) else k + MisfitAt(c[k..], boundary)
  }

  lemma MisfitBehind(c: string, boundary: string)
    requires !Unambiguous(c, boundary)
    requires FindSub(c, Dash(boundary)) >= FindSub(c, DASHES) + |Dash(boundary)|
    ensures var k := FindSub(c, DASHES) + |Dash(boundary)|; k <= |c| && !Unambiguous(c[k..], boundary)
  {
    hide FindSub, Dash, Fits, Unambiguous;
    var d, k := Dash(boundary), FindSub(c, DASHES) + |Dash(boundary)|;
    var rest := c[k..];
    FindSubDrop(c, d, k);
    WindowFits(c, |d|);
    Parts(c, boundary);
    Parts(rest, boundary);
  }

  lemma Parts(c: string, boundary: string)
    ensures Unambiguous(c, boundary) <==> FindSub(c, Dash(boundary)) == |c| && Fits(c, |Dash(boundary)|)
  {
  }

  lemma WindowFits(c: string, width: nat)
    requires width > 0 && FindSub(c, DASHES) + width <= |c|
    ensures Fits(c, width) <==> Fits(c[FindSub(c, DASHES) + width..], width)
  {
    hide FindSub;
  }

  // Up to there the content is unambiguous.
  lemma {:induction false} MisfitParts(c: string, boundary: string)
    requires !Unambiguous(c, boundary)
    ensures var k, q := MisfitAt(c, boundary), FindSub(c, Dash(boundary));
            k <= q < k + |Dash(boundary)| && Occurs(c, DASHES, k) && Unambiguous(c[..k], boundary)
    decreases |c|
  {
    hide FindSub, Dash, Occurs, Fits;
    var n, d, q := FindSub(c, DASHES), Dash(boundary), FindSub(c, Dash(boundary));
    if q < n + |d| {
      DashLater(c, boundary);
      MisfitHere(c, boundary);
      NothingBefore(c, DASHES, n);
      WithoutDashes(c[..n], boundary);
    } else {
      var w := n + |d|;
      MisfitBehind(c, boundary);
      MisfitParts(c[w..], boundary);
      FindSubDrop(c, d, w);
      var k := MisfitAt(c[w..], boundary);
      NothingBefore(c, d, w + k);
      FitsTogether(c, |d|, k);
      OccursBehind(c, DASHES, w, k);
    }
  }

  lemma MisfitHere(c: string, boundary: string)
    requires !Unambiguous(c, boundary) && FindSub(c, Dash(boundary)) < FindSub(c, DASHES) + |Dash(boundary)|
    ensures FindSub(c, DASHES) < |c| && Occurs(c, DASHES, FindSub(c, DASHES))
  {
    hide FindSub, Dash;
    DashLater(c, boundary);
  }

  // No p stands in what comes before the first one.
  lemma NothingBefore(s: string, p: string, k: nat)
    requires p != "" && k <= FindSub(s, p)
    ensures FindSub(s[..k], p) == k
  {
    hide FindSub;
    forall i: nat | i < k
      ensures !Occurs(s[..k], p, i)
    {
      FindSubFirst(s, p, i);
      OccursInPrefix(s, p, k, i);
    }
    FindSubIs(s[..k], p, k);
  }

  lemma OccursInPrefix(s: string, p: string, k: nat, i: nat)
    requires k <= |s|
    ensures Occurs(s[..k], p, i) ==> Occurs(s, p, i)
    ensures Occurs(s, p, i) && i + |p| <= k ==> Occurs(s[..k], p, i)
  {
    if i + |p| <= k {
      assert s[..k][i..i + |p|] == s[i..i + |p|];
    }
  }

  lemma OccursBehind(s: string, p: string, w: nat, i: nat)
    requires w <= |s|
    ensures Occurs(s[w..], p, i) <==> Occurs(s, p, w + i)
  {
    if w + i + |p| <= |s| {
      assert s[w..][i..i + |p|] == s[w + i..w + i + |p|];
    }
  }

  // A first window of c, and what fits behind it.
  lemma FitsTogether(c: string, width: nat, k: nat)
    requires var w := FindSub(c, DASHES) + width; 4 <= width && w + k <= |c| && Fits(c[w..][..k], width)
    ensures Fits(c[..FindSub(c, DASHES) + width + k], width)
  {
    hide FindSub, Occurs;
    var n := FindSub(c, DASHES);
    var y := c[..n + width + k];
    OccursInPrefix(c, DASHES, n + width + k, n);
    forall i: nat | i < n
      ensures !Occurs(y, DASHES, i)
    {
      FindSubFirst(c, DASHES, i);
      OccursInPrefix(c, DASHES, n + width + k, i);
    }
    FirstOccurs(c, DASHES);
    FindSubIs(y, DASHES, n);
    assert y[n + width..] == c[n + width..][..k];
  }

  lemma FirstOccurs(s: string, p: string)
    requires p != "" && FindSub(s, p) < |s|
    ensures Occurs(s, p, FindSub(s, p))
  {
  }

  // ---- up to there, in any cutting ----

  // What stands between the first boundary and the content of part j.
  function LeadText(parts: seq<Part>, j: nat, boundary: string): string
    requires j < |parts|
  {
    var before :=
      if j == 0 then "" else parts[0].item.content + (Dash(boundary) + LeadText(parts[1..], j - 1, boundary));
    CRLF + (LinesText(parts[0].lines) + (CRLF + before))
  }

  lemma {:induction false} Leading(parts: seq<Part>, j: nat, boundary: string)
    requires j < |parts|
    ensures AfterText(parts, boundary) ==
            LeadText(parts, j, boundary) + ContentText(parts[j].item.content, parts[j + 1..], boundary)
    decreases j
  {
    hide LinesText, Dash, ContentText;
    var lines := LinesText(parts[0].lines);
    AfterParts(parts, boundary);
    if j == 0 {
      var content := ContentText(parts[0].item.content, parts[1..], boundary);
      assert parts[0..] == parts && LeadText(parts, 0, boundary) == CRLF + (lines + (CRLF + ""));
      assert CRLF + (lines + (CRLF + content)) == CRLF + (lines + (CRLF + "")) + content;
    } else {
      var rest := parts[1..];
      ContentParts(parts[0].item.content, rest, boundary);
      Leading(rest, j - 1, boundary);
      assert parts[j + 1..] == rest[j..];
      var lead := LeadText(rest, j - 1, boundary);
      var content := ContentText(parts[j].item.content, parts[j + 1..], boundary);
      Append4(lines, parts[0].item.content, Dash(boundary), lead, content);
    }
  }

  lemma AfterParts(parts: seq<Part>, boundary: string)
    requires parts != []
    ensures AfterText(parts, boundary) ==
            CRLF + (LinesText(parts[0].lines) + (CRLF + ContentText(parts[0].item.content, parts[1..], boundary)))
  {
    hide LinesText;
    var lines, item, rest := parts[0].lines, parts[0].item, parts[1..];
    assert EntryText(parts, boundary) == HeadersText(lines, item, rest, boundary);
    assert HeadersText(lines, item, rest, boundary) ==
           LinesText(lines) + (CRLF + ContentText(item.content, rest, boundary));
  }

  lemma ContentParts(c: string, rest: seq<Part>, boundary: string)
    ensures ContentText(c, rest, boundary) == c + (Dash(boundary) + AfterText(rest, boundary))
  {
    hide AfterText;
  }

  lemma Append4(l: string, c: string, d: string, t: string, x: string)
    ensures CRLF + (l + (CRLF + (c + (d + (t + x))))) == CRLF + (l + (CRLF + (c + (d + t)))) + x
  {
    Regroup(d, t, x);
    Regroup(c, d + t, x);
    Regroup(CRLF, c + (d + t), x);
    Regroup(l, CRLF + (c + (d + t)), x);
    Regroup(CRLF, l + (CRLF + (c + (d + t))), x);
  }

  lemma {:induction false} LeadSame(parts: seq<Part>, other: seq<Part>, j: nat, boundary: string)
    requires j < |parts| && j < |other| && parts[..j] == other[..j] && parts[j].lines == other[j].lines
    ensures LeadText(parts, j, boundary) == LeadText(other, j, boundary)
    decreases j
  {
    hide LinesText;
    if j > 0 {
      assert parts[0] == parts[..j][0] == other[0];
      assert parts[1..][..j - 1] == parts[..j][1..] == other[1..][..j - 1];
      LeadSame(parts[1..], other[1..], j - 1, boundary);
    }
  }

  // The parts up to part j, whose content ends after k bytes.
  function Shortened(parts: seq<Part>, j: nat, k: nat): seq<Part>
    requires j < |parts| && k <= |parts[j].item.content|
  {
    parts[..j] + [Part(parts[j].lines, parts[j].item.(content := parts[j].item.content[..k]))]
  }

  // How many bytes of the body come before byte k of the content of part j.
  function Position(parts: seq<Part>, j: nat, k: nat, boundary: string): nat
    requires j < |parts| && k <= |parts[j].item.content|
  {
    2 + |boundary| + |LeadText(parts, j, boundary)| + k
  }

  // The same bytes start the body of the shortened parts; a delimiter and the end of
  // the body follow there.
  lemma SameStart(parts: seq<Part>, j: nat, k: nat, boundary: string)
    requires j < |parts| && k <= |parts[j].item.content|
    ensures var n, tail := Position(parts, j, k, boundary), Dash(boundary) + AfterText([], boundary);
            && n <= |MessageText(parts, boundary)|
            && MessageText(parts, boundary)[..n] + tail == MessageText(Shortened(parts, j, k), boundary)
            && MessageText(parts, boundary)[n..] ==
               parts[j].item.content[k..] + (Dash(boundary) + AfterText(parts[j + 1..], boundary))
  {
    hide AfterText, LeadText, Dash;
    var short, c := Shortened(parts, j, k), parts[j].item.content;
    var start, lead := "--" + boundary, LeadText(parts, j, boundary);
    Leading(parts, j, boundary);
    Leading(short, j, boundary);
    LeadSame(parts, short, j, boundary);
    assert short[j + 1..] == [];
    SplitAt(start, lead, c, k, Dash(boundary) + AfterText(parts[j + 1..], boundary),
            Dash(boundary) + AfterText([], boundary));
  }

  lemma SplitAt(start: string, lead: string, c: string, k: nat, x: string, y: string)
    requires k <= |c|
    ensures var all, n := start + (lead + (c + x)), |start| + |lead| + k;
            n <= |all| && all[..n] + y == start + (lead + (c[..k] + y)) && all[n..] == c[k..] + x
  {
    var all, head := start + (lead + (c + x)), start + (lead + c[..k]);
    assert c == c[..k] + c[k..];
    assert all == head + (c[k..] + x);
    assert all[..|head|] == head && all[|head|..] == c[k..] + x;
  }

  // ---- the parser there ----

  // In any cutting of those bytes, the parser has passed on the content up to there,
  // but for less than the width of a delimiter, which it holds.
  predicate Holding(m: Machine, parts: seq<Part>, j: nat, k: nat, boundary: string)
    requires j < |parts| && k <= |parts[j].item.content|
  {
    && m.state == 3 && |m.received| == j + 1 && |m.buf| < |Dash(boundary)| && FindSub(m.buf, DASHES) == |m.buf|
    && m.received[j].content + m.buf == parts[j].item.content[..k]
  }

  predicate PartsUnambiguous(parts: seq<Part>, boundary: string) {
    forall i | 0 <= i < |parts| :: Unambiguous(parts[i].item.content, boundary)
  }

  lemma ComesTo(parts: seq<Part>, j: nat, k: nat, boundary: string, pieces: seq<string>)
    requires j < |parts| && k <= |parts[j].item.content| && GoodParts(parts) && '\r' !in boundary
    requires PartsUnambiguous(parts[..j], boundary) && Unambiguous(parts[j].item.content[..k], boundary)
    requires var n := Position(parts, j, k, boundary);
             n <= |MessageText(parts, boundary)| && Concat(pieces) == MessageText(parts, boundary)[..n]
    ensures var (ok, m) := ParseAll(INIT, boundary, pieces);
            ok && m.state <= 5 && Holding(m, parts, j, k, boundary)
  {
    hide ParseAll, MessageText, AfterText, Position, At, Stopped, ContentsFit, GoodParts, Holding, PartsUnambiguous;
    var short, future := Shortened(parts, j, k), Dash(boundary) + AfterText([], boundary);
    SameStart(parts, j, k, boundary);
    ShortenedFits(parts, j, k, boundary);
    StartsAt(short, boundary);
    StopsAt(INIT, Start(short), boundary, MessageText(short, boundary), ItemsOf(short));
    var p := ParseAllKeeps(INIT, Start(short), boundary, pieces, future, ItemsOf(short));
    var m := ParseAll(INIT, boundary, pieces).1;
    Arrived(m, p, boundary, ItemsOf(short));
    Held(m, parts, j, k, boundary);
  }

  lemma ShortenedFits(parts: seq<Part>, j: nat, k: nat, boundary: string)
    requires j < |parts| && k <= |parts[j].item.content| && GoodParts(parts)
    requires PartsUnambiguous(parts[..j], boundary) && Unambiguous(parts[j].item.content[..k], boundary)
    ensures var short := Shortened(parts, j, k); GoodParts(short) && ContentsFit(Start(short), boundary)
  {
    hide Unambiguous, Fold;
    var short := Shortened(parts, j, k);
    forall i | 0 <= i < |short|
      ensures GoodPart(short[i]) && Unambiguous(short[i].item.content, boundary)
    {
      assert GoodPart(parts[i]);
      if i < j {
        assert short[i] == parts[..j][i];
      }
    }
  }

  // Every place before the content of the last item has more behind it than a
  // delimiter and the end of the body.
  lemma PlaceIsFar(p: Place, boundary: string)
    requires Sound(p) && (p.rest != [] || p.Headers?)
    ensures var end := Dash(boundary) + AfterText([], boundary);
            |Behind(p, boundary)| >= |end| && |TextAt(p, boundary)| > |end|
  {
    hide HeadersText, ContentText, AfterText, EntryText;
    if p.rest != [] {
      EntryIsFar(p.rest, boundary);
    }
    match p
    case Headers(lines, item, rest) =>
      Lengths(lines, item, rest, boundary);
      if lines != [] {
        Lengths(lines[1..], item, rest, boundary);
      }
      if rest == [] {
        ContentIsFar(item.content, boundary);
      }
    case Content(c, rest) => Lengths([], Item("", "", "", c), rest, boundary);
    case Boundary(rest) => Lengths([], NO_FILE, rest, boundary);
    case _ =>
  }

  lemma ContentIsFar(c: string, boundary: string)
    ensures |ContentText(c, [], boundary)| >= |Dash(boundary) + AfterText([], boundary)|
  {
  }

  lemma {:induction false} EntryIsFar(rest: seq<Part>, boundary: string)
    requires rest != []
    ensures |EntryText(rest, boundary)| > |Dash(boundary) + AfterText([], boundary)|
    decreases |rest|
  {
    hide HeadersText, ContentText, AfterText;
    Lengths(rest[0].lines, rest[0].item, rest[1..], boundary);
    if |rest| == 1 {
      ContentIsFar(rest[0].item.content, boundary);
    } else {
      EntryIsFar(rest[1..], boundary);
    }
  }

  lemma Arrived(m: Machine, p: Place, boundary: string, items: seq<Item>)
    requires var future := Dash(boundary) + AfterText([], boundary);
             At(m, p, boundary, future, items) && Stopped(m, p, boundary, future)
    requires ContentsFit(p, boundary)
    ensures p == Content(m.buf, []) && m.state == 3 && |m.buf| < |Dash(boundary)| && Unambiguous(m.buf, boundary)
    ensures m.received != [] && AddContent(m.received, m.buf) == items
  {
    hide Behind, EntryText, AddContent, Dash, Unambiguous, AfterText, HeadersText;
    var end := Dash(boundary) + AfterText([], boundary);
    if p.rest != [] || p.Headers? {
      PlaceIsFar(p, boundary);
      assert false;
    }
    AfterNone(boundary);
    if p.Content? {
      assert p.c + end == m.buf + end;
      assert (p.c + end)[..|p.c|] == p.c && (m.buf + end)[..|m.buf|] == m.buf;
      assert AddContent(m.received, m.buf) + [] == AddContent(m.received, m.buf);
    }
  }

  lemma AfterNone(boundary: string)
    ensures AfterText([], boundary) == "--\r\n" && |Dash(boundary)| >= 4
  {
  }

  lemma Held(m: Machine, parts: seq<Part>, j: nat, k: nat, boundary: string)
    requires j < |parts| && k <= |parts[j].item.content|
    requires m.state == 3 && |m.buf| < |Dash(boundary)| && Unambiguous(m.buf, boundary)
    requires m.received != [] && AddContent(m.received, m.buf) == ItemsOf(Shortened(parts, j, k))
    ensures Holding(m, parts, j, k, boundary)
  {
    hide AddContent, FindSub, Dash;
    AddedLast(m.received, m.buf);
  }

  lemma AddedLast(items: seq<Item>, data: string)
    requires items != []
    ensures var k, r := |items| - 1, AddContent(items, data);
            |r| == |items| && r[k].content == items[k].content + data
  {
  }

  // ---- the piece that comes out wrong ----

  // The items that no later content can be added to.
  function ClosedItems(m: Machine): seq<Item> {
    if m.state == 3 && m.received != [] then m.received[..|m.received| - 1] else m.received
  }

  lemma StepKeepsClosed(m: Machine, boundary: string)
    requires m.state <= 5
    ensures ClosedItems(m) <= ClosedItems(Step(m, boundary).m)
  {
    hide FindString, FindSub, Header;
  }

  lemma {:induction false} DrainKeepsClosed(m: Machine, boundary: string)
    requires m.state <= 5
    ensures ClosedItems(m) <= ClosedItems(Drain(m, boundary).1) <= Drain(m, boundary).1.received
    decreases Measure(m)
  {
    hide Step;
    if m.buf != "" {
      StepUses(m, boundary);
      StepKeepsClosed(m, boundary);
      if Step(m, boundary).Go? {
        DrainKeepsClosed(Step(m, boundary).m, boundary);
      }
    }
  }

  lemma {:induction false} ParseAllKeepsClosed(m: Machine, boundary: string, pieces: seq<string>)
    requires m.state <= 5
    ensures ClosedItems(m) <= ParseAll(m, boundary, pieces).1.received
    decreases |pieces|
  {
    hide Drain;
    if pieces != [] {
      DrainKeepsClosed(m.(buf := m.buf + pieces[0]), boundary);
      var (ok, m') := Parse(m, boundary, pieces[0]);
      if ok {
        ParseAllKeepsClosed(m', boundary, pieces[1..]);
        ClosedOf(m, m', ParseAll(m', boundary, pieces[1..]).1.received, boundary, pieces[0]);
      }
    }
  }

  lemma ClosedOf(m: Machine, m': Machine, received: seq<Item>, boundary: string, data: string)
    requires ClosedItems(m.(buf := m.buf + data)) <= ClosedItems(m') <= received
    ensures ClosedItems(m) <= received
  {
  }

  lemma AddGrows(items: seq<Item>, data: string, k: nat)
    requires k < |items|
    ensures var r := AddContent(items, data); k < |r| && |r[k].content| >= |items[k].content|
  {
  }

  lemma DelimiterGrows(m: Machine, boundary: string, k: nat)
    requires k < |m.received|
    ensures var r := Delimiter(m, boundary).m.received; k < |r| && |r[k].content| >= |m.received[k].content|
  {
    hide FindSub, AddContent;
    var d := CRLF + "--" + boundary;
    if |d| <= |m.buf| {
      var pos := FindSub(m.buf, d);
      AddGrows(m.received, m.buf[..if pos < |m.buf| then pos else |d|], k);
    }
  }

  // A move never takes away from the content of an item.
  lemma StepGrows(m: Machine, boundary: string, k: nat)
    requires m.state <= 5 && k < |m.received|
    ensures var r := Step(m, boundary).m.received; k < |r| && |r[k].content| >= |m.received[k].content|
  {
    hide FindString, FindSub, Header, Delimiter, AddContent;
    if m.state == 3 && |m.buf| >= 4 {
      var n := FindString(m.buf, CRLF + "--");
      AddGrows(m.received, m.buf[..n], k);
      DelimiterGrows(Emit(m, n), boundary, k);
    }
  }

  lemma {:induction false} DrainGrows(m: Machine, boundary: string, k: nat)
    requires m.state <= 5 && k < |m.received|
    ensures var r := Drain(m, boundary).1.received; k < |r| && |r[k].content| >= |m.received[k].content|
    decreases Measure(m)
  {
    hide Step;
    if m.buf != "" {
      StepUses(m, boundary);
      StepGrows(m, boundary, k);
      if Step(m, boundary).Go? {
        DrainGrows(Step(m, boundary).m, boundary, k);
      }
    }
  }

  lemma {:induction false} ParseAllGrows(m: Machine, boundary: string, pieces: seq<string>, k: nat)
    requires m.state <= 5 && k < |m.received|
    ensures var r := ParseAll(m, boundary, pieces).1.received; k < |r| && |r[k].content| >= |m.received[k].content|
    decreases |pieces|
  {
    if pieces != [] {
      DrainGrows(m.(buf := m.buf + pieces[0]), boundary, k);
      var (ok, m') := Parse(m, boundary, pieces[0]);
      if ok {
        ParseAllGrows(m', boundary, pieces[1..], k);
      }
    }
  }

  // A delimiter in the buffer ends the item, whatever comes before it.
  lemma TakesFirst(m: Machine, boundary: string) returns (m': Machine)
    requires m.state == 3 && FindSub(m.buf, Dash(boundary)) < |m.buf|
    ensures Step(m, boundary) == Go(m') && m'.state == 4
    ensures m'.received == AddContent(m.received, m.buf[..FindSub(m.buf, Dash(boundary))])
  {
    hide FindSub, FindString, AddContent;
    var d, r, n := Dash(boundary), FindSub(m.buf, Dash(boundary)), FindString(m.buf, DASHES);
    FirstOccurs(m.buf, d);
    OccursStart(m.buf, DASHES, boundary, r);
    assert m.buf[r] == m.buf[r..r + 4][0];
    if r < n {
      FindStringFirst(m.buf, DASHES, r);
    }
    FindSubDrop(m.buf, d, n);
    AddTwice(m.received, m.buf[..n], m.buf[n..][..r - n]);
    assert m.buf[..n] + m.buf[n..][..r - n] == m.buf[..r];
    assert DASHES + boundary == CRLF + "--" + boundary;
    m' := Step(m, boundary).m;
  }

  // CRLF and two dashes, with the width of a delimiter but none in sight: all of it
  // goes into the content.
  lemma TakesWidth(m: Machine, boundary: string, n: nat) returns (m': Machine)
    requires m.state == 3 && Occurs(m.buf, DASHES, n) && |m.buf| == n + |Dash(boundary)|
    requires FindSub(m.buf, Dash(boundary)) == |m.buf| && forall i: nat | i < n :: !Occurs(m.buf, DASHES, i)
    ensures Step(m, boundary) == Go(m') && m'.state == 3
    ensures m'.received == AddContent(m.received, m.buf)
  {
    hide FindSub, FindString, AddContent;
    var d, f := Dash(boundary), FindString(m.buf, DASHES);
    assert m.buf[n] == m.buf[n..n + 4][0];
    if n < f {
      FindStringFirst(m.buf, DASHES, n);
    }
    assert f < n ==> Occurs(m.buf, DASHES, f);
    FindSubDrop(m.buf, d, n);
    AddTwice(m.received, m.buf[..n], m.buf[n..]);
    assert m.buf[..n] + m.buf[n..] == m.buf && m.buf[n..][..|d|] == m.buf[n..];
    assert DASHES + boundary == CRLF + "--" + boundary;
    m' := Step(m, boundary).m;
  }

  // The smallest content that is ambiguous for every boundary.
  lemma DashesAreAmbiguous(boundary: string)
    ensures !Unambiguous(DASHES, boundary)
  {
    assert DASHES[..|DASHES|] == DASHES;
    assert boundary == "" ==> Dash(boundary) == DASHES;
  }

  // How far behind the misfit the piece goes: to the end of the delimiter in the
  // content, or for the width of one.
  function PieceEnd(c: string, boundary: string): nat {
    var q := FindSub(c, Dash(boundary));
    (if q < |c| then q else MisfitAt(c, boundary)) + |Dash(boundary)|
  }

  // The content and the delimiter behind it, up to the end of the piece: the first
  // delimiter in it is in the content, or there is none.
  lemma DelimiterInPiece(c: string, boundary: string)
    requires !Unambiguous(c, boundary) && '\r' !in boundary
    ensures var q, d, e := FindSub(c, Dash(boundary)), Dash(boundary), PieceEnd(c, boundary);
            && MisfitAt(c, boundary) + |d| <= e <= |c| + |d| && e <= MisfitAt(c, boundary) + 2 * |d|
            && FindSub((c + d)[..e], d) == (if q < |c| then q else e)
            && e == (if q < |c| then q else MisfitAt(c, boundary)) + |d|
  {
    hide FindSub, MisfitAt, Unambiguous;
    var d, q, e := Dash(boundary), FindSub(c, Dash(boundary)), PieceEnd(c, boundary);
    var s := c + d;
    MisfitParts(c, boundary);
    DashShape(boundary);
    if q < |c| {
      FirstOccurs(c, d);
      FindSubMore(c, d, d);
      FirstOccurs(s, d);
      OccursInPrefix(s, d, e, q);
    }
    forall i: nat | i < if q < |c| then q else e
      ensures !Occurs(s[..e], d, i)
    {
      OccursInPrefix(s, d, e, i);
      if i < |c| {
        assert s + "" == c + d;
        InsideContent(s, "", c, d, d, i);
        FindSubFirst(c, d, i);
      }
    }
    FindSubIs(s[..e], d, if q < |c| then q else e);
  }

  // The parser holds buf, the content before the misfit but for what it has passed on.
  lemma HeldPart(c: string, passed: string, buf: string, k: nat, d: string, e: nat)
    requires k <= |c| && passed + buf == c[..k] && k <= e <= |c + d|
    ensures |passed| <= k && buf + (c + d)[k..e] == (c + d)[..e][|passed|..]
    ensures passed == (c + d)[..|passed|]
  {
    assert (c + d)[..e] == c[..k] + (c + d)[k..e];
    assert (passed + buf)[|passed|..] == buf && (passed + buf)[..|passed|] == passed;
  }

  // What the parser makes of the piece: too little or too much content.
  lemma WrongPiece(m: Machine, parts: seq<Part>, j: nat, boundary: string, pieces: seq<string>)
    requires j < |parts| && '\r' !in boundary && !Unambiguous(parts[j].item.content, boundary)
    requires MisfitAt(parts[j].item.content, boundary) <= |parts[j].item.content|
    requires Holding(m, parts, j, MisfitAt(parts[j].item.content, boundary), boundary)
    requires var c, k := parts[j].item.content, MisfitAt(parts[j].item.content, boundary);
             k <= PieceEnd(c, boundary) <= |c + Dash(boundary)| && pieces != [] &&
             pieces[0] == (c + Dash(boundary))[k..PieceEnd(c, boundary)]
    ensures var r := ParseAll(m, boundary, pieces).1.received; j < |r| && r[j].content != parts[j].item.content
  {
    hide FindSub, MisfitAt, Unambiguous, Dash, Step, PieceEnd, ParseAll;
    var c, d := parts[j].item.content, Dash(boundary);
    var k, e := MisfitAt(c, boundary), PieceEnd(c, boundary);
    var q, passed := FindSub(c, d), m.received[j].content;
    var x, m1 := (c + d)[..e], m.(buf := m.buf + pieces[0]);
    DelimiterInPiece(c, boundary);
    HeldPart(c, passed, m.buf, k, d, e);
    MisfitParts(c, boundary);
    FindSubDrop(x, d, |passed|);
    if q < |c| {
      var m2 := TakesFirst(m1, boundary);
      AddedLast(m.received, m1.buf[..q - |passed|]);
      CutOff(c, d, e, passed, q);
      Closes(m, m2, boundary, pieces, j);
    } else {
      NoDashesHeld(m1.buf, m.buf, c, d, k, e);
      var m2 := TakesWidth(m1, boundary, |m.buf|);
      AddedLast(m.received, m1.buf);
      Grows(m, m2, boundary, pieces, j);
    }
  }

  // What the content has become by then.
  lemma CutOff(c: string, d: string, e: nat, passed: string, q: nat)
    requires e <= |c + d| && |passed| <= q < |c| && q <= e && passed == (c + d)[..|passed|]
    ensures passed + (c + d)[..e][|passed|..][..q - |passed|] == c[..q] != c
  {
    var s := c + d;
    assert s[..q] == c[..q] && s[..e][|passed|..][..q - |passed|] == s[|passed|..q];
    assert s[..|passed|] + s[|passed|..q] == s[..q];
  }

  // The held part and the piece have no CRLF and two dashes before the misfit.
  lemma NoDashesHeld(buf: string, held: string, c: string, d: string, k: nat, e: nat)
    requires k < |c| && k + 4 <= e <= |c + d| && Occurs(c, DASHES, k)
    requires FindSub(held, DASHES) == |held| && buf == held + (c + d)[k..e]
    ensures Occurs(buf, DASHES, |held|) && forall i: nat | i < |held| :: !Occurs(buf, DASHES, i)
  {
    hide FindSub;
    var piece := (c + d)[k..e];
    assert piece[..4] == c[k..k + 4];
    assert buf[|held|..|held| + 4] == piece[..4];
    assert buf[|held|] == buf[|held|..|held| + 4][0] && DASHES[1..] == "\n--";
    forall i: nat | i < |held|
      ensures !Occurs(buf, DASHES, i)
    {
      if i + 4 <= |held| {
        FindSubFirst(held, DASHES, i);
        assert buf[..|held|] == held;
        OccursInPrefix(buf, DASHES, |held|, i);
      } else {
        NoStraddle(buf, DASHES, i, |held|);
      }
    }
  }

  lemma FirstParse(m: Machine, m2: Machine, boundary: string, pieces: seq<string>)
    requires m.state <= 5 && pieces != [] && m.buf + pieces[0] != ""
    requires Step(m.(buf := m.buf + pieces[0]), boundary) == Go(m2)
    ensures m2.state <= 5
    ensures var (ok, m3) := Drain(m2, boundary);
            m3.state <= 5 &&
            ParseAll(m, boundary, pieces) == if ok then ParseAll(m3, boundary, pieces[1..]) else (false, m3)
  {
    hide Step;
    StepUses(m.(buf := m.buf + pieces[0]), boundary);
  }

  // An item whose content has been closed stays as it is.
  lemma Closes(m: Machine, m2: Machine, boundary: string, pieces: seq<string>, j: nat)
    requires m.state <= 5 && pieces != [] && m.buf + pieces[0] != ""
    requires Step(m.(buf := m.buf + pieces[0]), boundary) == Go(m2) && m2.state == 4 && j < |m2.received|
    ensures var r := ParseAll(m, boundary, pieces).1.received; j < |r| && r[j] == m2.received[j]
  {
    hide Step, Drain, ParseAll;
    FirstParse(m, m2, boundary, pieces);
    DrainKeepsClosed(m2, boundary);
    var (ok, m3) := Drain(m2, boundary);
    ParseAllKeepsClosed(m3, boundary, pieces[1..]);
    assert ClosedItems(m2)[j] == ClosedItems(m3)[j];
  }

  // And one whose content is too long does not get shorter.
  lemma Grows(m: Machine, m2: Machine, boundary: string, pieces: seq<string>, j: nat)
    requires m.state <= 5 && pieces != [] && m.buf + pieces[0] != ""
    requires Step(m.(buf := m.buf + pieces[0]), boundary) == Go(m2) && j < |m2.received|
    ensures var r := ParseAll(m, boundary, pieces).1.received; j < |r| && |r[j].content| >= |m2.received[j].content|
  {
    hide Step, Drain, ParseAll;
    FirstParse(m, m2, boundary, pieces);
    DrainGrows(m2, boundary, j);
    var (ok, m3) := Drain(m2, boundary);
    ParseAllGrows(m3, boundary, pieces[1..], j);
  }

  // ---- exactly when ----

  lemma {:induction false} FirstMisfit(parts: seq<Part>, boundary: string) returns (k: nat)
    requires !PartsUnambiguous(parts, boundary)
    ensures k < |parts| && !Unambiguous(parts[k].item.content, boundary) && PartsUnambiguous(parts[..k], boundary)
  {
    hide Unambiguous;
    if !Unambiguous(parts[0].item.content, boundary) {
      k := 0;
    } else {
      var j := FirstMisfit(parts[1..], boundary);
      k := j + 1;
      assert parts[..k] == [parts[0]] + parts[1..][..j];
    }
  }

  lemma {:induction false} ParseAllAppend(m: Machine, boundary: string, a: seq<string>, b: seq<string>)
    requires m.state <= 5
    ensures var (ok, m') := ParseAll(m, boundary, a);
            m'.state <= 5 && ParseAll(m, boundary, a + b) == if ok then ParseAll(m', boundary, b) else (false, m')
    decreases |a|
  {
    hide Drain;
    if a == [] {
      assert a + b == b;
    } else {
      assert (a + b)[1..] == a[1..] + b;
      var (ok, m') := Parse(m, boundary, a[0]);
      if ok {
        ParseAllAppend(m', boundary, a[1..], b);
      }
    }
  }

  // The piece in the body.
  lemma PieceInBody(parts: seq<Part>, j: nat, boundary: string)
    requires j < |parts| && '\r' !in boundary && !Unambiguous(parts[j].item.content, boundary)
    ensures var c, d := parts[j].item.content, Dash(boundary);
            var k, e := MisfitAt(c, boundary), PieceEnd(c, boundary);
            && k < |c| && k + |d| <= e <= |c + d| && e - k <= 2 * |d|
            && var n, text := Position(parts, j, k, boundary), MessageText(parts, boundary);
               n + e - k <= |text| && text[n..n + e - k] == (c + d)[k..e]
  {
    hide FindSub, MisfitAt, Unambiguous, Dash, MessageText, Position, PieceEnd, AfterText;
    var c, d := parts[j].item.content, Dash(boundary);
    var k, e := MisfitAt(c, boundary), PieceEnd(c, boundary);
    MisfitParts(c, boundary);
    DelimiterInPiece(c, boundary);
    SameStart(parts, j, k, boundary);
    var n, after := Position(parts, j, k, boundary), AfterText(parts[j + 1..], boundary);
    Slice(MessageText(parts, boundary), n, c, k, d, after, e);
  }

  lemma Slice(text: string, n: nat, c: string, k: nat, d: string, after: string, e: nat)
    requires n <= |text| && k <= |c| && k <= e <= |c + d| && text[n..] == c[k..] + (d + after)
    ensures n + e - k <= |text| && text[n..n + e - k] == (c + d)[k..e]
  {
    assert text[n..n + e - k] == text[n..][..e - k];
    assert c[k..] + (d + after) == (c + d)[k..] + after;
    assert (c + d)[k..][..e - k] == (c + d)[k..e];
  }

  // When a content is ambiguous, a cutting of the body into single bytes, but for one
  // piece of at most twice the width of a delimiter, hands out something else.
  lemma WrongCut(parts: seq<Part>, boundary: string) returns (pieces: seq<string>)
    requires GoodParts(parts) && !PartsUnambiguous(parts, boundary) && '\r' !in boundary
    ensures Concat(pieces) == MessageText(parts, boundary) && Deliverable(pieces, 2 * |Dash(boundary)|)
    ensures ParseAll(INIT, boundary, pieces).1.received != ItemsOf(parts)
  {
    hide MisfitAt, Unambiguous, MessageText, Position, PieceEnd, Holding, ParseAll, Dash, GoodPart, PartsUnambiguous;
    var j := FirstMisfit(parts, boundary);
    var c, text := parts[j].item.content, MessageText(parts, boundary);
    var k, e := MisfitAt(c, boundary), PieceEnd(c, boundary);
    PieceInBody(parts, j, boundary);
    var n := Position(parts, j, k, boundary);
    CutIsCut(text, n, n + e - k, 2 * |Dash(boundary)|);
    pieces := Cut(text, n, n + e - k);
    var a, b := Singles(text[..n]), [text[n..n + e - k]] + Singles(text[n + e - k..]);
    MisfitParts(c, boundary);
    ComesTo(parts, j, k, boundary, a);
    var (ok, m) := ParseAll(INIT, boundary, a);
    WrongPiece(m, parts, j, boundary, b);
    ParseAllAppend(INIT, boundary, a, b);
  }

  ghost predicate AllCutsHandOut(text: string, boundary: string, items: seq<Item>, limit: nat) {
    forall pieces | Concat(pieces) == text && Deliverable(pieces, limit) ::
      HandedOut(ParseAll(INIT, boundary, pieces), items)
  }

  lemma FitTogether(parts: seq<Part>, boundary: string)
    ensures PartsUnambiguous(parts, boundary) <==> ItemsFit(ItemsOf(parts), boundary)
  {
    hide Unambiguous;
    forall i | 0 <= i < |parts|
      ensures ItemsOf(parts)[i] in ItemsOf(parts)
    {
    }
  }

  // What the parser hands out of a body of at least one part, with any header lines,
  // does not depend on the cutting exactly when the content of every part is
  // unambiguous; it is enough to look at pieces of twice the width of a delimiter.
  lemma PartsExactly(parts: seq<Part>, boundary: string, limit: nat)
    requires parts != [] && GoodParts(parts) && '\r' !in boundary && limit >= 2 * |Dash(boundary)|
    ensures ItemsFit(ItemsOf(parts), boundary) <==>
            AllCutsHandOut(MessageText(parts, boundary), boundary, ItemsOf(parts), limit)
  {
    hide Drain, MessageText, Unambiguous, GoodPart, ParseAll, Dash, PartsUnambiguous, ItemsFit;
    var text, items := MessageText(parts, boundary), ItemsOf(parts);
    FitTogether(parts, boundary);
    if ItemsFit(items, boundary) {
      forall pieces | Concat(pieces) == text && Deliverable(pieces, limit)
        ensures HandedOut(ParseAll(INIT, boundary, pieces), items)
      {
        EveryCutOfParts(parts, boundary, pieces);
      }
    } else {
      var pieces := WrongCut(parts, boundary);
      assert !HandedOut(ParseAll(INIT, boundary, pieces), items);
    }
  }

  // So for the round trip of a non-empty list of items through Post and parse.
  lemma RoundTripExactly(items: seq<Item>, boundary: string, limit: nat)
    requires items != [] && PlainItems(items) && '\r' !in boundary && limit >= 2 * |Dash(boundary)|
    ensures ItemsFit(items, boundary) <==> AllCutsHandOut(BodyText(items, boundary), boundary, items, limit)
  {
    hide AllCutsHandOut, ItemsFit, PlainItem, BodyText, MessageText, GoodParts, Lines, Dash;
    BodyIsEntries(items, boundary);
    PostedIsGood(items);
    PartsExactly(Posted(items), boundary, limit);
  }

  // And for a server and for every boundary that section 5.1.1 of RFC 2046 allows.
  lemma RoundTripAtServer(items: seq<Item>, boundary: string)
    requires items != [] && PlainItems(items) && '\r' !in boundary && |boundary| <= 70
    ensures ItemsFit(items, boundary) <==> AllCutsHandOut(BodyText(items, boundary), boundary, items, BUFFER_SIZE)
  {
    hide AllCutsHandOut, ItemsFit, PlainItems, BodyText;
    RoundTripExactly(items, boundary, BUFFER_SIZE);
  }
}
