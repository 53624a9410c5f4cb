// multipart/form-data in btor/httplib.h: the body that ClientImpl::Post builds
// (section 5.1.1 of RFC 2046) and MultipartFormDataParser, as a machine that makes
// one move of its loop at a time.
module Multipart {
  import opened Numbers
  import opened Text
  import opened Wrappers

  datatype Item = Item(name: string, filename: string, contentType: string, content: string)

  // ---- Post ----

  predicate BoundaryChar(c: char) {
    'a' <= c <= 'z' || 'A' <= c <= 'Z' || '0' <= c <= '9' || c == '-' || c == '_'
  }

  function Disposition(item: Item): string {
    "Content-Disposition: form-data; name=\"" + item.name + "\"" +
    (if item.filename != "" then "; filename=\"" + item.filename + "\"" else "")
  }

  const CONTENT_TYPE := "Content-Type: "

  function TypeLine(item: Item): string {
    if item.contentType != "" then CONTENT_TYPE + item.contentType + CRLF else ""
  }

  function ItemText(item: Item, boundary: string): string {
    ("--" + boundary + CRLF) + (Disposition(item) + CRLF) + TypeLine(item) + CRLF + (item.content + CRLF)
  }

  function ItemsText(items: seq<Item>, boundary: string): string {
    if items == [] then "" else ItemText(items[0], boundary) + ItemsText(items[1..], boundary)
  }

  function BodyText(items: seq<Item>, boundary: string): string {
    ItemsText(items, boundary) + ("--" + boundary + "--" + CRLF)
  }

  method Post(items: seq<Item>, boundary: string) returns (body: Option<string>)
    ensures body.Some? <==>
            forall c | c in boundary ::
              'a' <= c <= 'z' || 'A' <= c <= 'Z' || '0' <= c <= '9' || c == '-' || c == '_'
    ensures body.Some? ==> body.value == BodyText(items, boundary)
  {
    hide ItemText;
    var i := 0;
    while i < |boundary|
      invariant 0 <= i <= |boundary| && forall k | 0 <= k < i :: BoundaryChar(boundary[k])
    {
      if !BoundaryChar(boundary[i]) {
        assert boundary[i] in boundary;
        return None;
      }
      i := i + 1;
    }
    var text := "";
    i := 0;
    while i < |items|
      invariant 0 <= i <= |items| && text + ItemsText(items[i..], boundary) == ItemsText(items, boundary)
    {
      ghost var before, rest := text, ItemsText(items[i + 1..], boundary);
      text := AppendItem(text, items[i], boundary);
      assert items[i..][1..] == items[i + 1..];
      assert before + (ItemText(items[i], boundary) + rest) == before + ItemText(items[i], boundary) + rest;
      i := i + 1;
    }
    return Some(text + ("--" + boundary + "--" + CRLF));
  }

  // The body of the loop of Post.
  method AppendItem(body: string, item: Item, boundary: string) returns (text: string)
    ensures text == body + ItemText(item, boundary)
  {
    text := body + ("--" + boundary + CRLF);
    var disposition := "Content-Disposition: form-data; name=\"" + item.name + "\"";
    if item.filename != "" {
      disposition := disposition + ("; filename=\"" + item.filename + "\"");
    }
    text := text + (disposition + CRLF);
    text := text + TypeLine(item);
    text := text + CRLF;
    text := text + (item.content + CRLF);
    assert disposition == Disposition(item);
    JoinFive(body, "--" + boundary + CRLF, Disposition(item) + CRLF, TypeLine(item), CRLF, item.content + CRLF);
  }

  lemma JoinFive(a: string, b: string, c: string, d: string, e: string, f: string)
    ensures a + b + c + d + e + f == a + (b + c + d + e + f)
  {
  }

  // ---- header lines ----

  function Lower(c: char): char {
    if 'A' <= c <= 'Z' then (c as int - 'A' as int + 'a' as int) as char else c
  }

  predicate StartsWithCaseIgnore(a: string, b: string) {
    |a| >= |b| && forall i | 0 <= i < |b| :: Lower(a[i]) == Lower(b[i])
  }

  // s without the prefix p, in any case.
  function Strip(s: string, p: string): Option<string> {
    if StartsWithCaseIgnore(s, p) then Some(s[|p|..]) else None
  }

  // A value in quotation marks that holds none, and no line end; s starts behind
  // the opening mark.
  function Quoted(s: string): Option<(string, string)> {
    var n := Find(s, '"');
    if n == |s| || '\r' in s[..n] || '\n' in s[..n] then None else Some((s[..n], s[n + 1..]))
  }

  // The name and filename of a line that matches the regular expression for
  // Content-Disposition, when they hold no quotation mark.
  function MatchDisposition(header: string): Option<(string, string)> {
    match Strip(header, "Content-Disposition:")
    case None => None
    case Some(s1) =>
      match Strip(SkipSpace(s1), "form-data;")
      case None => None
      case Some(s2) =>
        match Strip(SkipSpace(s2), "name=\"")
        case None => None
        case Some(s3) =>
          match Quoted(s3)
          case None => None
          case Some((name, s4)) =>
            if SkipSpace(s4) == "" then Some((name, ""))
            else
              match MatchFilename(s4)
              case None => None
              case Some(filename) => Some((name, filename))
  }

  function MatchFilename(s: string): Option<string> {
    match Strip(s, ";")
    case None => None
    case Some(s1) =>
      match Strip(SkipSpace(s1), "filename=\"")
      case None => None
      case Some(s2) =>
        match Quoted(s2)
        case None => None
        case Some((filename, s3)) => if SkipSpace(s3) == "" then Some(filename) else None
  }

  const HEADER_NAME := "content-type:"

  // What a header line does to the file information.
  function Header(file: Item, header: string): Item {
    if StartsWithCaseIgnore(header, HEADER_NAME) then
      file.(contentType := RTrim(LTrim(header[|HEADER_NAME|..])))
    else
      match MatchDisposition(header)
      case None => file
      case Some((name, filename)) => file.(name := name, filename := filename)
  }

  // ---- the parser as a machine ----

  // The fields of the parser, and what the callbacks have received: the header
  // callback starts an item, the content callback adds to its content.
  datatype Machine = Machine(
    buf: string,
    state: nat,
    valid: bool,
    off: nat,
    file: Item,
    received: seq<Item>
  )

  const NO_FILE := Item("", "", "", "")
  const INIT := Machine("", 0, false, 0, NO_FILE, [])

  function AddContent(items: seq<Item>, data: string): seq<Item> {
    if items == [] then []
    else
      var last := items[|items| - 1];
      items[..|items| - 1] + [last.(content := last.content + data)]
  }

  // find_string: the first p in s, or the place near the end of s where it may
  // be about to start.
  function FindString(s: string, p: string): (n: nat)
    requires p != ""
    ensures n <= |s|
    ensures n < |s| ==> s[n] == p[0] && (|s| - n < |p| || s[n..n + |p|] == p)
  {
    if s == "" then 0
    else if s[0] == p[0] && (|s| < |p| || s[..|p|] == p) then 0
    else 1 + FindString(s[1..], p)
  }

  // Before that place, p neither stands nor may be about to start.
  lemma {:induction false} FindStringFirst(s: string, p: string, k: nat)
    requires p != "" && k < FindString(s, p)
    ensures !(s[k] == p[0] && (|s| - k < |p| || Occurs(s, p, k)))
  {
    if k > 0 {
      FindStringFirst(s[1..], p, k - 1);
      if |p| <= |s| - k {
        assert s[1..][k - 1..k - 1 + |p|] == s[k..k + |p|];
      }
    }
  }

  method FindStringLoop(s: string, p: string) returns (pos: nat)
    requires p != ""
    ensures pos == FindString(s, p)
  {
    hide FindString;
    var c := p[0];
    var off := 0;
    while off < |s|
      invariant 0 <= off <= |s| && FindString(s, p) == off + FindString(s[off..], p)
    {
      pos := off + Find(s[off..], c);
      SkipTo(s[off..], p, Find(s[off..], c));
      assert s[off..][Find(s[off..], c)..] == s[pos..];
      Here(s, p, pos);
      if pos == |s| {
        return;
      }
      var rem := |s| - pos;
      if |p| > rem {
        return;
      }
      if s[pos..pos + |p|] == p {
        return;
      }
      off := pos + 1;
    }
    Here(s, p, |s|);
    return |s|;
  }

  // The search from pos, where s ends or p may start.
  lemma Here(s: string, p: string, pos: nat)
    requires p != "" && pos <= |s| && (pos < |s| ==> s[pos] == p[0])
    ensures FindString(s[pos..], p) ==
            if pos == |s| || |p| > |s| - pos || s[pos..pos + |p|] == p then 0 else 1 + FindString(s[pos + 1..], p)
  {
    if pos < |s| {
      assert s[pos..][1..] == s[pos + 1..];
      if |p| <= |s| - pos {
        assert s[pos..][..|p|] == s[pos..pos + |p|];
      }
    }
  }

  lemma {:induction false} SkipTo(s: string, p: string, n: nat)
    requires p != "" && n <= Find(s, p[0])
    ensures FindString(s, p) == n + FindString(s[n..], p)
  {
    if n > 0 {
      SkipTo(s[1..], p, n - 1);
      assert s[1..][n - 1..] == s[n..];
    }
  }

  // A move ends the call of parse (with true or false) or goes on.
  datatype Move = Wait(m: Machine) | Go(m: Machine) | Reject(m: Machine)

  function Eat(m: Machine, n: nat): Machine
    requires n <= |m.buf|
  {
    m.(buf := m.buf[n..], off := m.off + n)
  }

  // Pass n bytes to the content callback and drop them.
  function Emit(m: Machine, n: nat): Machine
    requires n <= |m.buf|
  {
    Eat(m, n).(received := AddContent(m.received, m.buf[..n]))
  }

  function Step(m: Machine, boundary: string): Move
    requires m.state <= 5
  {
    if m.state == 0 then InitialBoundary(m, boundary)
    else if m.state == 1 then Go(m.(file := NO_FILE, state := 2))
    else if m.state == 2 then HeaderLine(m)
    else if m.state == 3 then Body(m, boundary)
    else if m.state == 4 then Boundary(m)
    else Reject(m.(valid := false))
  }

  function InitialBoundary(m: Machine, boundary: string): Move {
    var pattern := "--" + boundary + CRLF;
    if |pattern| > |m.buf| then Wait(m)
    else if FindSub(m.buf, pattern) != 0 then Reject(m)
    else Go(Eat(m, |pattern|).(state := 1))
  }

  // One line; the empty one ends the headers.
  function HeaderLine(m: Machine): Move {
    var pos := FindSub(m.buf, CRLF);
    if pos == |m.buf| then Wait(m)
    else if pos == 0 then Go(Eat(m, 2).(state := 3, received := m.received + [m.file.(content := "")]))
    else Go(Eat(m, pos + 2).(file := Header(m.file, m.buf[..pos])))
  }

  function Body(m: Machine, boundary: string): Move {
    if |m.buf| < 4 then Wait(m) else Delimiter(Emit(m, FindString(m.buf, CRLF + "--")), boundary)
  }

  function Delimiter(m: Machine, boundary: string): Move {
    var pattern := CRLF + "--" + boundary;
    if |pattern| > |m.buf| then Wait(m)
    else
      var pos := FindSub(m.buf, pattern);
      if pos < |m.buf| then Go(Eat(Emit(m, pos), |pattern|).(state := 4)) else Go(Emit(m, |pattern|))
  }

  function Boundary(m: Machine): Move {
    if |m.buf| < 2 then Wait(m)
    else if m.buf[..2] == CRLF then Go(Eat(m, 2).(state := 1))
    else if |m.buf| < 4 then Wait(m)
    else if m.buf[..4] == "--" + CRLF then Go(Eat(m, 4).(valid := true, state := 5))
    else Wait(m)
  }

  // What a move that goes on uses up.
  function Measure(m: Machine): nat { 2 * |m.buf| + (if m.state == 1 then 1 else 0) }

  function After(move: Move): Machine { move.m }

  // Every move counts in off the bytes it drops from buf, and one that goes on
  // drops some or leaves state 1.
  lemma StepUses(m: Machine, boundary: string)
    requires m.state <= 5
    ensures var m' := After(Step(m, boundary));
            m'.state <= 5 && m'.off + |m'.buf| == m.off + |m.buf| &&
            (Step(m, boundary).Go? ==> Measure(m') < Measure(m))
  {
    hide Header, FindSub, FindString, AddContent, Delimiter;
    if m.state == 3 && |m.buf| >= 4 {
      DelimiterUses(Emit(m, FindString(m.buf, CRLF + "--")), boundary);
    }
  }

  lemma DelimiterUses(m: Machine, boundary: string)
    requires m.state == 3
    ensures var m' := After(Delimiter(m, boundary));
            m'.state <= 5 && m'.off + |m'.buf| == m.off + |m.buf| &&
            (Delimiter(m, boundary).Go? ==> Measure(m') < Measure(m))
  {
    hide FindSub, AddContent;
  }

  // The loop of parse: its result, and the parser afterwards.
  function Drain(m: Machine, boundary: string): (r: (bool, Machine))
    requires m.state <= 5
    ensures r.1.state <= 5
    decreases Measure(m)
  {
    if m.buf == "" then (true, m)
    else
      StepUses(m, boundary);
      match Step(m, boundary)
      case Wait(m') => (true, m')
      case Reject(m') => (false, m')
      case Go(m') => Drain(m', boundary)
  }

  function Parse(m: Machine, boundary: string, data: string): (r: (bool, Machine))
    requires m.state <= 5
    ensures r.1.state <= 5
  {
    Drain(m.(buf := m.buf + data), boundary)
  }

  // Parsing the pieces one after the other, as long as parse returns true.
  function ParseAll(m: Machine, boundary: string, pieces: seq<string>): (bool, Machine)
    requires m.state <= 5
    decreases |pieces|
  {
    if pieces == [] then (true, m)
    else
      var (ok, m') := Parse(m, boundary, pieces[0]);
      if ok then ParseAll(m', boundary, pieces[1..]) else (false, m')
  }
}
