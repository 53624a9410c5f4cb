// What btor/bencode.cpp accepts, as a pure parser and as a grammar, and what its
// side channels (the captured `info` text and the sum of `length` values) hold.
//
// A Tree is a parsed value together with the text of its leaves, so that the
// whole source text can be read back from it (Src).  Integers wrap around like
// the two's complement integers of the source.
module BencodeSpec {
  import opened Text
  import opened Wrapping

  datatype Tree =
    | TInt(body: string, n: int)        // i body e
    | TStr(digits: string, s: string)   // digits : s
    | TList(items: seq<Tree>)           // l items e
    | TDict(entries: seq<Entry>)        // d entries e

  datatype Entry = Entry(digits: string, key: string, val: Tree)

  const TWO_32 := 0x1_0000_0000
  const TWO_63 := 0x8000_0000_0000_0000

  predicate IsDigit(c: char) { '0' <= c <= '9' }

  predicate IsDigits(s: string) { forall i | 0 <= i < |s| :: IsDigit(s[i]) }

  // The decimal value of the digits of s; other characters are skipped.
  function Decimal(s: string): nat {
    if s == "" then 0
    else
      var c := s[|s| - 1];
      var front := Decimal(s[..|s| - 1]);
      if IsDigit(c) then 10 * front + (c as int - '0' as int) else front
  }

  // The number of bytes that a string with this length prefix has.
  function LengthOf(digits: string): nat { Decimal(digits) % TWO_32 }

  // The value of the text between `i` and `e`.
  function IntOf(body: string): int {
    var m: int := Decimal(body);
    Wrap64(if body != "" && body[0] == '-' then -m else m)
  }

  predicate IntBody(body: string) {
    && 'e' !in body
    && (body == "" || '-' !in body[1..])
  }

  // ---- the grammar ----

  ghost predicate Valid(t: Tree) {
    match t
    case TInt(body, n) => IntBody(body) && n == IntOf(body)
    case TStr(digits, s) => digits != "" && IsDigits(digits) && |s| == LengthOf(digits)
    case TList(items) => items != [] && forall i | 0 <= i < |items| :: Valid(items[i])
    case TDict(entries) => entries != [] && forall i | 0 <= i < |entries| :: ValidEntry(entries[i])
  }

  ghost predicate ValidEntry(e: Entry) {
    && IsDigits(e.digits) && |e.key| == LengthOf(e.digits)
    && Valid(e.val)
    && (e.key == "length" ==> e.val.TInt?)
  }

  function Src(t: Tree): string
    decreases t, 1
  {
    match t
    case TInt(body, _) => "i" + body + "e"
    case TStr(digits, s) => digits + ":" + s
    case TList(items) => "l" + (SrcItems(items) + "e")
    case TDict(entries) => "d" + (SrcEntries(entries) + "e")
  }

  function SrcItems(items: seq<Tree>): string
    decreases items, 0
  {
    if items == [] then "" else Src(items[0]) + SrcItems(items[1..])
  }

  function KeySrc(e: Entry): string { e.digits + ":" + e.key }

  function EntrySrc(e: Entry): string
    decreases e, 2
  {
    KeySrc(e) + Src(e.val)
  }

  function SrcEntries(entries: seq<Entry>): string
    decreases entries, 0
  {
    if entries == [] then "" else EntrySrc(entries[0]) + SrcEntries(entries[1..])
  }

  // ---- the parser, as a function of the text at the cursor ----

  datatype Parsed<T> = Fail | Done(value: T, rest: string)

  function DigitsPrefix(s: string): (n: nat)
    ensures n <= |s| && IsDigits(s[..n]) && (n < |s| ==> !IsDigit(s[n]))
  {
    if s == "" || !IsDigit(s[0]) then 0
    else
      var n := 1 + DigitsPrefix(s[1..]);
      assert s[..n] == [s[0]] + s[1..][..n - 1];
      n
  }

  // extractString
  function ParseText(s: string): (r: Parsed<(string, string)>)
    ensures r.Done? ==> |r.rest| < |s|
  {
    var n := DigitsPrefix(s);
    if n == |s| || s[n] != ':' then Fail
    else
      var count := LengthOf(s[..n]);
      var tail := s[n + 1..];
      if |tail| < count then Fail else Done((s[..n], tail[..count]), tail[count..])
  }

  function ParseInt(s: string): (r: Parsed<Tree>)
    requires s != "" && s[0] == 'i'
    ensures r.Done? ==> |r.rest| < |s|
  {
    var n := Find(s[1..], 'e');
    var body := s[1..][..n];
    if n == |s| - 1 || !IntBody(body) then Fail
    else Done(TInt(body, IntOf(body)), s[n + 2..])
  }

  // parseArbitrary
  function Parse(s: string): (r: Parsed<Tree>)
    ensures r.Done? ==> |r.rest| < |s|
    decreases |s|, 0
  {
    if s == "" then Fail
    else if s[0] == 'i' then ParseInt(s)
    else if s[0] == 'l' then
      var r := ParseItems(s[1..]);
      if r.Fail? then Fail else Done(TList(r.value), r.rest)
    else if s[0] == 'd' then
      var r := ParseEntries(s[1..]);
      if r.Fail? then Fail else Done(TDict(r.value), r.rest)
    else if IsDigit(s[0]) then
      var r := ParseText(s);
      if r.Fail? then Fail else Done(TStr(r.value.0, r.value.1), r.rest)
    else Fail
  }

  // One item or more, and the closing `e`.
  function ParseItems(s: string): (r: Parsed<seq<Tree>>)
    ensures r.Done? ==> |r.rest| < |s|
    decreases |s|, 1
  {
    var r := Parse(s);
    if r.Fail? || r.rest == "" then Fail
    else if r.rest[0] == 'e' then Done([r.value], r.rest[1..])
    else
      var more := ParseItems(r.rest);
      if more.Fail? then Fail else Done([r.value] + more.value, more.rest)
  }

  function ParseEntry(s: string): (r: Parsed<Entry>)
    ensures r.Done? ==> |r.rest| < |s|
    decreases |s|, 1
  {
    var k := ParseText(s);
    if k.Fail? then Fail
    else
      var r := Parse(k.rest);
      if r.Fail? || (k.value.1 == "length" && !r.value.TInt?) then Fail
      else Done(Entry(k.value.0, k.value.1, r.value), r.rest)
  }

  function ParseEntries(s: string): (r: Parsed<seq<Entry>>)
    ensures r.Done? ==> |r.rest| < |s|
    decreases |s|, 2
  {
    var r := ParseEntry(s);
    if r.Fail? || r.rest == "" then Fail
    else if r.rest[0] == 'e' then Done([r.value], r.rest[1..])
    else
      var more := ParseEntries(r.rest);
      if more.Fail? then Fail else Done([r.value] + more.value, more.rest)
  }

  // ---- the parser accepts exactly the grammar ----

  lemma ParseTextSound(s: string)
    requires ParseText(s).Done?
    ensures var (digits, text) := ParseText(s).value;
            && s == digits + ":" + text + ParseText(s).rest
            && IsDigits(digits) && |text| == LengthOf(digits)
            && (IsDigit(s[0]) ==> digits != "")
  {
    var n := DigitsPrefix(s);
    var count := LengthOf(s[..n]);
    var tail := s[n + 1..];
    assert s == s[..n] + [s[n]] + tail;
    assert tail == tail[..count] + tail[count..];
  }

  lemma ParseIntSound(s: string)
    requires s != "" && s[0] == 'i' && ParseInt(s).Done?
    ensures Valid(ParseInt(s).value) && s == Src(ParseInt(s).value) + ParseInt(s).rest
  {
    var n := Find(s[1..], 'e');
    assert s == "i" + s[1..][..n] + "e" + s[n + 2..];
  }

  lemma {:induction false} ParseSound(s: string)
    requires Parse(s).Done?
    ensures Valid(Parse(s).value) && s == Src(Parse(s).value) + Parse(s).rest
    decreases |s|, 0
  {
    var rest := Parse(s).rest;
    if s[0] == 'i' {
      ParseIntSound(s);
    } else if s[0] == 'l' {
      ParseItemsSound(s[1..]);
      Bracketed(s, SrcItems(ParseItems(s[1..]).value), rest);
    } else if s[0] == 'd' {
      ParseEntriesSound(s[1..]);
      Bracketed(s, SrcEntries(ParseEntries(s[1..]).value), rest);
    } else {
      ParseTextSound(s);
    }
  }

  lemma Bracketed(s: string, inner: string, rest: string)
    requires s != "" && s[1..] == inner + ("e" + rest)
    ensures s == [s[0]] + (inner + "e") + rest
  {
  }

  lemma {:induction false} ParseItemsSound(s: string)
    requires ParseItems(s).Done?
    ensures var items := ParseItems(s).value;
            && items != [] && (forall i | 0 <= i < |items| :: Valid(items[i]))
            && s == SrcItems(items) + ("e" + ParseItems(s).rest)
    decreases |s|, 1
  {
    hide Src, Valid, Parse;
    var r := Parse(s);
    ParseSound(s);
    assert r.rest == [r.rest[0]] + r.rest[1..];
    if r.rest[0] == 'e' {
      assert [r.value][1..] == [];
    } else {
      ParseItemsSound(r.rest);
      var more := ParseItems(r.rest).value;
      assert ([r.value] + more)[1..] == more;
      assert Src(r.value) + (SrcItems(more) + ("e" + ParseItems(s).rest))
          == Src(r.value) + SrcItems(more) + ("e" + ParseItems(s).rest);
    }
  }

  lemma {:induction false} ParseEntrySound(s: string)
    requires ParseEntry(s).Done?
    ensures var e := ParseEntry(s).value;
            ValidEntry(e) && s == EntrySrc(e) + ParseEntry(s).rest
    decreases |s|, 1
  {
    hide Parse, ParseText, Src, Valid, LengthOf, IsDigits;
    ParseTextSound(s);
    ParseSound(ParseText(s).rest);
    var e := ParseEntry(s).value;
    assert KeySrc(e) + (Src(e.val) + ParseEntry(s).rest) == KeySrc(e) + Src(e.val) + ParseEntry(s).rest;
  }

  lemma {:induction false} ParseEntriesSound(s: string)
    requires ParseEntries(s).Done?
    ensures var entries := ParseEntries(s).value;
            && entries != [] && (forall i | 0 <= i < |entries| :: ValidEntry(entries[i]))
            && s == SrcEntries(entries) + ("e" + ParseEntries(s).rest)
    decreases |s|, 2
  {
    hide EntrySrc, ValidEntry, ParseEntry;
    var r := ParseEntry(s);
    ParseEntrySound(s);
    assert r.rest == [r.rest[0]] + r.rest[1..];
    if r.rest[0] == 'e' {
      assert [r.value][1..] == [];
    } else {
      ParseEntriesSound(r.rest);
      var more := ParseEntries(r.rest).value;
      assert ([r.value] + more)[1..] == more;
      assert EntrySrc(r.value) + (SrcEntries(more) + ("e" + ParseEntries(s).rest))
          == EntrySrc(r.value) + SrcEntries(more) + ("e" + ParseEntries(s).rest);
    }
  }

  lemma {:induction false} DigitsPrefixOf(digits: string, tail: string)
    requires IsDigits(digits) && (tail == "" || !IsDigit(tail[0]))
    ensures DigitsPrefix(digits + tail) == |digits|
  {
    if digits == "" {
      assert digits + tail == tail;
    } else {
      assert (digits + tail)[1..] == digits[1..] + tail;
      DigitsPrefixOf(digits[1..], tail);
    }
  }

  lemma ParseTextComplete(digits: string, text: string, rest: string)
    requires IsDigits(digits) && |text| == LengthOf(digits)
    ensures ParseText(digits + ":" + text + rest) == Done((digits, text), rest)
  {
    hide LengthOf, DigitsPrefix;
    var s := digits + ":" + text + rest;
    assert s == digits + (":" + (text + rest));
    DigitsPrefixOf(digits, ":" + (text + rest));
    assert s[..|digits|] == digits;
    assert s[|digits| + 1..] == text + rest;
    assert (text + rest)[..|text|] == text && (text + rest)[|text|..] == rest;
  }

  lemma ParseIntComplete(body: string, n: int, rest: string)
    requires IntBody(body) && n == IntOf(body)
    ensures Parse("i" + body + "e" + rest) == Done(TInt(body, n), rest)
  {
    hide IntBody, IntOf;
    var s, tail := "i" + body + "e" + rest, "e" + rest;
    assert 'e' !in body by { IntBodyHasNoE(body); }
    assert s[1..] == body + tail;
    FindIn(body, 'e', tail);
    assert s[1..][..|body|] == body;
    assert s[|body| + 2..] == rest;
  }

  lemma IntBodyHasNoE(body: string)
    requires IntBody(body)
    ensures 'e' !in body
  {
  }

  lemma ParseStrComplete(digits: string, text: string, rest: string)
    requires digits != "" && IsDigits(digits) && |text| == LengthOf(digits)
    ensures Parse(digits + ":" + text + rest) == Done(TStr(digits, text), rest)
  {
    hide LengthOf, ParseText;
    ParseTextComplete(digits, text, rest);
    assert (digits + ":" + text + rest)[0] == digits[0];
  }

  lemma {:induction false} ParseComplete(t: Tree, rest: string)
    requires Valid(t)
    ensures Parse(Src(t) + rest) == Done(t, rest)
    decreases t, 1
  {
    hide IntBody, IntOf, LengthOf, ParseText, IsDigits;
    var s := Src(t) + rest;
    match t
    case TInt(body, n) =>
      ParseIntComplete(body, n, rest);
    case TStr(digits, text) =>
      ParseStrComplete(digits, text, rest);
    case TList(items) =>
      assert s[1..] == SrcItems(items) + ("e" + rest);
      ParseItemsComplete(items, rest);
    case TDict(entries) =>
      assert s[1..] == SrcEntries(entries) + ("e" + rest);
      ParseEntriesComplete(entries, rest);
  }

  lemma {:induction false} ParseItemsComplete(items: seq<Tree>, rest: string)
    requires items != [] && forall i | 0 <= i < |items| :: Valid(items[i])
    ensures ParseItems(SrcItems(items) + ("e" + rest)) == Done(items, rest)
    decreases items, 0
  {
    hide Src, Valid;
    var tail := SrcItems(items[1..]) + ("e" + rest);
    assert SrcItems(items) + ("e" + rest) == Src(items[0]) + tail;
    ParseComplete(items[0], tail);
    if items[1..] == [] {
      assert items == [items[0]];
      assert tail == "e" + rest && tail[1..] == rest;
    } else {
      assert items == [items[0]] + items[1..];
      SrcStart(items[1]);
      assert tail[0] == Src(items[1])[0];
      ParseItemsComplete(items[1..], rest);
    }
  }

  lemma SrcStart(t: Tree)
    requires Valid(t)
    ensures Src(t) != "" && Src(t)[0] != 'e'
  {
  }

  lemma {:induction false} ParseEntryComplete(e: Entry, rest: string)
    requires ValidEntry(e)
    ensures ParseEntry(EntrySrc(e) + rest) == Done(e, rest)
    decreases e, 0
  {
    assert EntrySrc(e) + rest == e.digits + ":" + e.key + (Src(e.val) + rest);
    ParseTextComplete(e.digits, e.key, Src(e.val) + rest);
    ParseComplete(e.val, rest);
  }

  lemma {:induction false} ParseEntriesComplete(entries: seq<Entry>, rest: string)
    requires entries != [] && forall i | 0 <= i < |entries| :: ValidEntry(entries[i])
    ensures ParseEntries(SrcEntries(entries) + ("e" + rest)) == Done(entries, rest)
    decreases entries, 0
  {
    hide EntrySrc, ValidEntry;
    var tail := SrcEntries(entries[1..]) + ("e" + rest);
    assert SrcEntries(entries) + ("e" + rest) == EntrySrc(entries[0]) + tail;
    ParseEntryComplete(entries[0], tail);
    if entries[1..] == [] {
      assert entries == [entries[0]];
      assert tail == "e" + rest && tail[1..] == rest;
    } else {
      assert entries == [entries[0]] + entries[1..];
      EntrySrcStart(entries[1]);
      assert tail[0] == EntrySrc(entries[1])[0];
      ParseEntriesComplete(entries[1..], rest);
    }
  }

  lemma EntrySrcStart(e: Entry)
    requires ValidEntry(e)
    ensures EntrySrc(e) != "" && EntrySrc(e)[0] != 'e'
  {
    assert EntrySrc(e)[0] == KeySrc(e)[0];
  }

  // Parsing succeeds with a tree and a rest exactly when the input is the text
  // of that tree, the tree is in the grammar, and the rest follows.
  lemma ParseExact(s: string, t: Tree, rest: string)
    ensures Parse(s) == Done(t, rest) <==> Valid(t) && s == Src(t) + rest
  {
    if Parse(s) == Done(t, rest) {
      ParseSound(s);
    }
    if Valid(t) && s == Src(t) + rest {
      ParseComplete(t, rest);
    }
  }

  lemma PrefixFree(t1: Tree, rest1: string, t2: Tree, rest2: string)
    requires Valid(t1) && Valid(t2)
    requires Src(t1) + rest1 == Src(t2) + rest2
    ensures t1 == t2 && rest1 == rest2
  {
    ParseComplete(t1, rest1);
    ParseComplete(t2, rest2);
  }
}
