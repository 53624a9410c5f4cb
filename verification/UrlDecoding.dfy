// What decode_url makes of any percent-coded text: bytes as two digits, code points as
// u and four digits, in either case, and percent signs that begin neither.
module UrlDecoding {
  import opened Spelling
  import opened UrlCodec
  import opened Wrappers

  // ---- UTF-8 ----

  predicate Continuation(c: char) { 0x80 <= c as int < 0xC0 }

  // The code point that the bytes stand for (section 3 of RFC 3629).
  function CodePoint(s: string): Option<nat> {
    if |s| == 1 && s[0] as int < 0x80 then Some(s[0] as int)
    else if |s| == 2 && 0xC2 <= s[0] as int < 0xE0 && Continuation(s[1]) then
      Some((s[0] as int - 0xC0) * 0x40 + (s[1] as int - 0x80))
    else if |s| == 3 && 0xE0 <= s[0] as int < 0xF0 && Continuation(s[1]) && Continuation(s[2]) then
      var n := (s[0] as int - 0xE0) * 0x1000 + (s[1] as int - 0x80) * 0x40 + (s[2] as int - 0x80);
      if n < 0x800 || 0xD800 <= n < 0xE000 then None else Some(n)
    else if |s| == 4 && 0xF0 <= s[0] as int < 0xF5 && Continuation(s[1]) && Continuation(s[2]) && Continuation(s[3])
    then
      var n := (s[0] as int - 0xF0) * 0x4_0000 + (s[1] as int - 0x80) * 0x1000 + (s[2] as int - 0x80) * 0x40
             + (s[3] as int - 0x80);
      if n < 0x1_0000 || n >= 0x11_0000 then None else Some(n)
    else None
  }

  // The digits to base 64.
  lemma BaseDigits(code: nat)
    ensures code / 0x40 == code / 0x1000 * 0x40 + code / 0x40 % 0x40
    ensures code == code / 0x1000 * 0x1000 + code / 0x40 % 0x40 * 0x40 + code % 0x40
  {
    assert code / 0x40 / 0x40 == code / 0x1000;
  }

  lemma TwoBytes(code: nat)
    requires 0x80 <= code < 0x800
    ensures CodePoint(ToUtf8(code)) == Some(code) && AllBytes(ToUtf8(code))
  {
    var s := ToUtf8(code);
    assert |s| == 2 && s[0] as int == 0xC0 + code / 0x40 && s[1] as int == 0x80 + code % 0x40;
    hide ToUtf8;
  }

  lemma ThreeBytes(code: nat)
    requires 0x800 <= code < 0xD800 || 0xE000 <= code < 0x1_0000
    ensures CodePoint(ToUtf8(code)) == Some(code) && AllBytes(ToUtf8(code))
  {
    var s := ToUtf8(code);
    var a, b, c := code / 0x1000, code / 0x40 % 0x40, code % 0x40;
    BaseDigits(code);
    assert |s| == 3 && s[0] as int == 0xE0 + a && s[1] as int == 0x80 + b && s[2] as int == 0x80 + c;
    ThreeBytesRead(s, a, b, c);
    hide ToUtf8, CodePoint;
  }

  lemma ThreeBytesRead(s: string, a: nat, b: nat, c: nat)
    requires |s| == 3 && a < 16 && b < 0x40 && c < 0x40
    requires s[0] as int == 0xE0 + a && s[1] as int == 0x80 + b && s[2] as int == 0x80 + c
    requires var n := a * 0x1000 + b * 0x40 + c; n >= 0x800 && !(0xD800 <= n < 0xE000)
    ensures CodePoint(s) == Some(a * 0x1000 + b * 0x40 + c)
  {
  }

  lemma FourBytes(code: nat)
    requires 0x1_0000 <= code < 0x11_0000
    ensures CodePoint(ToUtf8(code)) == Some(code) && AllBytes(ToUtf8(code))
  {
    var s := ToUtf8(code);
    var q, b, c := code / 0x1000, code / 0x40 % 0x40, code % 0x40;
    BaseDigits(code);
    assert code / 0x4_0000 == q / 0x40 && q == q / 0x40 * 0x40 + q % 0x40;
    assert |s| == 4 && s[0] as int == 0xF0 + q / 0x40 && s[1] as int == 0x80 + q % 0x40;
    assert s[2] as int == 0x80 + b && s[3] as int == 0x80 + c;
    FourBytesRead(s, q / 0x40, q % 0x40, b, c);
    hide ToUtf8, CodePoint;
  }

  lemma FourBytesRead(s: string, a: nat, b: nat, c: nat, d: nat)
    requires |s| == 4 && a < 5 && b < 0x40 && c < 0x40 && d < 0x40
    requires s[0] as int == 0xF0 + a && s[1] as int == 0x80 + b && s[2] as int == 0x80 + c && s[3] as int == 0x80 + d
    requires 0x1_0000 <= a * 0x4_0000 + b * 0x1000 + c * 0x40 + d < 0x11_0000
    ensures CodePoint(s) == Some(a * 0x4_0000 + b * 0x1000 + c * 0x40 + d)
  {
  }

  // to_utf8 writes the bytes of every code point, and nothing for a surrogate or a
  // number beyond the last code point.
  lemma Utf8RoundTrip(code: nat)
    ensures CodePoint(ToUtf8(code)) == if 0xD800 <= code < 0xE000 || code >= 0x11_0000 then None else Some(code)
    ensures ToUtf8(code) == "" <==> 0xD800 <= code < 0xE000 || code >= 0x11_0000
    ensures AllBytes(ToUtf8(code))
  {
    if 0x80 <= code < 0x800 {
      TwoBytes(code);
    } else if 0x800 <= code < 0xD800 || 0xE000 <= code < 0x1_0000 {
      ThreeBytes(code);
    } else if 0x1_0000 <= code < 0x11_0000 {
      FourBytes(code);
    }
    assert CodePoint("") == None;
    if code >= 0x80 {
      hide CodePoint;
    }
  }

  // ---- pieces of a coded text ----

  datatype Piece =
    | Plain(c: char)
    | Pair(s: string, digits: seq<nat>)   // a percent sign and two digits
    | Point(s: string, digits: seq<nat>)  // a percent sign, u, and four digits

  predicate WellFormed(p: Piece) {
    match p
    case Plain(c) => c != '%'
    case Pair(s, digits) => |s| == 2 && Spells(s, digits, 16)
    case Point(s, digits) => |s| == 4 && Spells(s, digits, 16)
  }

  function TextOf(p: Piece): string {
    match p
    case Plain(c) => [c]
    case Pair(s, _) => "%" + s
    case Point(s, _) => "%u" + s
  }

  function BytesOf(p: Piece, plusToSpace: bool): string
    requires WellFormed(p)
  {
    match p
    case Plain(c) => if plusToSpace && c == '+' then " " else [c]
    case Pair(_, digits) => [(16 * digits[0] + digits[1]) as char]
    case Point(_, digits) => ToUtf8(4096 * digits[0] + 256 * digits[1] + 16 * digits[2] + digits[3])
  }

  function Texts(pieces: seq<Piece>): string {
    if pieces == [] then "" else TextOf(pieces[0]) + Texts(pieces[1..])
  }

  function Bytes(pieces: seq<Piece>, plusToSpace: bool): string
    requires forall i | 0 <= i < |pieces| :: WellFormed(pieces[i])
  {
    if pieces == [] then "" else BytesOf(pieces[0], plusToSpace) + Bytes(pieces[1..], plusToSpace)
  }

  // ---- digits ----

  lemma HexDigitRead(c: char, d: nat)
    requires d < 16 && IsDigit(c, d)
    ensures IsHex(c) == Some(d) && c != 'u'
  {
  }

  lemma {:induction false} HexDigitsRead(s: string, digits: seq<nat>, rest: string)
    requires Spells(s, digits, 16)
    ensures HexValue(s + rest, |s|) == Some(Value(digits, 16))
    decreases |s|
  {
    if s != "" {
      var n := |s| - 1;
      assert s + rest == s[..n] + ([s[n]] + rest);
      HexDigitsRead(s[..n], digits[..n], [s[n]] + rest);
      HexDigitRead(s[n], digits[n]);
      hide IsHex, IsDigit;
      HexPrefix(s + rest, n);
    }
  }

  // ---- one piece ----

  lemma PlainDecoded(c: char, rest: string, plusToSpace: bool)
    requires c != '%'
    ensures DecodeUrl([c] + rest, plusToSpace) ==
            (if plusToSpace && c == '+' then " " else [c]) + DecodeUrl(rest, plusToSpace)
  {
    assert ([c] + rest)[1..] == rest;
  }

  lemma PairDecoded(s: string, digits: seq<nat>, rest: string, plusToSpace: bool)
    requires |s| == 2 && Spells(s, digits, 16)
    ensures DecodeUrl("%" + s + rest, plusToSpace) ==
            [(16 * digits[0] + digits[1]) as char] + DecodeUrl(rest, plusToSpace)
  {
    var text := "%" + s + rest;
    HexDigitsRead(s, digits, rest);
    HexDigitRead(s[0], digits[0]);
    assert digits[..1][..0] == [];
    assert Value(digits[..1], 16) == digits[0];
    assert text[1..] == s + rest && text[3..] == rest;
    hide HexValue, Spells, IsDigit, Value;
  }

  lemma PointDecoded(s: string, digits: seq<nat>, rest: string, plusToSpace: bool)
    requires |s| == 4 && Spells(s, digits, 16)
    ensures DecodeUrl("%u" + s + rest, plusToSpace) ==
            ToUtf8(4096 * digits[0] + 256 * digits[1] + 16 * digits[2] + digits[3]) + DecodeUrl(rest, plusToSpace)
  {
    var text := "%u" + s + rest;
    HexDigitsRead(s, digits, rest);
    FourDigits(digits);
    assert text[2..] == s + rest && text[6..] == rest;
    hide HexValue, Spells, Value, ToUtf8;
  }

  lemma FourDigits(digits: seq<nat>)
    requires |digits| == 4
    ensures Value(digits, 16) == 4096 * digits[0] + 256 * digits[1] + 16 * digits[2] + digits[3]
  {
    var two := digits[..3][..2];
    assert two[..1][..0] == [];
    assert Value(two[..1], 16) == digits[0];
    assert Value(two, 16) == 16 * digits[0] + digits[1];
    assert Value(digits[..3], 16) == 256 * digits[0] + 16 * digits[1] + digits[2];
  }

  lemma PieceDecoded(p: Piece, rest: string, plusToSpace: bool)
    requires WellFormed(p)
    ensures DecodeUrl(TextOf(p) + rest, plusToSpace) == BytesOf(p, plusToSpace) + DecodeUrl(rest, plusToSpace)
  {
    hide DecodeUrl, Spells, ToUtf8;
    match p
    case Plain(c) => PlainDecoded(c, rest, plusToSpace);
    case Pair(s, digits) => PairDecoded(s, digits, rest, plusToSpace);
    case Point(s, digits) => PointDecoded(s, digits, rest, plusToSpace);
  }

  // A text made of such pieces is decoded piece by piece.
  lemma {:induction false} PiecesDecoded(pieces: seq<Piece>, rest: string, plusToSpace: bool)
    requires forall i | 0 <= i < |pieces| :: WellFormed(pieces[i])
    ensures DecodeUrl(Texts(pieces) + rest, plusToSpace) == Bytes(pieces, plusToSpace) + DecodeUrl(rest, plusToSpace)
  {
    hide DecodeUrl, TextOf, BytesOf, WellFormed;
    if pieces == [] {
      assert "" + rest == rest;
      assert "" + DecodeUrl(rest, plusToSpace) == DecodeUrl(rest, plusToSpace);
    } else {
      var more := Texts(pieces[1..]) + rest;
      assert Texts(pieces) + rest == TextOf(pieces[0]) + more;
      PieceDecoded(pieces[0], more, plusToSpace);
      PiecesDecoded(pieces[1..], rest, plusToSpace);
      assert BytesOf(pieces[0], plusToSpace) + (Bytes(pieces[1..], plusToSpace) + DecodeUrl(rest, plusToSpace))
          == BytesOf(pieces[0], plusToSpace) + Bytes(pieces[1..], plusToSpace) + DecodeUrl(rest, plusToSpace);
    }
  }

  // ---- other percent signs ----

  // The text begins with n hexadecimal digits.
  predicate Begins(s: string, n: nat) { n <= |s| && forall i | 0 <= i < n :: s[i] in "0123456789abcdefABCDEF" }

  lemma HexDigitIs(c: char)
    ensures IsHex(c).Some? ==> c in "0123456789abcdefABCDEF"
  {
  }

  lemma NoHexDigits(s: string, n: nat)
    requires !Begins(s, n)
    ensures HexValue(s, n) == None
  {
    if |s| >= n {
      var i :| 0 <= i < n && s[i] !in "0123456789abcdefABCDEF";
      HexDigitIs(s[i]);
      hide IsHex;
      NoHexPrefix(s, i, n);
    }
  }

  // A percent sign stays when neither two digits nor u and four digits follow.
  lemma StrayPercent(rest: string, plusToSpace: bool)
    requires !Begins(rest, 2) && !(rest != "" && rest[0] == 'u' && Begins(rest[1..], 4))
    ensures DecodeUrl("%" + rest, plusToSpace) == "%" + DecodeUrl(rest, plusToSpace)
  {
    var text := "%" + rest;
    assert text[1..] == rest;
    NoHexDigits(rest, 2);
    if rest != "" {
      assert text[2..] == rest[1..];
      if rest[0] == 'u' {
        NoHexDigits(rest[1..], 4);
      }
    }
    hide HexValue, Begins;
  }
}
