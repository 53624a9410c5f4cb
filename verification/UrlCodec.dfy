// Percent coding: encode_query_param and decode_url of btor/httplib.h.  A byte is a
// character below 256.
module UrlCodec {
  import opened Wrappers

  predicate IsByte(c: char) { c as int < 256 }

  predicate AllBytes(s: string) { forall i | 0 <= i < |s| :: IsByte(s[i]) }

  function IsHex(c: char): (v: Option<nat>)
    ensures v.Some? ==> v.value < 16
  {
    if '0' <= c <= '9' then Some(c as int - '0' as int)
    else if 'A' <= c <= 'F' then Some(c as int - 'A' as int + 10)
    else if 'a' <= c <= 'f' then Some(c as int - 'a' as int + 10)
    else None
  }

  // The value of the first cnt characters of s, if they are hexadecimal digits.
  function HexValue(s: string, cnt: nat): Option<nat> {
    if cnt == 0 then Some(0)
    else if |s| < cnt then None
    else
      match (HexValue(s[..cnt - 1], cnt - 1), IsHex(s[cnt - 1]))
      case (Some(v), Some(d)) => Some(16 * v + d)
      case _ => None
  }

  method FromHexToI(s: string, i: nat, cnt: nat) returns (ok: bool, val: int)
    ensures var v := if i < |s| then HexValue(s[i..], cnt) else None;
            ok == v.Some? && (ok ==> val == v.value)
  {
    if i >= |s| {
      return false, 0;
    }
    val := 0;
    var k := 0;
    while k < cnt
      invariant k <= cnt && i + k <= |s|
      invariant HexValue(s[i..], k) == Some(val)
    {
      // Reading s[s.size()] yields the terminating NUL.
      if i + k == |s| || s[i + k] == '\0' {
        NoHexPrefix(s[i..], k, cnt);
        return false, 0;
      }
      var v := IsHex(s[i + k]);
      if v.None? {
        NoHexPrefix(s[i..], k, cnt);
        return false, 0;
      }
      assert s[i..][..k + 1][..k] == s[i..][..k];
      HexPrefix(s[i..], k);
      val := val * 16 + v.value;
      k := k + 1;
    }
    return true, val;
  }

  lemma {:induction false} HexPrefix(s: string, k: nat)
    requires k <= |s|
    ensures HexValue(s[..k], k) == HexValue(s, k)
  {
    if k > 0 {
      assert s[..k][..k - 1] == s[..k - 1];
    }
  }

  lemma {:induction false} NoHexPrefix(s: string, k: nat, cnt: nat)
    requires k < cnt && (k == |s| || (k < |s| && IsHex(s[k]).None?))
    ensures HexValue(s, cnt) == None
    decreases cnt
  {
    if |s| >= cnt && k < cnt - 1 {
      NoHexPrefix(s[..cnt - 1], k, cnt - 1);
    }
  }

  function Byte(n: int): (c: char)
    requires 0 <= n < 256
    ensures IsByte(c) && c as int == n
  {
    n as char
  }

  // to_utf8
  function ToUtf8(code: nat): string {
    if code < 0x80 then [Byte(code)]
    else if code < 0x800 then [Byte(0xC0 + code / 64 % 32), Byte(0x80 + code % 64)]
    else if code < 0xD800 then
      [Byte(0xE0 + code / 4096 % 16), Byte(0x80 + code / 64 % 64), Byte(0x80 + code % 64)]
    else if code < 0xE000 then ""
    else if code < 0x10000 then
      [Byte(0xE0 + code / 4096 % 16), Byte(0x80 + code / 64 % 64), Byte(0x80 + code % 64)]
    else if code < 0x110000 then
      [Byte(0xF0 + code / 262144 % 8), Byte(0x80 + code / 4096 % 64), Byte(0x80 + code / 64 % 64),
       Byte(0x80 + code % 64)]
    else ""
  }

  // What decode_url makes of the text at its cursor: the decoded bytes, and how
  // many characters they stand for.
  function DecodeStep(s: string, plusToSpace: bool): (r: (string, nat))
    requires s != ""
    ensures 0 < r.1 <= |s|
  {
    if s[0] == '%' && |s| > 1 then
      if s[1] == 'u' then
        match HexValue(s[2..], 4)
        case Some(v) => (ToUtf8(v), 6)
        case None => ("%", 1)
      else
        match HexValue(s[1..], 2)
        case Some(v) => (HexPairFits(s[1..]); [Byte(v)], 3)
        case None => ("%", 1)
    else if plusToSpace && s[0] == '+' then (" ", 1)
    else ([s[0]], 1)
  }

  lemma HexPairFits(s: string)
    requires HexValue(s, 2).Some?
    ensures HexValue(s, 2).value < 256
  {
    assert HexValue(s[..1][..0], 0) == Some(0);
  }

  function DecodeUrl(s: string, plusToSpace: bool): string {
    if s == "" then ""
    else
      var (bytes, n) := DecodeStep(s, plusToSpace);
      bytes + DecodeUrl(s[n..], plusToSpace)
  }

  // The body of the loop: the bytes appended, and the characters skipped in
  // addition to the one at i.
  method DecodeAt(s: string, i: nat, plusToSpace: bool) returns (bytes: string, skip: nat)
    requires i < |s|
    ensures (bytes, skip + 1) == DecodeStep(s[i..], plusToSpace)
  {
    if s[i] == '%' && i + 1 < |s| {
      if s[i + 1] == 'u' {
        assert s[i..][2..] == s[i + 2..];
        var ok, val := FromHexToI(s, i + 2, 4);
        if ok {
          return ToUtf8(val), 5;
        } else {
          return [s[i]], 0;
        }
      } else {
        assert s[i..][1..] == s[i + 1..];
        var ok, val := FromHexToI(s, i + 1, 2);
        if ok {
          HexPairFits(s[i + 1..]);
          return [Byte(val)], 2;
        } else {
          return [s[i]], 0;
        }
      }
    } else if plusToSpace && s[i] == '+' {
      return " ", 0;
    } else {
      return [s[i]], 0;
    }
  }

  method DecodeUrlLoop(s: string, plusToSpace: bool) returns (result: string)
    ensures result == DecodeUrl(s, plusToSpace)
  {
    hide DecodeStep;
    result := "";
    var i := 0;
    while i < |s|
      invariant 0 <= i <= |s|
      invariant result + DecodeUrl(s[i..], plusToSpace) == DecodeUrl(s, plusToSpace)
    {
      var bytes, skip := DecodeAt(s, i, plusToSpace);
      assert s[i..][skip + 1..] == s[i + skip + 1..];
      result := result + bytes;
      i := i + skip + 1;
    }
  }

  // ---- encode_query_param ----

  predicate IsAlnum(c: char) { '0' <= c <= '9' || 'A' <= c <= 'Z' || 'a' <= c <= 'z' }

  predicate IsSafe(c: char) {
    IsAlnum(c) || c in "-_.!~*'()"
  }

  function UpperHex(d: nat): (c: char)
    requires d < 16
    ensures IsHex(c) == Some(d) && c != 'u'
  {
    if d < 10 then ('0' as int + d) as char else ('A' as int + d - 10) as char
  }

  // Two hexadecimal digits in upper case, as the stream prints a byte with
  // setw(2) and fill '0'.
  function EncodeChar(c: char): string
    requires IsByte(c)
  {
    if IsSafe(c) then [c] else ['%', UpperHex(c as int / 16), UpperHex(c as int % 16)]
  }

  // The unreserved characters of section 2.3 of RFC 2396.
  predicate Unreserved(c: char) {
    || 'A' <= c <= 'Z' || 'a' <= c <= 'z' || '0' <= c <= '9'
    || c == '-' || c == '_' || c == '.' || c == '!' || c == '~' || c == '*' || c == '\'' || c == '(' || c == ')'
  }

  const DIGITS := "0123456789ABCDEF"

  // How many characters the encoding of a text has.
  function Width(value: string): nat {
    if value == "" then 0
    else Width(value[..|value| - 1]) + (if Unreserved(value[|value| - 1]) then 1 else 3)
  }

  // The character c at this place of the encoding: itself, or a percent sign and two
  // digits.
  predicate StandsAt(escaped: string, at: nat, c: char)
    requires IsByte(c)
  {
    if Unreserved(c) then at < |escaped| && escaped[at] == c
    else at + 3 <= |escaped| && escaped[at..at + 3] == ['%', DIGITS[c as int / 16], DIGITS[c as int % 16]]
  }

  // The result is decoded to the value, and every character of the value stands in it,
  // in order, as itself or as a percent sign and two digits.
  method EncodeQueryParam(value: string) returns (escaped: string)
    requires AllBytes(value)
    ensures forall plusToSpace :: DecodeUrl(escaped, plusToSpace) == value
    ensures |escaped| == Width(value)
    ensures forall i | 0 <= i < |value| :: StandsAt(escaped, Width(value[..i]), value[i])
    ensures forall k | 0 <= k < |escaped| :: Unreserved(escaped[k]) || escaped[k] == '%'
  {
    escaped := "";
    var i := 0;
    while i < |value|
      invariant 0 <= i <= |value|
      invariant escaped == Encoded(value[..i])
    {
      assert value[..i + 1][..i] == value[..i];
      escaped := escaped + EncodeChar(value[i]);
      i := i + 1;
    }
    assert value[..i] == value;
    forall plusToSpace: bool
      ensures DecodeUrl(escaped, plusToSpace) == value
    {
      EncodeDecode(value, plusToSpace);
    }
    EncodedCharacters(value);
    forall k | 0 <= k < |value|
      ensures StandsAt(escaped, Width(value[..k]), value[k])
    {
      EncodedInOrder(value, k);
    }
    hide Encoded, EncodeChar, Width, DecodeUrl, StandsAt, Unreserved;
  }

  function Encoded(value: string): string
    requires AllBytes(value)
  {
    if value == "" then "" else Encoded(value[..|value| - 1]) + EncodeChar(value[|value| - 1])
  }

  // ---- what the encoding looks like ----

  lemma DigitIsUnreserved(d: nat)
    requires d < 16
    ensures UpperHex(d) == DIGITS[d] && Unreserved(DIGITS[d])
  {
  }

  lemma EncodedCharIs(c: char)
    requires IsByte(c)
    ensures EncodeChar(c) ==
            if Unreserved(c) then [c] else ['%', DIGITS[c as int / 16], DIGITS[c as int % 16]]
    ensures forall k | 0 <= k < |EncodeChar(c)| :: Unreserved(EncodeChar(c)[k]) || EncodeChar(c)[k] == '%'
  {
    hide UpperHex;
    DigitIsUnreserved(c as int / 16);
    DigitIsUnreserved(c as int % 16);
  }

  lemma StandsAtEnd(front: string, c: char)
    requires IsByte(c)
    ensures StandsAt(front + EncodeChar(c), |front|, c)
  {
    EncodedCharIs(c);
    var s := front + EncodeChar(c);
    assert s[|front|..] == EncodeChar(c);
  }

  lemma StandsStill(front: string, more: string, at: nat, c: char)
    requires IsByte(c) && StandsAt(front, at, c)
    ensures StandsAt(front + more, at, c)
  {
    if !Unreserved(c) {
      assert (front + more)[at..at + 3] == front[at..at + 3];
    }
  }

  lemma {:induction false} EncodedCharacters(value: string)
    requires AllBytes(value)
    ensures |Encoded(value)| == Width(value)
    ensures forall k | 0 <= k < |Encoded(value)| :: Unreserved(Encoded(value)[k]) || Encoded(value)[k] == '%'
  {
    if value != "" {
      var n := |value| - 1;
      EncodedCharacters(value[..n]);
      EncodedCharIs(value[n]);
      hide EncodeChar, IsByte, Unreserved;
    }
  }

  lemma {:induction false} EncodedInOrder(value: string, i: nat)
    requires AllBytes(value) && i < |value|
    ensures StandsAt(Encoded(value), Width(value[..i]), value[i])
  {
    hide EncodeChar, IsByte, StandsAt, Unreserved;
    var n := |value| - 1;
    if i < n {
      assert value[..n][..i] == value[..i];
      EncodedInOrder(value[..n], i);
      StandsStill(Encoded(value[..n]), EncodeChar(value[n]), Width(value[..i]), value[i]);
    } else {
      EncodedCharacters(value[..n]);
      StandsAtEnd(Encoded(value[..n]), value[n]);
    }
  }

  // One encoded character is decoded first, whatever follows it.
  lemma DecodeEncodedChar(c: char, rest: string, plusToSpace: bool)
    requires IsByte(c)
    ensures DecodeUrl(EncodeChar(c) + rest, plusToSpace) == [c] + DecodeUrl(rest, plusToSpace)
  {
    var s := EncodeChar(c) + rest;
    if IsSafe(c) {
      assert s[1..] == rest;
    } else {
      var t := s[1..];
      assert t[..1][..0] == "" && t[..1][0] == UpperHex(c as int / 16);
      assert HexValue(t[..1], 1) == Some(c as int / 16);
      assert HexValue(t, 2) == Some(c as int);
      assert s[3..] == rest;
    }
  }

  lemma {:induction false} EncodeDecodeBefore(value: string, rest: string, plusToSpace: bool)
    requires AllBytes(value)
    ensures DecodeUrl(Encoded(value) + rest, plusToSpace) == value + DecodeUrl(rest, plusToSpace)
  {
    hide DecodeUrl, EncodeChar;
    if value == "" {
      assert "" + rest == rest;
    } else {
      var front, c := value[..|value| - 1], value[|value| - 1];
      assert Encoded(value) + rest == Encoded(front) + (EncodeChar(c) + rest);
      EncodeDecodeBefore(front, EncodeChar(c) + rest, plusToSpace);
      DecodeEncodedChar(c, rest, plusToSpace);
      assert value == front + [c];
    }
  }

  // Decoding undoes encoding, with and without the plus sign meaning a space.
  lemma EncodeDecode(value: string, plusToSpace: bool)
    requires AllBytes(value)
    ensures DecodeUrl(Encoded(value), plusToSpace) == value
  {
    EncodeDecodeBefore(value, "", plusToSpace);
    assert Encoded(value) + "" == Encoded(value);
  }
}
