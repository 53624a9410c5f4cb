// What strtoul, std::stoul and std::stoi of the C++ library read from a text, for
// the bases 10 and 16.
module Numbers {
  import opened Hex
  import opened Wrappers

  // unsigned long has 32 bits on Windows.
  const ULONG_MAX: nat := 0xFFFF_FFFF
  const INT_MAX: int := 0x7FFF_FFFF

  // isspace in the C locale
  predicate IsSpace(c: char) { c == ' ' || '\t' <= c <= '\r' }

  // The value of a digit, or 99.
  function DigitValue(c: char): nat {
    if '0' <= c <= '9' then c as int - '0' as int
    else if 'a' <= c <= 'z' then c as int - 'a' as int + 10
    else if 'A' <= c <= 'Z' then c as int - 'A' as int + 10
    else 99
  }

  // How many leading characters of s are digits.
  function DigitsLength(s: string, base: nat): (n: nat)
    ensures n <= |s|
  {
    if s == "" || DigitValue(s[0]) >= base then 0 else 1 + DigitsLength(s[1..], base)
  }

  function DigitsValue(s: string, base: nat): nat {
    if s == "" then 0 else base * DigitsValue(s[..|s| - 1], base) + DigitValue(s[|s| - 1])
  }

  datatype Number = Number(negative: bool, magnitude: nat)

  function SkipSpace(s: string): string {
    if s != "" && IsSpace(s[0]) then SkipSpace(s[1..]) else s
  }

  // The digits at the start of s, after 0x in base 16.
  function ScanDigits(s: string, base: nat): Option<nat> {
    var t := if base == 16 && |s| > 2 && s[0] == '0' && (s[1] == 'x' || s[1] == 'X') && DigitValue(s[2]) < 16
             then s[2..] else s;
    var n := DigitsLength(t, base);
    if n == 0 then None else Some(DigitsValue(t[..n], base))
  }

  // White space, an optional sign, digits; the rest of the text is ignored.
  function Scan(s: string, base: nat): Option<Number> {
    var t := SkipSpace(s);
    var signed := t != "" && (t[0] == '-' || t[0] == '+');
    match ScanDigits(if signed then t[1..] else t, base)
    case None => None
    case Some(m) => Some(Number(signed && t[0] == '-', m))
  }

  // A number as an unsigned long: negated modulo 2^32, ULONG_MAX on overflow.
  function AsUlong(n: Number): (v: nat)
    ensures v <= ULONG_MAX
  {
    if n.magnitude > ULONG_MAX then ULONG_MAX
    else if n.negative && n.magnitude > 0 then ULONG_MAX + 1 - n.magnitude
    else n.magnitude
  }

  // strtoul; None when end_ptr is the start of the text.
  function Strtoul(s: string, base: nat): Option<nat> {
    match Scan(s, base)
    case None => None
    case Some(n) => Some(AsUlong(n))
  }

  // std::stoul; None when it throws.
  function Stoul(s: string, base: nat): Option<nat> {
    match Scan(s, base)
    case None => None
    case Some(n) => if n.magnitude > ULONG_MAX then None else Some(AsUlong(n))
  }

  // std::stoi; None when it throws.
  function Stoi(s: string): Option<int> {
    match Scan(s, 10)
    case None => None
    case Some(n) =>
      var v: int := if n.negative then -(n.magnitude as int) else n.magnitude;
      if -INT_MAX - 1 <= v <= INT_MAX then Some(v) else None
  }

  // ---- hexadecimal numbers written by from_i_to_hex ----

  lemma {:induction false} ValueOfHex(n: nat)
    ensures DigitsValue(HexOf(n), 16) == n
    ensures forall i | 0 <= i < |HexOf(n)| :: DigitValue(HexOf(n)[i]) < 16
  {
    var s := HexOf(n);
    if n < 16 {
      assert s[..0] == "";
    } else {
      ValueOfHex(n / 16);
      assert s[..|s| - 1] == HexOf(n / 16);
    }
  }

  lemma {:induction false} LengthOfDigits(s: string, tail: string, base: nat)
    requires forall i | 0 <= i < |s| :: DigitValue(s[i]) < base
    requires tail == "" || DigitValue(tail[0]) >= base
    ensures DigitsLength(s + tail, base) == |s|
  {
    if s == "" {
      assert s + tail == tail;
    } else {
      assert (s + tail)[1..] == s[1..] + tail;
      LengthOfDigits(s[1..], tail, base);
    }
  }

  predicate EndsHex(tail: string) {
    tail == "" || (DigitValue(tail[0]) >= 16 && tail[0] != 'x' && tail[0] != 'X')
  }

  lemma ScanDigitsHex(n: nat, tail: string)
    requires EndsHex(tail)
    ensures ScanDigits(HexOf(n) + tail, 16) == Some(n)
  {
    var s, h := HexOf(n) + tail, HexOf(n);
    ValueOfHex(n);
    LengthOfDigits(h, tail, 16);
    assert s[..|h|] == h;
    assert |s| > 2 ==> s[1] == if |h| > 1 then h[1] else tail[0];
  }

  // The hexadecimal number is read back, up to the first other character.
  lemma ScanHex(n: nat, tail: string)
    requires EndsHex(tail)
    ensures Scan(HexOf(n) + tail, 16) == Some(Number(false, n))
  {
    ValueOfHex(n);
    ScanDigitsHex(n, tail);
    var s := HexOf(n) + tail;
    assert DigitValue(s[0]) < 16;
    assert SkipSpace(s) == s;
    hide ScanDigits, HexOf, SkipSpace;
  }

  lemma StrtoulHex(n: nat, tail: string)
    requires n <= ULONG_MAX
    requires EndsHex(tail)
    ensures Strtoul(HexOf(n) + tail, 16) == Some(n) && Stoul(HexOf(n) + tail, 16) == Some(n)
  {
    ScanHex(n, tail);
  }
}
