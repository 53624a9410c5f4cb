// Hexadecimal numbers in lower case: from_i_to_hex of btor/httplib.h, and the
// zero-padded words of getSHA1 in btor/butils.cpp.
module Hex {

  function HexDigit(d: nat): (c: char)
    requires d < 16
    ensures '0' <= c <= '9' || 'a' <= c <= 'f'
  {
    if d < 10 then ('0' as int + d) as char else ('a' as int + d - 10) as char
  }

  lemma DigitInTable(d: nat)
    requires d < 16
    ensures HexDigit(d) == "0123456789abcdef"[d]
  {
  }

  // Without leading zeros.
  function HexOf(n: nat): (s: string)
    ensures s != ""
  {
    if n < 16 then [HexDigit(n)] else HexOf(n / 16) + [HexDigit(n % 16)]
  }

  method FromIToHex(n: nat) returns (ret: string)
    ensures ret == HexOf(n)
  {
    ret := [HexDigit(n % 16)];
    var m: nat := n / 16;
    while m > 0
      invariant HexOf(n) == if m == 0 then ret else HexOf(m) + ret
    {
      ret := [HexDigit(m % 16)] + ret;
      m := m / 16;
    }
  }

  // With exactly k digits.
  function Fixed(n: nat, k: nat): (s: string)
    ensures |s| == k
  {
    if k == 0 then "" else Fixed(n / 16, k - 1) + [HexDigit(n % 16)]
  }

  function Pow16(k: nat): nat { if k == 0 then 1 else 16 * Pow16(k - 1) }

  // Padding on the left with zeros, as setw and setfill('0') do.
  function Pad(s: string, width: nat): string {
    if |s| >= width then s else seq(width - |s|, _ => '0') + s
  }

  lemma {:induction false} FixedZero(k: nat)
    ensures Fixed(0, k) == seq(k, _ => '0')
  {
    if k > 0 {
      FixedZero(k - 1);
    }
  }

  lemma {:induction false} PadIsFixed(n: nat, k: nat)
    requires n < Pow16(k) && k > 0
    ensures |HexOf(n)| <= k && Pad(HexOf(n), k) == Fixed(n, k)
  {
    if n < 16 {
      FixedZero(k - 1);
    } else {
      assert k > 1;
      PadIsFixed(n / 16, k - 1);
    }
  }
}
