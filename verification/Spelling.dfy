// How numbers are spelled, by a table of digits, and that Numbers reads every
// spelling: any number of leading zeros, letters of either case, white space and a
// sign in front, and any text behind.
module Spelling {
  import opened Numbers
  import opened Wrappers

  const LOWER := "0123456789abcdef"
  const UPPER := "0123456789ABCDEF"

  // The character is the digit d, in either case.
  predicate IsDigit(c: char, d: nat)
    requires d < 16
  {
    c == LOWER[d] || c == UPPER[d]
  }

  predicate Spells(s: string, digits: seq<nat>, base: nat)
    requires base <= 16
  {
    |s| == |digits| && forall i | 0 <= i < |s| :: digits[i] < base && IsDigit(s[i], digits[i])
  }

  // The most significant digit comes first.
  function Value(digits: seq<nat>, base: nat): nat {
    if digits == [] then 0 else base * Value(digits[..|digits| - 1], base) + digits[|digits| - 1]
  }

  // The text does not go on with a digit.
  predicate Ends(tail: string, base: nat) {
    tail == "" ||
    if base == 10 then tail[0] !in "0123456789" else tail[0] !in "0123456789abcdefABCDEF"
  }

  // A zero and what follows it look like the prefix 0x and a digit.
  predicate LooksPrefixed(prefix: string, s: string, tail: string, base: nat) {
    base == 16 && prefix == "" && s == "0" && |tail| > 1 && tail[0] in "xX" && tail[1] in "0123456789abcdefABCDEF"
  }

  predicate Blank(ws: string) { forall i | 0 <= i < |ws| :: ws[i] in [' ', '\t', '\n', 11 as char, 12 as char, '\r'] }

  predicate Prefix(prefix: string, base: nat) { prefix == "" || (base == 16 && (prefix == "0x" || prefix == "0X")) }

  // ---- single characters ----

  lemma DigitRead(c: char, d: nat)
    requires d < 16 && IsDigit(c, d)
    ensures DigitValue(c) == d && !IsSpace(c) && c != '-' && c != '+' && c != 'x' && c != 'X'
  {
  }

  lemma OtherCharacter(tail: string, base: nat)
    requires (base == 10 || base == 16) && Ends(tail, base) && tail != ""
    ensures DigitValue(tail[0]) >= base
  {
  }

  // ---- the digits ----

  lemma {:induction false} DigitsRead(s: string, digits: seq<nat>, base: nat)
    requires base <= 16 && Spells(s, digits, base)
    ensures DigitsValue(s, base) == Value(digits, base)
    ensures forall i | 0 <= i < |s| :: DigitValue(s[i]) < base
  {
    if s != "" {
      var n := |s| - 1;
      DigitsRead(s[..n], digits[..n], base);
      DigitRead(s[n], digits[n]);
      hide DigitValue, IsDigit;
    }
  }

  lemma DigitsAtStart(s: string, digits: seq<nat>, tail: string, base: nat)
    requires (base == 10 || base == 16) && s != "" && Spells(s, digits, base) && Ends(tail, base)
    ensures DigitsLength(s + tail, base) == |s|
    ensures DigitsValue((s + tail)[..|s|], base) == Value(digits, base)
  {
    DigitsRead(s, digits, base);
    if tail != "" {
      OtherCharacter(tail, base);
    }
    hide DigitValue, Spells, Ends;
    LengthOfDigits(s, tail, base);
    assert (s + tail)[..|s|] == s;
  }

  lemma SmallDigit(c: char)
    requires DigitValue(c) < 16
    ensures c in "0123456789abcdefABCDEF"
  {
  }

  // Otherwise the digits and what follows do not.
  lemma NoPrefix(s: string, digits: seq<nat>, tail: string)
    requires s != "" && Spells(s, digits, 16) && !LooksPrefixed("", s, tail, 16)
    ensures var t := s + tail;
            |t| > 2 && t[0] == '0' && DigitValue(t[2]) < 16 ==> t[1] != 'x' && t[1] != 'X'
  {
    var t := s + tail;
    if |s| > 1 {
      DigitRead(s[1], digits[1]);
    } else if |t| > 2 && t[0] == '0' && DigitValue(t[2]) < 16 {
      SmallDigit(t[2]);
      assert t[1] == tail[0] && t[2] == tail[1] && s == "0";
    }
    hide DigitValue, Spells;
  }

  lemma ScanDigitsSpelled(prefix: string, s: string, digits: seq<nat>, tail: string, base: nat)
    requires (base == 10 || base == 16) && Prefix(prefix, base)
    requires s != "" && Spells(s, digits, base) && Ends(tail, base) && !LooksPrefixed(prefix, s, tail, base)
    ensures ScanDigits(prefix + (s + tail), base) == Some(Value(digits, base))
  {
    var t := s + tail;
    DigitsAtStart(s, digits, tail, base);
    DigitRead(s[0], digits[0]);
    hide DigitsLength, DigitsValue, DigitValue, Ends, Spells;
    if prefix == "" {
      if base == 16 {
        NoPrefix(s, digits, tail);
      }
      assert prefix + t == t;
    } else {
      assert (prefix + t)[2..] == t && (prefix + t)[2] == s[0];
    }
  }

  lemma {:induction false} BlanksSkipped(ws: string, t: string)
    requires Blank(ws) && (t != "" ==> !IsSpace(t[0]))
    ensures SkipSpace(ws + t) == t
  {
    if ws == "" {
      assert ws + t == t;
    } else {
      assert ws[0] in [' ', '\t', '\n', 11 as char, 12 as char, '\r'];
      assert (ws + t)[1..] == ws[1..] + t;
      BlanksSkipped(ws[1..], t);
    }
  }

  // White space, a sign, the prefix 0x in base 16, and digits: their number is read,
  // whatever follows that is not a digit.
  lemma ScanSpelled(
    ws: string, sign: string, prefix: string, s: string, digits: seq<nat>, tail: string, base: nat)
    requires (base == 10 || base == 16) && Blank(ws) && sign in ["", "+", "-"] && Prefix(prefix, base)
    requires s != "" && Spells(s, digits, base) && Ends(tail, base) && !LooksPrefixed(prefix, s, tail, base)
    ensures Scan(ws + (sign + (prefix + (s + tail))), base) == Some(Number(sign == "-", Value(digits, base)))
  {
    var t := prefix + (s + tail);
    ScanDigitsSpelled(prefix, s, digits, tail, base);
    DigitRead(s[0], digits[0]);
    assert t[0] == if prefix == "" then s[0] else '0';
    BlanksSkipped(ws, sign + t);
    hide ScanDigits, SkipSpace, Spells, Ends, Value, DigitValue;
    if sign == "" {
      assert sign + t == t;
    } else {
      assert (sign + t)[1..] == t;
    }
  }

  // Without a digit there is no number.
  lemma ScanNothing(ws: string, sign: string, tail: string, base: nat)
    requires (base == 10 || base == 16) && Blank(ws) && sign in ["", "+", "-"] && Ends(tail, base)
    requires sign == "" && tail != "" ==> tail[0] !in "+-" && !Blank(tail[..1])
    ensures Scan(ws + (sign + tail), base) == None
  {
    if tail != "" {
      OtherCharacter(tail, base);
      assert tail[..1] == [tail[0]];
    }
    assert sign + tail != "" ==> !IsSpace((sign + tail)[0]);
    BlanksSkipped(ws, sign + tail);
    if sign == "" {
      assert sign + tail == tail;
    } else {
      assert (sign + tail)[1..] == tail;
    }
    hide SkipSpace;
  }

  // ---- the three functions of the library ----

  // strtoul: negated modulo 2^32, and the largest number on overflow.
  lemma StrtoulReads(
    ws: string, sign: string, prefix: string, s: string, digits: seq<nat>, tail: string, base: nat)
    requires (base == 10 || base == 16) && Blank(ws) && sign in ["", "+", "-"] && Prefix(prefix, base)
    requires s != "" && Spells(s, digits, base) && Ends(tail, base) && !LooksPrefixed(prefix, s, tail, base)
    ensures var v := Value(digits, base);
            Strtoul(ws + (sign + (prefix + (s + tail))), base) ==
            Some(if v > 0xFFFF_FFFF then 0xFFFF_FFFF
                 else if sign == "-" then (0x1_0000_0000 - v) % 0x1_0000_0000
                 else v)
  {
    ScanSpelled(ws, sign, prefix, s, digits, tail, base);
    hide Scan, Spells, Value;
  }

  // std::stoul: the same, but it throws on overflow.
  lemma StoulReads(
    ws: string, sign: string, prefix: string, s: string, digits: seq<nat>, tail: string, base: nat)
    requires (base == 10 || base == 16) && Blank(ws) && sign in ["", "+", "-"] && Prefix(prefix, base)
    requires s != "" && Spells(s, digits, base) && Ends(tail, base) && !LooksPrefixed(prefix, s, tail, base)
    ensures var v := Value(digits, base);
            Stoul(ws + (sign + (prefix + (s + tail))), base) ==
            (if v > 0xFFFF_FFFF then None
             else if sign == "-" then Some((0x1_0000_0000 - v) % 0x1_0000_0000)
             else Some(v))
  {
    ScanSpelled(ws, sign, prefix, s, digits, tail, base);
    hide Scan, Spells, Value;
  }

  // std::stoi: the range of int is from -2^31 to 2^31 - 1.
  lemma StoiReads(ws: string, sign: string, s: string, digits: seq<nat>, tail: string)
    requires Blank(ws) && sign in ["", "+", "-"]
    requires s != "" && Spells(s, digits, 10) && Ends(tail, 10)
    ensures var v: int := if sign == "-" then -(Value(digits, 10) as int) else Value(digits, 10);
            Stoi(ws + (sign + (s + tail))) == if -0x8000_0000 <= v < 0x8000_0000 then Some(v) else None
  {
    ScanSpelled(ws, sign, "", s, digits, tail, 10);
    assert "" + (s + tail) == s + tail;
    hide Scan, Spells, Value;
  }

  // In particular a size line: the number, in any spelling, and any text that does
  // not go on with a digit.
  lemma SizeRead(s: string, digits: seq<nat>, tail: string)
    requires s != "" && Spells(s, digits, 16) && Ends(tail, 16) && Value(digits, 16) <= ULONG_MAX
    requires !LooksPrefixed("", s, tail, 16)
    ensures Strtoul(s + tail, 16) == Some(Value(digits, 16)) && Stoul(s + tail, 16) == Some(Value(digits, 16))
  {
    StrtoulReads("", "", "", s, digits, tail, 16);
    StoulReads("", "", "", s, digits, tail, 16);
    assert "" + ("" + ("" + (s + tail))) == s + tail;
    hide Strtoul, Stoul, Spells, Value;
  }
}
