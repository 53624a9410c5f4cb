// base64_encode of btor/httplib.h, whose 32-bit accumulator wraps around, against
// the encoding and decoding of section 4 of RFC 4648.
module Base64 {
  import opened UrlCodec
  import opened Wrappers
  import opened Wrapping

  // ---- RFC 4648 ----

  // Table 1.
  function Letter(d: nat): (c: char)
    requires d < 64
    ensures Index(c) == Some(d) && c != '='
  {
    if d < 26 then ('A' as int + d) as char
    else if d < 52 then ('a' as int + d - 26) as char
    else if d < 62 then ('0' as int + d - 52) as char
    else if d == 62 then '+' else '/'
  }

  function Index(c: char): (d: Option<nat>)
    ensures d.Some? ==> d.value < 64
  {
    if 'A' <= c <= 'Z' then Some(c as int - 'A' as int)
    else if 'a' <= c <= 'z' then Some(c as int - 'a' as int + 26)
    else if '0' <= c <= '9' then Some(c as int - '0' as int + 52)
    else if c == '+' then Some(62)
    else if c == '/' then Some(63)
    else None
  }

  // The table, as section 4 of RFC 4648 prints it.
  const UPPER := "ABCDEFGHIJKLMNOPQRSTUVWXYZ"
  const LOWER := "abcdefghijklmnopqrstuvwxyz"
  const OTHERS := "0123456789+/"

  lemma LetterInTable(d: nat)
    requires d < 64
    ensures Letter(d) == if d < 26 then UPPER[d] else if d < 52 then LOWER[d - 26] else OTHERS[d - 52]
  {
    if d < 26 {
      UpperLetter(d);
    } else if d < 52 {
      LowerLetter(d - 26);
    }
  }

  lemma UpperLetter(d: nat)
    requires d < 26
    ensures UPPER[d] as int == 'A' as int + d
  {
  }

  lemma LowerLetter(d: nat)
    requires d < 26
    ensures LOWER[d] as int == 'a' as int + d
  {
  }

  // Three bytes are four sextets, and back.
  function Sextet1(x: nat): nat { x / 4 }
  function Sextet2(x: nat, y: nat): nat { x % 4 * 16 + y / 16 }
  function Sextet3(y: nat, z: nat): nat { y % 16 * 4 + z / 64 }
  function Sextet4(z: nat): nat { z % 64 }
  function Byte1(a: nat, b: nat): nat { a * 4 + b / 16 }
  function Byte2(b: nat, c: nat): nat { b % 16 * 16 + c / 4 }
  function Byte3(c: nat, d: nat): nat { c % 4 * 64 + d }

  lemma SextetsFit(x: nat, y: nat, z: nat)
    requires x < 256 && y < 256 && z < 256
    ensures Sextet1(x) < 64 && Sextet2(x, y) < 64 && Sextet3(y, z) < 64 && Sextet4(z) < 64
  {
  }

  lemma BytesFit(a: nat, b: nat, c: nat, d: nat)
    requires a < 64 && b < 64 && c < 64 && d < 64
    ensures Byte1(a, b) < 256 && Byte2(b, c) < 256 && Byte3(c, d) < 256
  {
  }

  // A group of 24 input bits as four letters.
  function Quantum(x: nat, y: nat, z: nat): (s: string)
    requires x < 256 && y < 256 && z < 256
    ensures |s| == 4
  {
    SextetsFit(x, y, z);
    [Letter(Sextet1(x)), Letter(Sextet2(x, y)), Letter(Sextet3(y, z)), Letter(Sextet4(z))]
  }

  function Encode(s: string): (t: string)
    requires AllBytes(s)
    ensures |t| == 4 * ((|s| + 2) / 3)
  {
    if s == "" then ""
    else if |s| == 1 then Quantum(s[0] as int, 0, 0)[..2] + "=="
    else if |s| == 2 then Quantum(s[0] as int, s[1] as int, 0)[..3] + "="
    else Quantum(s[0] as int, s[1] as int, s[2] as int) + Encode(s[3..])
  }

  // The decoder: padding may stand only at the end.
  function Decode(t: string): (s: Option<string>) {
    if t == "" then Some("")
    else if |t| < 4 then None
    else
      match (Index(t[0]), Index(t[1]), Index(t[2]), Index(t[3]), Decode(t[4..]))
      case (Some(a), Some(b), Some(c), Some(d), Some(rest)) =>
        BytesFit(a, b, c, d);
        Some([Byte(Byte1(a, b)), Byte(Byte2(b, c)), Byte(Byte3(c, d))] + rest)
      case (Some(a), Some(b), Some(c), None, Some(rest)) =>
        BytesFit(a, b, c, 0);
        if t[3..] == "=" then Some([Byte(Byte1(a, b)), Byte(Byte2(b, c))]) else None
      case (Some(a), Some(b), None, None, Some(rest)) =>
        BytesFit(a, b, 0, 0);
        if t[2..] == "==" then Some([Byte(Byte1(a, b))]) else None
      case _ => None
  }

  lemma Base64Digits(n: nat, a: nat, b: nat, c: nat, d: nat)
    requires n == 64 * (64 * (64 * a + b) + c) + d && a < 64 && b < 64 && c < 64 && d < 64
    ensures n / 0x4_0000 == a && n / 0x1000 % 64 == b && n / 64 % 64 == c && n % 64 == d
  {
    assert n / 64 == 64 * (64 * a + b) + c;
    assert n / 0x1000 == 64 * a + b;
  }

  lemma SextetsSum(x: nat, y: nat, z: nat)
    requires x < 256 && y < 256 && z < 256
    ensures 0x1_0000 * x + 0x100 * y + z ==
            64 * (64 * (64 * Sextet1(x) + Sextet2(x, y)) + Sextet3(y, z)) + Sextet4(z)
  {
    assert x == 4 * (x / 4) + x % 4 && y == 16 * (y / 16) + y % 16 && z == 64 * (z / 64) + z % 64;
  }

  // The sextets are the digits to base 64 of the 24 bits as a number.
  lemma SextetsOf24Bits(x: nat, y: nat, z: nat)
    requires x < 256 && y < 256 && z < 256
    ensures var n := 0x1_0000 * x + 0x100 * y + z;
            && Sextet1(x) == n / 0x4_0000 && Sextet2(x, y) == n / 0x1000 % 64
            && Sextet3(y, z) == n / 64 % 64 && Sextet4(z) == n % 64
  {
    SextetsFit(x, y, z);
    SextetsSum(x, y, z);
    hide Sextet1, Sextet2, Sextet3, Sextet4;
    Base64Digits(0x1_0000 * x + 0x100 * y + z, Sextet1(x), Sextet2(x, y), Sextet3(y, z), Sextet4(z));
  }

  lemma BytesOfSextets(x: nat, y: nat, z: nat)
    requires x < 256 && y < 256 && z < 256
    ensures Byte1(Sextet1(x), Sextet2(x, y)) == x
    ensures Byte2(Sextet2(x, y), Sextet3(y, z)) == y
    ensures Byte3(Sextet3(y, z), Sextet4(z)) == z
  {
  }

  // Test vectors of section 10 of RFC 4648.
  lemma Vectors()
    ensures Encode("f") == "Zg==" && Encode("fo") == "Zm8=" && Encode("foo") == "Zm9v"
  {
    assert "foo"[3..] == "";
  }

  lemma {:induction false} EncodeDecode(s: string)
    requires AllBytes(s)
    ensures Decode(Encode(s)) == Some(s)
  {
    hide Letter, Index, Sextet1, Sextet2, Sextet3, Sextet4, Byte1, Byte2, Byte3;
    if s != "" {
      var x, y, z := s[0] as int, if |s| > 1 then s[1] as int else 0, if |s| > 2 then s[2] as int else 0;
      SextetsFit(x, y, z);
      BytesOfSextets(x, y, z);
      var t := Encode(s);
      NoIndexOfPadding();
      if |s| == 1 {
        assert t[4..] == "" && t[2..] == "==" && s == [s[0]];
      } else if |s| == 2 {
        assert t[4..] == "" && t[3..] == "=" && s == [s[0], s[1]];
      } else {
        EncodeDecode(s[3..]);
        assert t[4..] == Encode(s[3..]);
        assert s == [s[0], s[1], s[2]] + s[3..];
      }
    }
  }

  lemma NoIndexOfPadding()
    ensures Index('=') == None
  {
  }

  // ---- the implementation ----

  function Pow2(n: nat): (p: nat)
    ensures p > 0
  {
    if n == 0 then 1 else 2 * Pow2(n - 1)
  }

  // val >> n & 0x3F; the shift rounds towards negative infinity.
  function Sextet(val: int, n: nat): (d: nat)
    ensures d < 64
  {
    (val / Pow2(n)) % 64
  }

  // What it puts out for the byte c after the byte b, in each phase.
  function Piece(phase: nat, b: nat, c: nat): string
    requires phase < 3 && b < 256 && c < 256
  {
    SextetsFit(b, c, 0);
    SextetsFit(0, b, c);
    SextetsFit(c, 0, 0);
    if phase == 0 then [Letter(Sextet1(c))]
    else if phase == 1 then [Letter(Sextet2(b, c))]
    else [Letter(Sextet3(b, c)), Letter(Sextet4(c))]
  }

  function LastByte(s: string): (b: nat)
    requires AllBytes(s)
    ensures b < 256
  {
    if s == "" then 0 else s[|s| - 1] as int
  }

  // What the loop has put out after the bytes s.
  function Emitted(s: string): string
    requires AllBytes(s)
  {
    if s == "" then ""
    else
      var front := s[..|s| - 1];
      Emitted(front) + Piece(|front| % 3, LastByte(front), LastByte(s))
  }

  lemma EmittedMore(s: string, c: char)
    requires AllBytes(s) && IsByte(c)
    ensures Emitted(s + [c]) == Emitted(s) + Piece(|s| % 3, LastByte(s), c as int)
  {
    hide Piece;
    assert (s + [c])[..|s|] == s;
  }

  lemma FirstPiece(b: nat, b': nat, c: nat)
    requires b < 256 && b' < 256 && c < 256
    ensures Piece(0, b, c) == Piece(0, b', c)
  {
  }

  // The pieces of the first three bytes are a quantum.
  lemma {:induction false} EmittedQuantum(s: string)
    requires AllBytes(s) && |s| >= 3
    ensures Emitted(s) == Quantum(s[0] as int, s[1] as int, s[2] as int) + Emitted(s[3..])
  {
    hide Piece, Quantum, LastByte;
    var q := Quantum(s[0] as int, s[1] as int, s[2] as int);
    if |s| == 3 {
      EmittedThree(s[0], s[1], s[2]);
      assert s == [s[0], s[1], s[2]] && s[3..] == "";
    } else {
      var front, c := s[..|s| - 1], LastByte(s);
      EmittedQuantum(front);
      assert front[3..] == s[3..][..|s[3..]| - 1];
      LastByteBehind(s);
      PieceShift(front, c);
      var p := Piece(|front| % 3, LastByte(front), c);
      assert q + (Emitted(front[3..]) + p) == q + Emitted(front[3..]) + p;
    }
  }

  lemma LastByteBehind(s: string)
    requires AllBytes(s) && |s| > 3
    ensures LastByte(s[3..]) == LastByte(s)
  {
  }

  // The piece put out for a byte depends only on what follows the last quantum.
  lemma PieceShift(front: string, c: nat)
    requires AllBytes(front) && |front| >= 3 && c < 256
    ensures Piece(|front| % 3, LastByte(front), c) == Piece(|front[3..]| % 3, LastByte(front[3..]), c)
  {
    hide Piece;
    SamePhase(|front[3..]|);
    assert |front| > 3 ==> LastByte(front[3..]) == LastByte(front);
    if |front| == 3 {
      FirstPiece(LastByte(front), LastByte(front[3..]), c);
    }
  }

  lemma SamePhase(n: nat)
    ensures (n + 3) % 3 == n % 3
  {
  }

  lemma EmittedThree(x: char, y: char, z: char)
    requires IsByte(x) && IsByte(y) && IsByte(z)
    ensures Emitted([x, y, z]) == Quantum(x as int, y as int, z as int)
    ensures Emitted([x, y]) == Quantum(x as int, y as int, 0)[..2]
    ensures Emitted([x]) == Quantum(x as int, 0, 0)[..1]
  {
    hide Letter, Sextet1, Sextet2, Sextet3, Sextet4;
    EmittedNothing();
    hide Emitted;
    EmittedMore("", x);
    EmittedMore([x], y);
    EmittedMore([x, y], z);
    assert "" + [x] == [x] && [x] + [y] == [x, y] && [x, y] + [z] == [x, y, z];
  }

  // What is put out after the last byte.
  function Tail(phase: nat, b: nat): string
    requires phase < 3 && b < 256
  {
    SextetsFit(b, 0, 0);
    SextetsFit(0, b, 0);
    if phase == 0 then "" else if phase == 1 then [Letter(Sextet2(b, 0))] + "==" else [Letter(Sextet3(b, 0))] + "="
  }

  lemma {:induction false} EncodeIsEmitted(s: string)
    requires AllBytes(s)
    ensures Encode(s) == Emitted(s) + Tail(|s| % 3, LastByte(s))
  {
    if |s| >= 3 {
      EncodeMore(s);
      hide Encode, Quantum, Tail, Emitted, LastByte;
      EncodeIsEmitted(s[3..]);
      EmittedQuantum(s);
      TailShift(s);
      var q := Quantum(s[0] as int, s[1] as int, s[2] as int);
      var e, t := Emitted(s[3..]), Tail(|s[3..]| % 3, LastByte(s[3..]));
      assert q + (e + t) == q + e + t;
    } else if |s| == 2 {
      assert s == [s[0], s[1]];
      EncodeTwo(s[0], s[1]);
    } else if |s| == 1 {
      assert s == [s[0]];
      EncodeOne(s[0]);
    }
  }

  lemma EncodeMore(s: string)
    requires AllBytes(s) && |s| >= 3
    ensures Encode(s) == Quantum(s[0] as int, s[1] as int, s[2] as int) + Encode(s[3..])
  {
    hide Quantum;
  }

  lemma EncodeOne(x: char)
    requires IsByte(x)
    ensures Encode([x]) == Emitted([x]) + Tail(1, x as int)
  {
    hide Letter, Sextet1, Sextet2, Sextet3, Sextet4, Emitted;
    EmittedThree(x, x, x);
    var q := Quantum(x as int, 0, 0);
    assert q[..2] == q[..1] + [q[1]];
  }

  lemma EncodeTwo(x: char, y: char)
    requires IsByte(x) && IsByte(y)
    ensures Encode([x, y]) == Emitted([x, y]) + Tail(2, y as int)
  {
    hide Letter, Sextet1, Sextet2, Sextet3, Sextet4, Emitted;
    EmittedThree(x, y, y);
    var q := Quantum(x as int, y as int, 0);
    assert q[..3] == q[..2] + [q[2]];
  }

  lemma TailShift(s: string)
    requires AllBytes(s) && |s| >= 3
    ensures Tail(|s| % 3, LastByte(s)) == Tail(|s[3..]| % 3, LastByte(s[3..]))
  {
    hide Tail;
    SamePhase(|s[3..]|);
    assert |s| > 3 ==> LastByte(s[3..]) == LastByte(s);
    if |s| == 3 {
      NoTail(LastByte(s), LastByte(s[3..]));
    }
  }

  lemma NoTail(b: nat, c: nat)
    requires b < 256 && c < 256
    ensures Tail(0, b) == Tail(0, c) == ""
  {
  }

  lemma Powers()
    ensures Pow2(0) == 1 && Pow2(2) == 4 && Pow2(4) == 16 && Pow2(6) == 64
  {
  }

  lemma Mod64(x: int, k: int, r: nat)
    requires x == 64 * k + r && r < 64
    ensures x % 64 == r
  {
  }

  lemma Sextet1Of(q: int, b: nat, c: nat)
    requires b < 256 && c < 256
    ensures (0x1_0000 * q + 256 * b + c) / 4 % 64 == c / 4
  {
    var val := 0x1_0000 * q + 256 * b + c;
    assert val / 4 == 64 * (256 * q + b) + c / 4;
    Mod64(val / 4, 256 * q + b, c / 4);
  }

  lemma Sextet2Of(q: int, b: nat, c: nat)
    requires b < 256 && c < 256
    ensures (0x1_0000 * q + 256 * b + c) / 16 % 64 == b % 4 * 16 + c / 16
  {
    var val, b1, b0 := 0x1_0000 * q + 256 * b + c, b / 4, b % 4;
    assert val / 16 == 64 * (64 * q + b1) + (b0 * 16 + c / 16);
    Mod64(val / 16, 64 * q + b1, b0 * 16 + c / 16);
  }

  lemma Sextet3Of(q: int, b: nat, c: nat)
    requires b < 256 && c < 256
    ensures (0x1_0000 * q + 256 * b + c) / 64 % 64 == b % 16 * 4 + c / 64
  {
    var val, b1, b0 := 0x1_0000 * q + 256 * b + c, b / 16, b % 16;
    assert val / 64 == 64 * (16 * q + b1) + (b0 * 4 + c / 64);
    Mod64(val / 64, 16 * q + b1, b0 * 4 + c / 64);
  }

  lemma Sextet4Of(q: int, b: nat, c: nat)
    requires b < 256 && c < 256
    ensures (0x1_0000 * q + 256 * b + c) % 64 == c % 64
  {
    var val, c1, c0 := 0x1_0000 * q + 256 * b + c, c / 64, c % 64;
    Mod64(val, 1024 * q + 4 * b + c1, c0);
  }

  // The accumulator may have lost its high bits, but not the last two bytes.
  lemma SextetsOf(val: int, b: nat, c: nat)
    requires val % 0x1_0000 == 256 * b + c && b < 256 && c < 256
    ensures Sextet(val, 2) == Sextet1(c) && Sextet(val, 4) == Sextet2(b, c)
    ensures Sextet(val, 6) == Sextet3(b, c) && Sextet(val, 0) == Sextet4(c)
  {
    var q := val / 0x1_0000;
    assert val == 0x1_0000 * q + 256 * b + c;
    Sextet1Of(q, b, c);
    Sextet2Of(q, b, c);
    Sextet3Of(q, b, c);
    Sextet4Of(q, b, c);
    Powers();
    hide Pow2;
  }

  lemma LowBytes(x: int, q: int, b: nat, c: nat)
    requires b < 256 && c < 256 && x == 0x1_0000 * q + (256 * b + c)
    ensures x % 0x1_0000 == 256 * b + c && x % 256 == c
  {
    Mod256(x, 256 * q + b, c);
    Mod65536(x, q, 256 * b + c);
  }

  lemma Mod256(x: int, k: int, r: nat)
    requires x == 256 * k + r && r < 256
    ensures x % 256 == r
  {
  }

  lemma Mod65536(x: int, k: int, r: nat)
    requires x == 0x1_0000 * k + r && r < 0x1_0000
    ensures x % 0x1_0000 == r
  {
  }

  lemma ShiftIn(val: int, b: nat, c: nat)
    requires val % 256 == b && c < 256
    ensures Wrap32(val * 256 + c) % 0x1_0000 == 256 * b + c
    ensures Wrap32(val * 256 + c) % 256 == c
  {
    hide Wrap32;
    var q := val / 256;
    assert val == 256 * q + b;
    var k := Turns32(val * 256 + c);
    LowBytes(Wrap32(val * 256 + c), q - 0x1_0000 * k, b, c);
  }

  // The body of the loop over the input, for its i-th byte c.
  method PutByte(val: int, valb: int, c: nat, ghost b: nat, ghost i: nat)
    returns (val': int, valb': int, piece: string)
    requires b < 256 && c < 256 && val % 256 == b && valb == -6 + 2 * (i % 3)
    ensures val' % 256 == c && valb' == -6 + 2 * ((i + 1) % 3)
    ensures piece == Piece(i % 3, b, c)
  {
    hide Wrap32, Sextet, Letter, Sextet1, Sextet2, Sextet3, Sextet4;
    ShiftIn(val, b, c);
    val' := Wrap32(val * 256 + c);
    SextetsOf(val', b, c);
    valb' := valb + 8;
    piece := "";
    while valb' >= 0
      invariant -6 <= valb' <= 6 && valb' % 2 == 0
      invariant i % 3 == 0 ==> (valb' == 2 && piece == "") || (valb' == -4 && piece == Piece(0, b, c))
      invariant i % 3 == 1 ==> (valb' == 4 && piece == "") || (valb' == -2 && piece == Piece(1, b, c))
      invariant i % 3 == 2 ==>
                  || (valb' == 6 && piece == "")
                  || (valb' == 0 && piece == Piece(2, b, c)[..1])
                  || (valb' == -6 && piece == Piece(2, b, c))
    {
      piece := piece + [Letter(Sextet(val', valb'))];
      valb' := valb' - 6;
    }
  }

  // What fills n letters up to a multiple of four.
  function Padding(n: nat): string {
    match n % 4 case 0 => "" case 1 => "===" case 2 => "==" case _ => "="
  }

  // Fill up to a multiple of four.
  method PutPadding(unpadded: string) returns (out: string)
    ensures out == unpadded + Padding(|unpadded|)
  {
    out := unpadded;
    ghost var n := 0;
    while |out| % 4 != 0
      invariant out == unpadded + seq(n, _ => '=')
      invariant n <= 3 && (n > 0 ==> |unpadded| % 4 != 0 && |unpadded| % 4 + n <= 4)
      decreases 4 - n
    {
      out := out + "=";
      n := n + 1;
    }
  }

  method Base64Encode(s: string) returns (out: string)
    requires AllBytes(s)
    ensures out == Encode(s)
    ensures Decode(out) == Some(s)
  {
    hide Wrap32, Sextet, Encode, Decode, Emitted, Letter, Sextet1, Sextet2, Sextet3, Sextet4;
    out := "";
    var val, valb := 0, -6;
    var i := 0;
    EmittedNothing();
    while i < |s|
      invariant 0 <= i <= |s|
      invariant valb == -6 + 2 * (i % 3)
      invariant val % 256 == LastByte(s[..i])
      invariant out == Emitted(s[..i])
    {
      EmittedMore(s[..i], s[i]);
      assert s[..i + 1] == s[..i] + [s[i]];
      var piece;
      val, valb, piece := PutByte(val, valb, s[i] as int, LastByte(s[..i]), i);
      out := out + piece;
      i := i + 1;
    }
    assert s[..i] == s;
    var last := PutLast(val, valb, LastByte(s), i);
    EncodeIsPadded(s);
    out := PutPadding(out + last);
    EncodeDecode(s);
  }

  // The letter for the bits that are left after the last byte.
  method PutLast(val: int, valb: int, ghost b: nat, ghost i: nat) returns (last: string)
    requires b < 256 && val % 256 == b && valb == -6 + 2 * (i % 3)
    ensures last == LastLetter(i % 3, b)
  {
    hide Wrap32, Sextet, Letter, Sextet1, Sextet2, Sextet3, Sextet4;
    last := "";
    if valb > -6 {
      ShiftIn(val, b, 0);
      SextetsOf(Wrap32(val * 256), b, 0);
      last := [Letter(Sextet(Wrap32(val * 256), valb + 8))];
    }
  }

  function LastLetter(phase: nat, b: nat): string
    requires phase < 3 && b < 256
  {
    SextetsFit(b, 0, 0);
    SextetsFit(0, b, 0);
    if phase == 0 then "" else if phase == 1 then [Letter(Sextet2(b, 0))] else [Letter(Sextet3(b, 0))]
  }

  lemma EncodeIsPadded(s: string)
    requires AllBytes(s)
    ensures var unpadded := Emitted(s) + LastLetter(|s| % 3, LastByte(s));
            Encode(s) == unpadded + Padding(|unpadded|)
  {
    hide Encode, Emitted, Letter, Sextet2, Sextet3, LastByte;
    EncodeIsEmitted(s);
    EmittedLength(s);
    var q, phase := |s| / 3, |s| % 3;
    var n := 4 * q + phase + (if phase == 0 then 0 else 1);
    assert n % 4 == if phase == 0 then 0 else phase + 1;
    var e, l := Emitted(s), LastLetter(phase, LastByte(s));
    assert Tail(phase, LastByte(s)) == l + Padding(n);
    assert e + (l + Padding(n)) == e + l + Padding(n);
  }

  lemma EmittedNothing()
    ensures Emitted("") == ""
  {
  }

  lemma {:induction false} EmittedLength(s: string)
    requires AllBytes(s)
    ensures |Emitted(s)| == 4 * (|s| / 3) + |s| % 3
  {
    if s != "" {
      EmittedLength(s[..|s| - 1]);
    }
  }
}
