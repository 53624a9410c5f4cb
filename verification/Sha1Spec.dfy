// SHA-1 as FIPS 180-4 defines it (sections 4.1.1, 4.2.1, 5.1.1, 5.2.1, 5.3.1 and 6.1.2),
// for messages made of whole bytes.  Nothing here knows about the streaming
// implementation in Sha1.dfy.
module Sha1Spec {

  type Byte = bv8
  type Word = bv32

  const BLOCK_INTS := 16
  const BLOCK_BYTES := 64
  const TWO_32 := 0x1_0000_0000
  const TWO_64 := 0x1_0000_0000_0000_0000

  // Addition of words is modulo 2^32.
  function Add(x: Word, y: Word): Word { x + y }

  // The five working variables, or the five words of a hash value.
  datatype Hash = Hash(a: Word, b: Word, c: Word, d: Word, e: Word) {
    function Plus(h: Hash): Hash {
      Hash(Add(a, h.a), Add(b, h.b), Add(c, h.c), Add(d, h.d), Add(e, h.e))
    }

    function Words(): seq<Word> {
      [a, b, c, d, e]
    }
  }

  // Section 2.2.2: the circular left shift, for 0 < n < 32.
  function RotL(x: Word, n: bv6): Word
    requires 0 < n < 32
  {
    (x << n) | (x >> (32 - n))
  }

  // Section 4.1.1
  function Ch(x: Word, y: Word, z: Word): Word { (x & y) ^ (!x & z) }

  function Parity(x: Word, y: Word, z: Word): Word { x ^ y ^ z }

  function Maj(x: Word, y: Word, z: Word): Word { (x & y) ^ (x & z) ^ (y & z) }

  function F(t: nat, x: Word, y: Word, z: Word): Word {
    if t < 20 then Ch(x, y, z)
    else if t < 40 then Parity(x, y, z)
    else if t < 60 then Maj(x, y, z)
    else Parity(x, y, z)
  }

  // Section 4.2.1
  function K(t: nat): Word {
    if t < 20 then 0x5a827999
    else if t < 40 then 0x6ed9eba1
    else if t < 60 then 0x8f1bbcdc
    else 0xca62c1d6
  }

  // Section 5.3.1
  const H0 := Hash(0x67452301, 0xefcdab89, 0x98badcfe, 0x10325476, 0xc3d2e1f0)

  // Section 6.1.2, step 1: the message schedule of one block.
  function W(block: seq<Word>, t: nat): Word
    requires |block| == BLOCK_INTS
  {
    if t < 16 then block[t]
    else Mix(W(block, t - 3), W(block, t - 8), W(block, t - 14), W(block, t - 16))
  }

  function Mix(w3: Word, w8: Word, w14: Word, w16: Word): Word {
    RotL(w3 ^ w8 ^ w14 ^ w16, 1)
  }

  // Section 6.1.2, step 3: one round.
  function Round(t: nat, w: Word, h: Hash): Hash {
    Hash(Sum(RotL(h.a, 5), F(t, h.b, h.c, h.d), h.e, K(t), w), h.a, RotL(h.b, 30), h.c, h.d)
  }

  function Sum(r: Word, f: Word, e: Word, k: Word, w: Word): Word {
    r + f + e + k + w
  }

  // The working variables after the first t rounds.
  function Rounds(block: seq<Word>, h: Hash, t: nat): Hash
    requires |block| == BLOCK_INTS
  {
    if t == 0 then h else Round(t - 1, W(block, t - 1), Rounds(block, h, t - 1))
  }

  // Section 6.1.2, steps 2 to 4.
  function Compress(h: Hash, block: seq<Word>): Hash
    requires |block| == BLOCK_INTS
  {
    h.Plus(Rounds(block, h, 80))
  }

  // A word is the big-endian concatenation of four bytes (section 3.1).
  function WordOf(b: seq<Byte>): Word
    requires |b| == 4
  {
    (b[0] as Word << 24) | (b[1] as Word << 16) | (b[2] as Word << 8) | (b[3] as Word)
  }

  function WordsOf(bytes: seq<Byte>): (words: seq<Word>)
    requires |bytes| % 4 == 0
    ensures |words| == |bytes| / 4
  {
    if bytes == [] then [] else [WordOf(bytes[..4])] + WordsOf(bytes[4..])
  }

  // Section 5.1.1: how many zero bytes follow the byte 0x80.
  function ZeroBytes(length: nat): (z: nat)
    ensures z < BLOCK_BYTES && (length + 1 + z) % BLOCK_BYTES == BLOCK_BYTES - 8
  {
    var r := length % 64;
    var z := if r < 56 then 55 - r else 119 - r;
    Residue64(length + 1 + z, length / 64 + (if r < 56 then 0 else 1), 56);
    z
  }

  lemma Residue64(x: nat, k: nat, r: nat)
    requires x == 64 * k + r && r < 64
    ensures x % 64 == r
  {
  }

  // The message, the byte 0x80 and the zero bytes.
  function PaddedText(message: seq<Byte>): (text: seq<Byte>)
    ensures |text| % BLOCK_BYTES == BLOCK_BYTES - 8
  {
    message + [0x80] + seq(ZeroBytes(|message|), _ => 0)
  }

  // Section 5.1.1: the length in bits, as two words.  (The standard defines
  // this below 2^64; beyond that the length is reduced modulo 2^64 here.)
  function LengthWords(bytes: nat): (words: seq<Word>)
    ensures |words| == 2
  {
    var bits := (8 * bytes) % TWO_64;
    [ToWord(bits / TWO_32), ToWord(bits % TWO_32)]
  }

  function ToWord(n: nat): Word
    requires n < TWO_32
  {
    n as Word
  }

  function Padded(message: seq<Byte>): (words: seq<Word>)
    ensures |words| % BLOCK_INTS == 0
  {
    PaddedTextHasRoomForLength(|PaddedText(message)|);
    WordsOf(PaddedText(message)) + LengthWords(|message|)
  }

  lemma PaddedTextHasRoomForLength(n: nat)
    requires n % BLOCK_BYTES == BLOCK_BYTES - 8
    ensures n % 4 == 0 && (n / 4 + 2) % BLOCK_INTS == 0
  {
    var q := n / BLOCK_BYTES;
    assert n / 4 == 16 * q + 14;
  }

  // Sections 5.2.1 and 6.1.2: the blocks are hashed in order.
  function HashBlocks(h: Hash, words: seq<Word>): Hash
    requires |words| % BLOCK_INTS == 0
    decreases |words|
  {
    if |words| < BLOCK_INTS then h else HashBlocks(Compress(h, words[..BLOCK_INTS]), words[BLOCK_INTS..])
  }

  function Sha1(message: seq<Byte>): seq<Word> {
    HashBlocks(H0, Padded(message)).Words()
  }

  // ---- facts about the definitions ----

  // The number of zero bytes is the smallest that makes the padded length a
  // multiple of 512 bits.
  lemma ZeroBytesIsSmallest(length: nat, z: nat)
    requires (length + 1 + z) % BLOCK_BYTES == BLOCK_BYTES - 8
    ensures ZeroBytes(length) <= z
  {
  }

  // The four bytes can be read back from the word.
  lemma WordOfIsBigEndian(b: seq<Byte>)
    requires |b| == 4
    ensures var w := WordOf(b);
            b == [(w >> 24) as Byte, ((w >> 16) & 0xff) as Byte, ((w >> 8) & 0xff) as Byte, (w & 0xff) as Byte]
  {
  }

  lemma {:induction false} WordsOfConcat(s: seq<Byte>, t: seq<Byte>)
    requires |s| % 4 == 0 && |t| % 4 == 0
    ensures WordsOf(s + t) == WordsOf(s) + WordsOf(t)
  {
    if s == [] {
      assert s + t == t;
    } else {
      assert (s + t)[..4] == s[..4];
      assert (s + t)[4..] == s[4..] + t;
      WordsOfConcat(s[4..], t);
    }
  }

  lemma {:induction false} WordsOfAt(s: seq<Byte>, i: nat)
    requires |s| % 4 == 0 && i < |s| / 4
    ensures WordsOf(s)[i] == WordOf(s[4 * i..4 * i + 4])
  {
    if i > 0 {
      WordsOfAt(s[4..], i - 1);
      assert s[4..][4 * (i - 1)..4 * (i - 1) + 4] == s[4 * i..4 * i + 4];
    }
  }

  lemma {:induction false} HashBlocksConcat(h: Hash, s: seq<Word>, t: seq<Word>)
    requires |s| % BLOCK_INTS == 0 && |t| % BLOCK_INTS == 0
    ensures (|s| + |t|) % BLOCK_INTS == 0
    ensures HashBlocks(h, s + t) == HashBlocks(HashBlocks(h, s), t)
    decreases |s|
  {
    if s == [] {
      assert s + t == t;
    } else {
      assert (s + t)[..BLOCK_INTS] == s[..BLOCK_INTS];
      assert (s + t)[BLOCK_INTS..] == s[BLOCK_INTS..] + t;
      HashBlocksConcat(Compress(h, s[..BLOCK_INTS]), s[BLOCK_INTS..], t);
    }
  }
}
