// The streaming SHA-1 of btor/sha1.hpp: a 16-word ring instead of the full
// message schedule, working variables whose roles rotate, a partial block kept
// between updates, and padding written straight into the last block.
module Sha1 {
  import opened Sha1Spec
  import opened Text

  function Blk(block: seq<Word>, i: nat): (r: Word)
    requires |block| == BLOCK_INTS && i < BLOCK_INTS
  {
    RotL(block[(i + 13) % 16] ^ block[(i + 8) % 16] ^ block[(i + 2) % 16] ^ block[i], 1)
  }

  // The bit expressions of R0 to R4, and the sum that each of them assigns to z.
  function Select(w: Word, x: Word, y: Word): Word { (w & (x ^ y)) ^ y }

  function Xor(w: Word, x: Word, y: Word): Word { w ^ x ^ y }

  function Majority(w: Word, x: Word, y: Word): Word { ((w | x) & y) | (w & x) }

  function Increased(z: Word, f: Word, b: Word, k: Word, r: Word): Word { z + (f + b + k + r) }

  // ---- the expressions are those of the standard ----

  lemma RotLIsRotation(value: Word)
    ensures RotL(value, 1) == value.RotateLeft(1)
    ensures RotL(value, 5) == value.RotateLeft(5)
    ensures RotL(value, 30) == value.RotateLeft(30)
  {
  }

  lemma SelectBits(w: Word, x: Word, y: Word)
    ensures ((w & (x ^ y)) ^ y) == Ch(w, x, y)
  {
  }

  lemma SelectIsCh(w: Word, x: Word, y: Word)
    ensures Select(w, x, y) == Ch(w, x, y)
  {
    hide Ch;
    SelectBits(w, x, y);
  }

  lemma MajorityBits(w: Word, x: Word, y: Word)
    ensures (((w | x) & y) | (w & x)) == Maj(w, x, y)
  {
  }

  lemma MajorityIsMaj(w: Word, x: Word, y: Word)
    ensures Majority(w, x, y) == Maj(w, x, y)
  {
    hide Maj;
    MajorityBits(w, x, y);
  }

  lemma IncreasedIsSum(z: Word, f: Word, b: Word, k: Word, r: Word)
    ensures Increased(z, f, b, k, r) == Sum(r, f, z, k, b)
  {
  }

  lemma BlkIsMix(ring: seq<Word>, i: nat)
    requires |ring| == BLOCK_INTS && i < BLOCK_INTS
    ensures Blk(ring, i) == Mix(ring[(i + 13) % 16], ring[(i + 8) % 16], ring[(i + 2) % 16], ring[i])
  {
    hide RotL;
  }

  // ---- the ring ----

  // Before round t (t >= 16) the ring holds the schedule words t-16 .. t-1, each
  // at its index modulo 16.
  ghost predicate Ring(m: seq<Word>, t: nat, ring: seq<Word>) {
    && |m| == |ring| == BLOCK_INTS
    && t >= 16
    && forall k | t - 16 <= k < t :: ring[k % 16] == W(m, k)
  }

  lemma ScheduleStep(m: seq<Word>, t: nat)
    requires |m| == BLOCK_INTS && t >= 16
    ensures W(m, t) == Mix(W(m, t - 3), W(m, t - 8), W(m, t - 14), W(m, t - 16))
  {
    hide Mix;
  }

  lemma RingNext(m: seq<Word>, t: nat, ring: seq<Word>)
    requires Ring(m, t, ring)
    ensures Blk(ring, t % 16) == W(m, t)
  {
    hide Mix, Blk, W;
    BlkIsMix(ring, t % 16);
    ScheduleStep(m, t);
    SlotsBehind(t);
    assert ring[(t - 3) % 16] == W(m, t - 3) && ring[(t - 8) % 16] == W(m, t - 8);
    assert ring[(t - 14) % 16] == W(m, t - 14) && ring[(t - 16) % 16] == W(m, t - 16);
  }

  lemma SlotsBehind(t: nat)
    requires t >= 16
    ensures (t % 16 + 13) % 16 == (t - 3) % 16 && (t % 16 + 8) % 16 == (t - 8) % 16
    ensures (t % 16 + 2) % 16 == (t - 14) % 16 && t % 16 == (t - 16) % 16
  {
    var q, r := t / 16, t % 16;
    assert t == 16 * q + r;
    SameSlot(t - 3, r + 13, q - 1);
    SameSlot(t - 8, r + 8, q - 1);
    SameSlot(t - 14, r + 2, q - 1);
    SameSlot(t - 16, r, q - 1);
  }

  lemma SameSlot(x: int, y: int, k: int)
    requires x == y + 16 * k
    ensures x % 16 == y % 16
  {
  }

  lemma RingStep(m: seq<Word>, t: nat, ring: seq<Word>)
    requires Ring(m, t, ring)
    ensures Ring(m, t + 1, ring[t % 16 := Blk(ring, t % 16)])
  {
    hide Blk, W;
    RingNext(m, t, ring);
    forall k | t + 1 - 16 <= k < t + 1
      ensures ring[t % 16 := Blk(ring, t % 16)][k % 16] == W(m, k)
    {
      if k < t {
        assert k % 16 != t % 16;
      }
    }
  }

  // Before round t: the working variables a..e, in their present roles v..z,
  // and the ring.  Up to round 16 the ring is the block itself.
  ghost predicate At(m: seq<Word>, h: Hash, t: nat, ring: seq<Word>, roles: Hash) {
    && Ring(m, if t < 16 then 16 else t, ring)
    && Rounds(m, h, t) == roles
  }

  lemma AtStart(m: seq<Word>, h: Hash)
    requires |m| == BLOCK_INTS
    ensures At(m, h, 0, m, h)
  {
  }

  lemma AtEnd(m: seq<Word>, h: Hash, ring: seq<Word>, roles: Hash)
    requires At(m, h, 80, ring, roles)
    ensures h.Plus(roles) == Compress(h, m)
  {
    hide Round;
  }

  // One unrolled call performs one round of the standard and hands the roles on:
  // z becomes the new v, v the new w, the rotated w the new x, and so on.
  lemma RoundInPlace(m: seq<Word>, h: Hash, t: nat, r: Hash, w': Word, z': Word)
    requires |m| == BLOCK_INTS && Rounds(m, h, t) == r
    requires w' == RotL(r.b, 30)
    requires z' == Sum(RotL(r.a, 5), F(t, r.b, r.c, r.d), r.e, K(t), W(m, t))
    ensures Rounds(m, h, t + 1) == Hash(z', r.a, w', r.c, r.d)
  {
    hide F, K, RotL, Sum, Mix;
  }

  method R0(block: array<Word>, v: Word, w: Word, x: Word, y: Word, z: Word, i: nat,
            ghost m: seq<Word>, ghost h: Hash, ghost t: nat) returns (w': Word, z': Word)
    requires block.Length == BLOCK_INTS && t < 16 && i == t
    requires At(m, h, t, block[..], Hash(v, w, x, y, z))
    ensures At(m, h, t + 1, block[..], Hash(z', v, w', x, y))
  {
    hide RotL, Sum, Blk, Ch, Maj, W, Select, Majority, Increased, Round;
    assert block[i] == block[..][t % 16];
    z' := Increased(z, Select(w, x, y), block[i], 0x5a827999, RotL(v, 5));
    w' := RotL(w, 30);
    SelectIsCh(w, x, y);
    IncreasedIsSum(z, Select(w, x, y), block[i], 0x5a827999, RotL(v, 5));
    RoundInPlace(m, h, t, Hash(v, w, x, y, z), w', z');
  }

  method R1(block: array<Word>, v: Word, w: Word, x: Word, y: Word, z: Word, i: nat,
            ghost m: seq<Word>, ghost h: Hash, ghost t: nat) returns (w': Word, z': Word)
    requires block.Length == BLOCK_INTS && 16 <= t < 20 && i == t % 16
    requires At(m, h, t, block[..], Hash(v, w, x, y, z))
    modifies block
    ensures At(m, h, t + 1, block[..], Hash(z', v, w', x, y))
  {
    hide RotL, Sum, Blk, Ch, Maj, W, Select, Majority, Increased, Round;
    RingNext(m, t, block[..]);
    RingStep(m, t, block[..]);
    block[i] := Blk(block[..], i);
    z' := Increased(z, Select(w, x, y), block[i], 0x5a827999, RotL(v, 5));
    w' := RotL(w, 30);
    SelectIsCh(w, x, y);
    IncreasedIsSum(z, Select(w, x, y), block[i], 0x5a827999, RotL(v, 5));
    RoundInPlace(m, h, t, Hash(v, w, x, y, z), w', z');
  }

  method R2(block: array<Word>, v: Word, w: Word, x: Word, y: Word, z: Word, i: nat,
            ghost m: seq<Word>, ghost h: Hash, ghost t: nat) returns (w': Word, z': Word)
    requires block.Length == BLOCK_INTS && 20 <= t < 40 && i == t % 16
    requires At(m, h, t, block[..], Hash(v, w, x, y, z))
    modifies block
    ensures At(m, h, t + 1, block[..], Hash(z', v, w', x, y))
  {
    hide RotL, Sum, Blk, Ch, Maj, W, Select, Majority, Increased, Round;
    RingNext(m, t, block[..]);
    RingStep(m, t, block[..]);
    block[i] := Blk(block[..], i);
    z' := Increased(z, Xor(w, x, y), block[i], 0x6ed9eba1, RotL(v, 5));
    w' := RotL(w, 30);
    IncreasedIsSum(z, Xor(w, x, y), block[i], 0x6ed9eba1, RotL(v, 5));
    RoundInPlace(m, h, t, Hash(v, w, x, y, z), w', z');
  }

  method R3(block: array<Word>, v: Word, w: Word, x: Word, y: Word, z: Word, i: nat,
            ghost m: seq<Word>, ghost h: Hash, ghost t: nat) returns (w': Word, z': Word)
    requires block.Length == BLOCK_INTS && 40 <= t < 60 && i == t % 16
    requires At(m, h, t, block[..], Hash(v, w, x, y, z))
    modifies block
    ensures At(m, h, t + 1, block[..], Hash(z', v, w', x, y))
  {
    hide RotL, Sum, Blk, Ch, Maj, W, Select, Majority, Increased, Round;
    RingNext(m, t, block[..]);
    RingStep(m, t, block[..]);
    block[i] := Blk(block[..], i);
    z' := Increased(z, Majority(w, x, y), block[i], 0x8f1bbcdc, RotL(v, 5));
    w' := RotL(w, 30);
    MajorityIsMaj(w, x, y);
    IncreasedIsSum(z, Majority(w, x, y), block[i], 0x8f1bbcdc, RotL(v, 5));
    RoundInPlace(m, h, t, Hash(v, w, x, y, z), w', z');
  }

  method R4(block: array<Word>, v: Word, w: Word, x: Word, y: Word, z: Word, i: nat,
            ghost m: seq<Word>, ghost h: Hash, ghost t: nat) returns (w': Word, z': Word)
    requires block.Length == BLOCK_INTS && 60 <= t < 80 && i == t % 16
    requires At(m, h, t, block[..], Hash(v, w, x, y, z))
    modifies block
    ensures At(m, h, t + 1, block[..], Hash(z', v, w', x, y))
  {
    hide RotL, Sum, Blk, Ch, Maj, W, Select, Majority, Increased, Round;
    RingNext(m, t, block[..]);
    RingStep(m, t, block[..]);
    block[i] := Blk(block[..], i);
    z' := Increased(z, Xor(w, x, y), block[i], 0xca62c1d6, RotL(v, 5));
    w' := RotL(w, 30);
    IncreasedIsSum(z, Xor(w, x, y), block[i], 0xca62c1d6, RotL(v, 5));
    RoundInPlace(m, h, t, Hash(v, w, x, y, z), w', z');
  }

  function HashOf(digest: seq<Word>): (h: Hash)
    requires |digest| == 5
    ensures h == Hash(digest[0], digest[1], digest[2], digest[3], digest[4])
    ensures h.Words() == digest
  {
    hide RotL, Sum, Blk, Ch, Maj, W, Select, Majority, Increased, Round;
    Hash(digest[0], digest[1], digest[2], digest[3], digest[4])
  }

  // Add the working variables back into the digest.
  method AddBack(digest: array<Word>, a: Word, b: Word, c: Word, d: Word, e: Word)
    requires digest.Length == 5
    modifies digest
    ensures HashOf(digest[..]) == HashOf(old(digest[..])).Plus(Hash(a, b, c, d, e))
  {
    hide Add;
    digest[0] := Add(digest[0], a);
    digest[1] := Add(digest[1], b);
    digest[2] := Add(digest[2], c);
    digest[3] := Add(digest[3], d);
    digest[4] := Add(digest[4], e);
  }

  // The 80 unrolled calls repeat their argument rotation every five calls, so
  // each loop iteration below is five consecutive calls of the source, with the
  // same arguments in the same order; call t uses slot t % 16.
  method Calls0To19(block: array<Word>, a0: Word, b0: Word, c0: Word, d0: Word, e0: Word,
                    ghost m: seq<Word>, ghost h: Hash)
    returns (a: Word, b: Word, c: Word, d: Word, e: Word)
    requires block.Length == BLOCK_INTS
    requires At(m, h, 0, block[..], Hash(a0, b0, c0, d0, e0))
    modifies block
    ensures At(m, h, 20, block[..], Hash(a, b, c, d, e))
  {
    hide *;
    a, b, c, d, e := a0, b0, c0, d0, e0;
    for k := 0 to 3
      invariant At(m, h, 5 * k, block[..], Hash(a, b, c, d, e))
    {
      var t := 5 * k;
      b, e := R0(block, a, b, c, d, e, t, m, h, t);
      a, d := R0(block, e, a, b, c, d, t + 1, m, h, t + 1);
      e, c := R0(block, d, e, a, b, c, t + 2, m, h, t + 2);
      d, b := R0(block, c, d, e, a, b, t + 3, m, h, t + 3);
      c, a := R0(block, b, c, d, e, a, t + 4, m, h, t + 4);
    }
    b, e := R0(block, a, b, c, d, e, 15, m, h, 15);
    a, d := R1(block, e, a, b, c, d, 0, m, h, 16);
    e, c := R1(block, d, e, a, b, c, 1, m, h, 17);
    d, b := R1(block, c, d, e, a, b, 2, m, h, 18);
    c, a := R1(block, b, c, d, e, a, 3, m, h, 19);
  }

  method Calls20To39(block: array<Word>, a0: Word, b0: Word, c0: Word, d0: Word, e0: Word,
                     ghost m: seq<Word>, ghost h: Hash)
    returns (a: Word, b: Word, c: Word, d: Word, e: Word)
    requires block.Length == BLOCK_INTS
    requires At(m, h, 20, block[..], Hash(a0, b0, c0, d0, e0))
    modifies block
    ensures At(m, h, 40, block[..], Hash(a, b, c, d, e))
  {
    hide *;
    a, b, c, d, e := a0, b0, c0, d0, e0;
    for k := 0 to 4
      invariant At(m, h, 20 + 5 * k, block[..], Hash(a, b, c, d, e))
    {
      var t := 20 + 5 * k;
      b, e := R2(block, a, b, c, d, e, t % 16, m, h, t);
      a, d := R2(block, e, a, b, c, d, (t + 1) % 16, m, h, t + 1);
      e, c := R2(block, d, e, a, b, c, (t + 2) % 16, m, h, t + 2);
      d, b := R2(block, c, d, e, a, b, (t + 3) % 16, m, h, t + 3);
      c, a := R2(block, b, c, d, e, a, (t + 4) % 16, m, h, t + 4);
    }
  }

  method Calls40To59(block: array<Word>, a0: Word, b0: Word, c0: Word, d0: Word, e0: Word,
                     ghost m: seq<Word>, ghost h: Hash)
    returns (a: Word, b: Word, c: Word, d: Word, e: Word)
    requires block.Length == BLOCK_INTS
    requires At(m, h, 40, block[..], Hash(a0, b0, c0, d0, e0))
    modifies block
    ensures At(m, h, 60, block[..], Hash(a, b, c, d, e))
  {
    hide *;
    a, b, c, d, e := a0, b0, c0, d0, e0;
    for k := 0 to 4
      invariant At(m, h, 40 + 5 * k, block[..], Hash(a, b, c, d, e))
    {
      var t := 40 + 5 * k;
      b, e := R3(block, a, b, c, d, e, t % 16, m, h, t);
      a, d := R3(block, e, a, b, c, d, (t + 1) % 16, m, h, t + 1);
      e, c := R3(block, d, e, a, b, c, (t + 2) % 16, m, h, t + 2);
      d, b := R3(block, c, d, e, a, b, (t + 3) % 16, m, h, t + 3);
      c, a := R3(block, b, c, d, e, a, (t + 4) % 16, m, h, t + 4);
    }
  }

  method Calls60To79(block: array<Word>, a0: Word, b0: Word, c0: Word, d0: Word, e0: Word,
                     ghost m: seq<Word>, ghost h: Hash)
    returns (a: Word, b: Word, c: Word, d: Word, e: Word)
    requires block.Length == BLOCK_INTS
    requires At(m, h, 60, block[..], Hash(a0, b0, c0, d0, e0))
    modifies block
    ensures At(m, h, 80, block[..], Hash(a, b, c, d, e))
  {
    hide *;
    a, b, c, d, e := a0, b0, c0, d0, e0;
    for k := 0 to 4
      invariant At(m, h, 60 + 5 * k, block[..], Hash(a, b, c, d, e))
    {
      var t := 60 + 5 * k;
      b, e := R4(block, a, b, c, d, e, t % 16, m, h, t);
      a, d := R4(block, e, a, b, c, d, (t + 1) % 16, m, h, t + 1);
      e, c := R4(block, d, e, a, b, c, (t + 2) % 16, m, h, t + 2);
      d, b := R4(block, c, d, e, a, b, (t + 3) % 16, m, h, t + 3);
      c, a := R4(block, b, c, d, e, a, (t + 4) % 16, m, h, t + 4);
    }
  }

  method Transform(digest: array<Word>, block: array<Word>, transforms: nat) returns (transforms': nat)
    requires digest.Length == 5 && block.Length == BLOCK_INTS && digest != block
    requires transforms < TWO_64
    modifies digest, block
    ensures HashOf(digest[..]) == Compress(HashOf(old(digest[..])), old(block[..]))
    ensures transforms' == (transforms + 1) % TWO_64
  {
    hide *;
    ghost var m, h := block[..], HashOf(digest[..]);
    AtStart(m, h);
    var a, b, c, d, e := digest[0], digest[1], digest[2], digest[3], digest[4];
    assert Hash(a, b, c, d, e) == h;
    a, b, c, d, e := Calls0To19(block, a, b, c, d, e, m, h);
    a, b, c, d, e := Calls20To39(block, a, b, c, d, e, m, h);
    a, b, c, d, e := Calls40To59(block, a, b, c, d, e, m, h);
    a, b, c, d, e := Calls60To79(block, a, b, c, d, e, m, h);
    AtEnd(m, h, block[..], Hash(a, b, c, d, e));
    AddBack(digest, a, b, c, d, e);
    transforms' := (transforms + 1) % TWO_64;
  }

  method BufferToBlock(buffer: seq<Byte>, block: array<Word>)
    requires |buffer| == BLOCK_BYTES && block.Length == BLOCK_INTS
    modifies block
    ensures block[..] == WordsOf(buffer)
  {
    var i := 0;
    while i < BLOCK_INTS
      invariant 0 <= i <= BLOCK_INTS
      invariant forall k | 0 <= k < i :: block[k] == WordsOf(buffer)[k]
    {
      block[i] := (buffer[4 * i + 3] as Word)
        | ((buffer[4 * i + 2] as Word) << 8)
        | ((buffer[4 * i + 1] as Word) << 16)
        | ((buffer[4 * i + 0] as Word) << 24);
      ghost var b := buffer[4 * i..4 * i + 4];
      LittleOrderIsWordOf(b[0], b[1], b[2], b[3]);
      WordsOfAt(buffer, i);
      assert b == [b[0], b[1], b[2], b[3]];
      i := i + 1;
    }
  }

  lemma LittleOrderIsWordOf(b0: Byte, b1: Byte, b2: Byte, b3: Byte)
    ensures ((b3 as Word) | ((b2 as Word) << 8) | ((b1 as Word) << 16) | ((b0 as Word) << 24))
         == WordOf([b0, b1, b2, b3])
  {
  }

  // ---- one block at a time ----

  lemma WholeBlocks(n: nat)
    requires n % BLOCK_BYTES == 0
    ensures n % 4 == 0 && (n / 4) % BLOCK_INTS == 0
  {
    var q := n / 64;
    assert n == 64 * q && n / 4 == 16 * q;
    SameSlot(n / 4, 0, q);
  }

  // The hash value after the blocks that make up these bytes.
  ghost function HashBytes(bytes: seq<Byte>): Hash
    requires |bytes| % BLOCK_BYTES == 0
  {
    WholeBlocks(|bytes|);
    HashBlocks(H0, WordsOf(bytes))
  }

  lemma OneMoreBlock(hashed: seq<Byte>, block: seq<Byte>)
    requires |hashed| % BLOCK_BYTES == 0 && |block| == BLOCK_BYTES
    ensures Compress(HashBytes(hashed), WordsOf(block)) == HashBytes(hashed + block)
  {
    hide Compress, WordOf, WordsOf, HashBlocks;
    WholeBlocks(|hashed|);
    WordsOfConcat(hashed, block);
    OneMoreBlockOfWords(H0, WordsOf(hashed), WordsOf(block));
  }

  lemma OneMoreBlockOfWords(h: Hash, words: seq<Word>, block: seq<Word>)
    requires |words| % BLOCK_INTS == 0 && |block| == BLOCK_INTS
    ensures Compress(HashBlocks(h, words), block) == HashBlocks(h, words + block)
  {
    hide Compress;
    HashBlocksConcat(h, words, block);
    assert block[..BLOCK_INTS] == block && block[BLOCK_INTS..] == [];
  }

  // ---- the padding of Final ----

  // The buffer with the byte 0x80, filled up with zero bytes.
  function Filled(buffer: seq<Byte>): (filled: seq<Byte>)
    requires |buffer| < BLOCK_BYTES
    ensures |filled| == BLOCK_BYTES
  {
    buffer + [0x80] + seq(BLOCK_BYTES - 1 - |buffer|, _ => 0)
  }

  // When the length fits behind the byte 0x80, it replaces the last two words.
  lemma PaddedInOneBlock(hashed: seq<Byte>, buffer: seq<Byte>)
    requires |hashed| % BLOCK_BYTES == 0 && |buffer| + 1 <= BLOCK_BYTES - 8
    ensures |hashed| % 4 == 0
    ensures Padded(hashed + buffer) ==
            WordsOf(hashed) + (WordsOf(Filled(buffer))[..14] + LengthWords(|hashed + buffer|))
  {
    hide WordOf, WordsOf, LengthWords;
    WholeBlocks(|hashed|);
    var tail := buffer + [0x80] + seq(BLOCK_BYTES - 9 - |buffer|, _ => 0);
    assert PaddedText(hashed + buffer) == hashed + tail;
    WordsOfConcat(hashed, tail);
    var zeros: seq<Byte> := seq(8, _ => 0);
    assert Filled(buffer) == tail + zeros;
    WordsOfConcat(tail, zeros);
    assert WordsOf(Filled(buffer))[..14] == WordsOf(tail);
  }

  // Otherwise the filled buffer is a block of its own, followed by zero words.
  lemma PaddedInTwoBlocks(hashed: seq<Byte>, buffer: seq<Byte>)
    requires |hashed| % BLOCK_BYTES == 0 && |buffer| < BLOCK_BYTES < |buffer| + 9
    ensures |hashed + Filled(buffer)| % 4 == 0
    ensures Padded(hashed + buffer) ==
            WordsOf(hashed + Filled(buffer)) + (seq(14, _ => 0 as Word) + LengthWords(|hashed + buffer|))
  {
    hide WordOf, WordsOf, LengthWords;
    WholeBlocks(|hashed + Filled(buffer)|);
    var zeros: seq<Byte> := seq(56, _ => 0);
    assert PaddedText(hashed + buffer) == (hashed + Filled(buffer)) + zeros;
    WordsOfConcat(hashed + Filled(buffer), zeros);
    WordsOfZeros(zeros);
  }

  lemma WordsOfZeros(zeros: seq<Byte>)
    requires |zeros| == 56 && forall i | 0 <= i < |zeros| :: zeros[i] == 0
    ensures WordsOf(zeros) == seq(14, _ => 0 as Word)
  {
    hide WordOf, WordsOf;
    forall i | 0 <= i < 14
      ensures WordsOf(zeros)[i] == 0
    {
      WordsOfAt(zeros, i);
      assert zeros[4 * i..4 * i + 4] == [0, 0, 0, 0];
      WordOfZeros();
    }
  }

  lemma WordOfZeros()
    ensures WordOf([0, 0, 0, 0]) == 0
  {
  }

  // The counter of blocks may wrap around; the length field is right all the same.
  lemma TotalBits(blocks: nat, buffered: nat)
    ensures ((blocks % TWO_64 * BLOCK_BYTES + buffered) * 8) % TWO_64
         == (8 * (BLOCK_BYTES * blocks + buffered)) % TWO_64
  {
    var k := blocks / TWO_64;
    var x := (blocks % TWO_64 * BLOCK_BYTES + buffered) * 8;
    assert 8 * (BLOCK_BYTES * blocks + buffered) == x + TWO_64 * (512 * k);
    AddMultiple(x, 512 * k);
  }

  lemma AddMultiple(x: nat, k: nat)
    ensures (x + TWO_64 * k) % TWO_64 == x % TWO_64
  {
  }

  function BlockCount(bytes: nat): (count: nat)
    ensures count < TWO_64
  {
    (bytes / BLOCK_BYTES) % TWO_64
  }

  lemma BlockCountStep(bytes: nat)
    requires bytes % BLOCK_BYTES == 0
    ensures (bytes + BLOCK_BYTES) % BLOCK_BYTES == 0
    ensures BlockCount(bytes + BLOCK_BYTES) == (BlockCount(bytes) + 1) % TWO_64
  {
    assert (bytes + BLOCK_BYTES) / BLOCK_BYTES == bytes / BLOCK_BYTES + 1;
  }

  lemma TotalBitsOfMessage(bytes: nat, buffered: nat)
    requires bytes % BLOCK_BYTES == 0
    ensures ((BlockCount(bytes) * BLOCK_BYTES + buffered) * 8) % TWO_64 == (8 * (bytes + buffered)) % TWO_64
  {
    TotalBits(bytes / BLOCK_BYTES, buffered);
  }

  lemma DigestOf(hashed: seq<Byte>, last: seq<Word>, message: seq<Byte>)
    requires |hashed| % BLOCK_BYTES == 0 && |last| == BLOCK_INTS
    requires |hashed| % 4 == 0 && Padded(message) == WordsOf(hashed) + last
    ensures Compress(HashBytes(hashed), last).Words() == Sha1Spec.Sha1(message)
  {
    hide Compress, WordsOf, HashBlocks, Padded;
    WholeBlocks(|hashed|);
    OneMoreBlockOfWords(H0, WordsOf(hashed), last);
  }

  method ClearWords(block: array<Word>)
    requires block.Length == BLOCK_INTS
    modifies block
    ensures block[..14] == seq(14, _ => 0 as Word)
  {
    var i := 0;
    while i < BLOCK_INTS - 2
      invariant 0 <= i <= BLOCK_INTS - 2
      invariant forall k | 0 <= k < i :: block[k] == 0
    {
      block[i] := 0;
      i := i + 1;
    }
  }

  method WriteLength(block: array<Word>, totalBits: nat, ghost bytes: nat)
    requires block.Length == BLOCK_INTS
    requires totalBits == (8 * bytes) % TWO_64
    modifies block
    ensures block[..] == old(block[..14]) + LengthWords(bytes)
  {
    block[BLOCK_INTS - 1] := (totalBits % TWO_32) as Word;
    block[BLOCK_INTS - 2] := (totalBits / TWO_32) as Word;
  }

  // ---- the object ----

  class SHA1 {
    const digest: array<Word>
    var buffer: seq<Byte>
    var transforms: nat
    ghost var hashed: seq<Byte>  // the bytes of the blocks transformed so far

    ghost predicate Valid()
      reads this, digest
    {
      Running() && |buffer| < BLOCK_BYTES
    }

    // The invariant in the middle of an operation, when the buffer may be full.
    ghost predicate Running()
      reads this, digest
    {
      && digest.Length == 5
      && |hashed| % BLOCK_BYTES == 0
      && HashOf(digest[..]) == HashBytes(hashed)
      && transforms == BlockCount(|hashed|)
    }

    // Everything given to Update since the object was new or last finished.
    ghost function Message(): seq<Byte>
      reads this
    {
      hashed + buffer
    }

    constructor ()
      ensures Valid() && fresh(digest)
      ensures Message() == []
    {
      digest := new Word[5];
      new;
      Reset();
    }

    method Reset()
      requires digest.Length == 5
      modifies this, digest
      ensures Valid()
      ensures Message() == []
    {
      digest[0] := 0x67452301;
      digest[1] := 0xefcdab89;
      digest[2] := 0x98badcfe;
      digest[3] := 0x10325476;
      digest[4] := 0xc3d2e1f0;
      buffer := [];
      transforms := 0;
      hashed := [];
      assert HashOf(digest[..]) == H0;
    }

    // Hash the full buffer and clear it.
    method TransformBuffer()
      requires Running() && |buffer| == BLOCK_BYTES
      modifies this, digest
      ensures Valid()
      ensures Message() == old(Message()) && buffer == []
    {
      hide HashBytes, Compress, WordsOf, HashOf, BlockCount;
      BlockCountStep(|hashed|);
      var block := new Word[BLOCK_INTS];
      BufferToBlock(buffer, block);
      OneMoreBlock(hashed, buffer);
      transforms := Transform(digest, block, transforms);
      hashed := hashed + buffer;
      buffer := [];
    }

    // Read from a stream holding s until it is exhausted.
    method Update(s: seq<Byte>)
      requires Valid()
      modifies this, digest
      ensures Valid()
      ensures Message() == old(Message()) + s
    {
      hide HashBytes, HashOf, BlockCount;
      var read := 0;
      while true
        invariant 0 <= read <= |s|
        invariant Valid()
        invariant Message() == old(Message()) + s[..read]
        decreases |s| - read, |buffer|
      {
        var wanted := BLOCK_BYTES - |buffer|;
        var gcount := if wanted <= |s| - read then wanted else |s| - read;
        assert hashed + (buffer + s[read..read + gcount]) == Message() + s[read..read + gcount];
        buffer := buffer + s[read..read + gcount];
        assert s[..read + gcount] == s[..read] + s[read..read + gcount];
        read := read + gcount;
        if |buffer| != BLOCK_BYTES {
          assert s[..read] == s;
          return;
        }
        TransformBuffer();
      }
    }

    // Append the byte 0x80 and fill the buffer up with zero bytes.
    method Fill() returns (origSize: nat)
      requires |buffer| < BLOCK_BYTES
      modifies `buffer
      ensures buffer == Filled(old(buffer)) && origSize == |old(buffer)| + 1
    {
      buffer := buffer + [0x80];
      origSize := |buffer|;
      while |buffer| < BLOCK_BYTES
        invariant origSize <= |buffer| <= BLOCK_BYTES
        invariant buffer == old(buffer) + [0x80] + seq(|buffer| - origSize, _ => 0)
      {
        buffer := buffer + [0x00];
      }
    }

    // Add padding, return the digest, and start again.
    method Final() returns (res: seq<Word>)
      requires Valid()
      modifies this, digest
      ensures Valid()
      ensures res == Sha1Spec.Sha1(old(Message()))
      ensures Message() == []
    {
      hide HashBytes, Compress, WordsOf, HashOf, LengthWords, Sha1Spec.Sha1, BlockCount, Padded, Filled;
      ghost var message, text := Message(), buffer;
      var totalBits := ((transforms * BLOCK_BYTES + |buffer|) * 8) % TWO_64;
      TotalBitsOfMessage(|hashed|, |buffer|);
      var origSize := Fill();

      var block := new Word[BLOCK_INTS];
      BufferToBlock(buffer, block);
      ghost var before := hashed;
      if origSize > BLOCK_BYTES - 8 {
        OneMoreBlock(hashed, buffer);
        BlockCountStep(|hashed|);
        transforms := Transform(digest, block, transforms);
        hashed := hashed + buffer;
        ClearWords(block);
        PaddedInTwoBlocks(before, text);
      } else {
        PaddedInOneBlock(hashed, text);
      }
      WriteLength(block, totalBits, |message|);
      DigestOf(hashed, block[..], message);
      transforms := Transform(digest, block, transforms);

      res := digest[..];
      Reset();
    }
  }

  // Any run of updates followed by Final, on a new object or on one that was
  // finished before: only the concatenation of the pieces matters.
  method HashPieces(sha: SHA1, pieces: seq<seq<Byte>>) returns (res: seq<Word>)
    requires sha.Valid()
    modifies sha, sha.digest
    ensures sha.Valid() && sha.Message() == []
    ensures res == Sha1Spec.Sha1(old(sha.Message()) + Concat(pieces))
  {
    hide Sha1Spec.Sha1;
    ghost var all := sha.Message() + Concat(pieces);
    var i := 0;
    while i < |pieces|
      invariant 0 <= i <= |pieces|
      invariant sha.Valid()
      invariant sha.Message() + Concat(pieces[i..]) == all
    {
      ghost var before := sha.Message();
      sha.Update(pieces[i]);
      assert pieces[i..][1..] == pieces[i + 1..];
      assert before + (pieces[i] + Concat(pieces[i + 1..])) == sha.Message() + Concat(pieces[i + 1..]);
      i := i + 1;
    }
    assert sha.Message() == all;
    res := sha.Final();
  }
}
