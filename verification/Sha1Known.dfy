// The known answer of SHA-1 for the message "abc" (the example of FIPS 180-4), computed
// step by step from the definitions of Sha1Spec, and where the four constants come from.
module Sha1Known {
  import opened Sha1Spec

  // The round constants are the integer parts of 2^30 times the square roots of 2, 3,
  // 5 and 10.
  lemma ConstantsAreRoots(t: nat)
    requires t < 80
    ensures var n, k := [2, 3, 5, 10][t / 20], K(t) as int;
            k * k <= n * 0x1000_0000_0000_0000 < (k + 1) * (k + 1)
  {
  }

  // "abc", the byte 0x80, zero bytes, and the length of 24 bits.
  const BLOCK: seq<Word> := [0x61626380, 0, 0, 0, 0, 0, 0, 0, 0, 0, 0, 0, 0, 0, 0, 24]

  // ---- the message schedule ----

  // The number t is a variable in what follows, for otherwise the solver would compute
  // the whole schedule anew in every lemma.

  // The words t to t + 15 of the schedule.
  ghost predicate SixteenWords(
    m: seq<Word>, t: nat, w0: Word, w1: Word, w2: Word, w3: Word, w4: Word, w5: Word, w6: Word, w7: Word,
    w8: Word, w9: Word, w10: Word, w11: Word, w12: Word, w13: Word, w14: Word, w15: Word)
  {
    && |m| == BLOCK_INTS
    && (W(m, t), W(m, t + 1), W(m, t + 2), W(m, t + 3)) == (w0, w1, w2, w3)
    && (W(m, t + 4), W(m, t + 5), W(m, t + 6), W(m, t + 7)) == (w4, w5, w6, w7)
    && (W(m, t + 8), W(m, t + 9), W(m, t + 10), W(m, t + 11)) == (w8, w9, w10, w11)
    && (W(m, t + 12), W(m, t + 13), W(m, t + 14), W(m, t + 15)) == (w12, w13, w14, w15)
  }

  // The next word of the schedule.
  lemma NextWord(m: seq<Word>, t: nat, w: Word)
    requires |m| == BLOCK_INTS && t >= 16
    requires Mix(W(m, t - 3), W(m, t - 8), W(m, t - 14), W(m, t - 16)) == w
    ensures W(m, t) == w
  {
    hide Mix;
  }

  lemma Words0To15(m: seq<Word>)
    requires m == BLOCK
    ensures SixteenWords(
              m, 0, 0x61626380, 0, 0, 0, 0, 0, 0, 0,
              0, 0, 0, 0, 0, 0, 0, 0x00000018)
  {
  }

  lemma Words16To31(m: seq<Word>, t: nat)
    requires m == BLOCK && 15 < t < 17
    ensures SixteenWords(
              m, t, 0xc2c4c700, 0, 0x00000030, 0x85898e01, 0, 0x00000060, 0x0b131c03, 0x00000030,
              0x85898ec1, 0x16263806, 0, 0x00000180, 0x2c4c700c, 0x000000f0, 0x93afb507, 0x5898e048)
  {
    hide W;
    assert t == 16;
    Words0To15(m);
    NextWord(m, 16, 0xc2c4c700);
    NextWord(m, 17, 0);
    NextWord(m, 18, 0x00000030);
    NextWord(m, 19, 0x85898e01);
    NextWord(m, 20, 0);
    NextWord(m, 21, 0x00000060);
    NextWord(m, 22, 0x0b131c03);
    NextWord(m, 23, 0x00000030);
    NextWord(m, 24, 0x85898ec1);
    NextWord(m, 25, 0x16263806);
    NextWord(m, 26, 0);
    NextWord(m, 27, 0x00000180);
    NextWord(m, 28, 0x2c4c700c);
    NextWord(m, 29, 0x000000f0);
    NextWord(m, 30, 0x93afb507);
    NextWord(m, 31, 0x5898e048);
  }

  lemma Words32To47(m: seq<Word>, t: nat)
    requires m == BLOCK && 31 < t < 33
    ensures SixteenWords(
              m, t, 0x8e9a9202, 0x00000600, 0xb131c0f0, 0x16263bc6, 0x4ebed41e, 0x626380a1, 0x16263806, 0x000018c0,
              0xd2e138c4, 0x00000f00, 0x3afb5079, 0x898e04e5, 0xe2ba3c2b, 0x000060c0, 0x053a37cd, 0x74458547)
  {
    hide W;
    assert t == 32;
    Words16To31(m, 16);
    NextWord(m, 32, 0x8e9a9202);
    NextWord(m, 33, 0x00000600);
    NextWord(m, 34, 0xb131c0f0);
    NextWord(m, 35, 0x16263bc6);
    NextWord(m, 36, 0x4ebed41e);
    NextWord(m, 37, 0x626380a1);
    NextWord(m, 38, 0x16263806);
    NextWord(m, 39, 0x000018c0);
    NextWord(m, 40, 0xd2e138c4);
    NextWord(m, 41, 0x00000f00);
    NextWord(m, 42, 0x3afb5079);
    NextWord(m, 43, 0x898e04e5);
    NextWord(m, 44, 0xe2ba3c2b);
    NextWord(m, 45, 0x000060c0);
    NextWord(m, 46, 0x053a37cd);
    NextWord(m, 47, 0x74458547);
  }

  lemma Words48To63(m: seq<Word>, t: nat)
    requires m == BLOCK && 47 < t < 49
    ensures SixteenWords(
              m, t, 0xda9415ed, 0x26380a16, 0x626383a1, 0x4ebf54de, 0x3835b44b, 0x0000f600, 0x1e84c7a3, 0x98e04d98,
              0x651d16a0, 0x62658ca1, 0x458544d6, 0x44584cb7, 0x7ba06619, 0x6380aea2, 0x0ae55269, 0x627b49a1)
  {
    hide W;
    assert t == 48;
    Words32To47(m, 32);
    NextWord(m, 48, 0xda9415ed);
    NextWord(m, 49, 0x26380a16);
    NextWord(m, 50, 0x626383a1);
    NextWord(m, 51, 0x4ebf54de);
    NextWord(m, 52, 0x3835b44b);
    NextWord(m, 53, 0x0000f600);
    NextWord(m, 54, 0x1e84c7a3);
    NextWord(m, 55, 0x98e04d98);
    NextWord(m, 56, 0x651d16a0);
    NextWord(m, 57, 0x62658ca1);
    NextWord(m, 58, 0x458544d6);
    NextWord(m, 59, 0x44584cb7);
    NextWord(m, 60, 0x7ba06619);
    NextWord(m, 61, 0x6380aea2);
    NextWord(m, 62, 0x0ae55269);
    NextWord(m, 63, 0x627b49a1);
  }

  lemma Words64To79(m: seq<Word>, t: nat)
    requires m == BLOCK && 63 < t < 65
    ensures SixteenWords(
              m, t, 0x7cd45c9d, 0x000f0000, 0xfb50753a, 0xec6765e8, 0xba3c2be2, 0x0060c000, 0x3a37cd05, 0x458546f4,
              0xb8599dd6, 0x380a1a26, 0x01e02203, 0xe7cc3456, 0xe6e60b69, 0x00f60a00, 0x5795ef4f, 0x822e0879)
  {
    hide W;
    assert t == 64;
    Words48To63(m, 48);
    NextWord(m, 64, 0x7cd45c9d);
    NextWord(m, 65, 0x000f0000);
    NextWord(m, 66, 0xfb50753a);
    NextWord(m, 67, 0xec6765e8);
    NextWord(m, 68, 0xba3c2be2);
    NextWord(m, 69, 0x0060c000);
    NextWord(m, 70, 0x3a37cd05);
    NextWord(m, 71, 0x458546f4);
    NextWord(m, 72, 0xb8599dd6);
    NextWord(m, 73, 0x380a1a26);
    NextWord(m, 74, 0x01e02203);
    NextWord(m, 75, 0xe7cc3456);
    NextWord(m, 76, 0xe6e60b69);
    NextWord(m, 77, 0x00f60a00);
    NextWord(m, 78, 0x5795ef4f);
    NextWord(m, 79, 0x822e0879);
  }

  // ---- the rounds ----

  // The next round: only the first variable is new.
  lemma Next(m: seq<Word>, t: nat, h: Hash, a: Word) returns (next: Hash)
    requires |m| == BLOCK_INTS && Rounds(m, H0, t) == h
    requires Sum(RotL(h.a, 5), F(t, h.b, h.c, h.d), h.e, K(t), W(m, t)) == a
    ensures next == Rounds(m, H0, t + 1) == Hash(a, h.a, RotL(h.b, 30), h.c, h.d)
  {
    hide RotL, F, K;
    next := Rounds(m, H0, t + 1);
  }

  lemma Rounds0(m: seq<Word>)
    requires |m| == BLOCK_INTS
    ensures Rounds(m, H0, 0) == Hash(0x67452301, 0xefcdab89, 0x98badcfe, 0x10325476, 0xc3d2e1f0)
  {
  }

  lemma Rounds10(m: seq<Word>, t: nat)
    requires m == BLOCK && 9 < t < 11
    ensures Rounds(m, H0, t) == Hash(0x8351f929, 0x4b6ae328, 0x27a301f5, 0x664f8c30, 0x0ff1f290)
  {
    hide W, Rounds;
    assert t == 10;
    Words0To15(m);
    Rounds0(m);
    var h := Rounds(m, H0, 0);
    h := Next(m, 0, h, 0x0116fc33);
    h := Next(m, 1, h, 0x8990536d);
    h := Next(m, 2, h, 0xa1390f08);
    h := Next(m, 3, h, 0xcdd8e11b);
    h := Next(m, 4, h, 0xcfd499de);
    h := Next(m, 5, h, 0x3fc7ca40);
    h := Next(m, 6, h, 0x993e30c1);
    h := Next(m, 7, h, 0x9e8c07d4);
    h := Next(m, 8, h, 0x4b6ae328);
    h := Next(m, 9, h, 0x8351f929);
  }

  lemma Rounds20(m: seq<Word>, t: nat)
    requires m == BLOCK && 19 < t < 21
    ensures Rounds(m, H0, t) == Hash(0xfd9e1d7d, 0xdc64901d, 0x20aa99ca, 0xd3a49608, 0xc82f758b)
  {
    hide W, Rounds;
    assert t == 20;
    Words0To15(m);
    Words16To31(m, 16);
    Rounds10(m, 10);
    var h := Rounds(m, H0, 10);
    h := Next(m, 10, h, 0xfbda9e89);
    h := Next(m, 11, h, 0x63188fe4);
    h := Next(m, 12, h, 0x4607b664);
    h := Next(m, 13, h, 0x9128f695);
    h := Next(m, 14, h, 0x196bee77);
    h := Next(m, 15, h, 0x20bdd62f);
    h := Next(m, 16, h, 0x4e925823);
    h := Next(m, 17, h, 0x82aa6728);
    h := Next(m, 18, h, 0xdc64901d);
    h := Next(m, 19, h, 0xfd9e1d7d);
  }

  lemma Rounds30(m: seq<Word>, t: nat)
    requires m == BLOCK && 29 < t < 31
    ensures Rounds(m, H0, t) == Hash(0xc5fbaf5d, 0x8370b52e, 0xd2aa1365, 0x6f8d7ef5, 0x12104ee9)
  {
    hide W, Rounds;
    assert t == 30;
    Words16To31(m, 16);
    Rounds20(m, 20);
    var h := Rounds(m, H0, 20);
    h := Next(m, 20, h, 0x1a37b0ca);
    h := Next(m, 21, h, 0x33a23bfc);
    h := Next(m, 22, h, 0x21283486);
    h := Next(m, 23, h, 0xd541f12d);
    h := Next(m, 24, h, 0xc7567dc6);
    h := Next(m, 25, h, 0x48413ba4);
    h := Next(m, 26, h, 0xbe35fbd5);
    h := Next(m, 27, h, 0x4aa84d97);
    h := Next(m, 28, h, 0x8370b52e);
    h := Next(m, 29, h, 0xc5fbaf5d);
  }

  lemma Rounds40(m: seq<Word>, t: nat)
    requires m == BLOCK && 39 < t < 41
    ensures Rounds(m, H0, t) == Hash(0x32de1cba, 0x4c986405, 0xf718e5cf, 0x03d447f6, 0xf72eec32)
  {
    hide W, Rounds;
    assert t == 40;
    Words16To31(m, 16);
    Words32To47(m, 32);
    Rounds30(m, 30);
    var h := Rounds(m, H0, 30);
    h := Next(m, 30, h, 0x1267b407);
    h := Next(m, 31, h, 0x3b845d33);
    h := Next(m, 32, h, 0x046faa0a);
    h := Next(m, 33, h, 0x2c0ebc11);
    h := Next(m, 34, h, 0x21796ad4);
    h := Next(m, 35, h, 0xdcbbb0cb);
    h := Next(m, 36, h, 0x0f511fd8);
    h := Next(m, 37, h, 0xdc63973f);
    h := Next(m, 38, h, 0x4c986405);
    h := Next(m, 39, h, 0x32de1cba);
  }

  lemma Rounds50(m: seq<Word>, t: nat)
    requires m == BLOCK && 49 < t < 51
    ensures Rounds(m, H0, t) == Hash(0x120731c5, 0xbaf39337, 0xafab40b2, 0x2806e11b, 0x8714787c)
  {
    hide W, Rounds;
    assert t == 50;
    Words32To47(m, 32);
    Words48To63(m, 48);
    Rounds40(m, 40);
    var h := Rounds(m, H0, 40);
    h := Next(m, 40, h, 0xfc87dedf);
    h := Next(m, 41, h, 0x970a0d5c);
    h := Next(m, 42, h, 0x7f193dc5);
    h := Next(m, 43, h, 0xee1b1aaf);
    h := Next(m, 44, h, 0x40f28e09);
    h := Next(m, 45, h, 0x1c51e1f2);
    h := Next(m, 46, h, 0xa01b846c);
    h := Next(m, 47, h, 0xbead02ca);
    h := Next(m, 48, h, 0xbaf39337);
    h := Next(m, 49, h, 0x120731c5);
  }

  lemma Rounds60(m: seq<Word>, t: nat)
    requires m == BLOCK && 59 < t < 61
    ensures Rounds(m, H0, t) == Hash(0x3f52de5a, 0x09d785fd, 0x3498bfd4, 0xf211824f, 0xd79915ab)
  {
    hide W, Rounds;
    assert t == 60;
    Words48To63(m, 48);
    Rounds50(m, 50);
    var h := Rounds(m, H0, 50);
    h := Next(m, 50, h, 0x641db2ce);
    h := Next(m, 51, h, 0x3847ad66);
    h := Next(m, 52, h, 0xe490436d);
    h := Next(m, 53, h, 0x27e9f1d8);
    h := Next(m, 54, h, 0x7b71f76d);
    h := Next(m, 55, h, 0x5e6456af);
    h := Next(m, 56, h, 0xc846093f);
    h := Next(m, 57, h, 0xd262ff50);
    h := Next(m, 58, h, 0x09d785fd);
    h := Next(m, 59, h, 0x3f52de5a);
  }

  lemma Rounds70(m: seq<Word>, t: nat)
    requires m == BLOCK && 69 < t < 71
    ensures Rounds(m, H0, t) == Hash(0x3f2588c2, 0x497093c0, 0xde37534a, 0x030f7cad, 0x4405957e)
  {
    hide W, Rounds;
    assert t == 70;
    Words48To63(m, 48);
    Words64To79(m, 64);
    Rounds60(m, 60);
    var h := Rounds(m, H0, 60);
    h := Next(m, 60, h, 0xd756c147);
    h := Next(m, 61, h, 0x548c9cb2);
    h := Next(m, 62, h, 0xb66c020b);
    h := Next(m, 63, h, 0x6b61c9e1);
    h := Next(m, 64, h, 0x19dfa7ac);
    h := Next(m, 65, h, 0x101655f9);
    h := Next(m, 66, h, 0x0c3df2b4);
    h := Next(m, 67, h, 0x78dd4d2b);
    h := Next(m, 68, h, 0x497093c0);
    h := Next(m, 69, h, 0x3f2588c2);
  }

  lemma Rounds80(m: seq<Word>, t: nat)
    requires m == BLOCK && 79 < t < 81
    ensures Rounds(m, H0, t) == Hash(0x42541b35, 0x5738d5e1, 0x21834873, 0x681e6df6, 0xd8fdf6ad)
  {
    hide W, Rounds;
    assert t == 80;
    Words64To79(m, 64);
    Rounds70(m, 70);
    var h := Rounds(m, H0, 70);
    h := Next(m, 70, h, 0xc199f8c7);
    h := Next(m, 71, h, 0x39859de7);
    h := Next(m, 72, h, 0xedb42de4);
    h := Next(m, 73, h, 0x11793f6f);
    h := Next(m, 74, h, 0x5ee76897);
    h := Next(m, 75, h, 0x63f7dab7);
    h := Next(m, 76, h, 0xa079b7d9);
    h := Next(m, 77, h, 0x860d21cc);
    h := Next(m, 78, h, 0x5738d5e1);
    h := Next(m, 79, h, 0x42541b35);
  }

  // ---- the answer ----

  // The length in bits, high word first.
  lemma LengthOf(bytes: nat, high: nat, low: nat)
    requires 8 * bytes == high * 0x1_0000_0000 + low && high < 0x1_0000_0000 && low < 0x1_0000_0000
    ensures LengthWords(bytes) == [ToWord(high), ToWord(low)]
  {
    hide ToWord;
    assert 8 * bytes < 0x1_0000_0000_0000_0000;
    assert (8 * bytes) % 0x1_0000_0000_0000_0000 == 8 * bytes;
    assert (8 * bytes) / 0x1_0000_0000 == high && (8 * bytes) % 0x1_0000_0000 == low;
  }

  // For example 0x0123_4567_89ab_cdf0 bits.
  lemma LengthOfLongMessage()
    ensures LengthWords(0x0024_68ac_f135_79be) == [0x01234567, 0x89abcdf0]
  {
    LengthOf(0x0024_68ac_f135_79be, 0x0123_4567, 0x89ab_cdf0);
    hide LengthWords;
  }

  lemma ZeroBytesOfAbc()
    ensures PaddedText([0x61, 0x62, 0x63]) == [0x61, 0x62, 0x63, 0x80] + seq(52, _ => 0)
  {
  }

  lemma WordsOfText(text: seq<Byte>, i: nat)
    requires text == [0x61, 0x62, 0x63, 0x80] + seq(52, _ => 0) && i < 14
    ensures WordsOf(text)[i] == if i == 0 then 0x61626380 else 0
  {
    WordsOfAt(text, i);
    if i > 0 {
      assert text[4 * i..4 * i + 4] == [0, 0, 0, 0];
    }
  }

  lemma WordsOfPaddedText(text: seq<Byte>)
    requires text == [0x61, 0x62, 0x63, 0x80] + seq(52, _ => 0)
    ensures WordsOf(text) == BLOCK[..14]
  {
    hide WordsOf;
    forall i | 0 <= i < 14
      ensures WordsOf(text)[i] == BLOCK[i]
    {
      WordsOfText(text, i);
    }
  }

  lemma PaddedMessage()
    ensures Padded([0x61, 0x62, 0x63]) == BLOCK
  {
    hide PaddedText, LengthWords, WordsOf;
    ZeroBytesOfAbc();
    WordsOfPaddedText(PaddedText([0x61, 0x62, 0x63]));
    LengthOf(3, 0, 24);
    assert BLOCK == BLOCK[..14] + [0, 24];
  }

  lemma Abc()
    ensures Sha1([0x61, 0x62, 0x63]) == [0xa9993e36, 0x4706816a, 0xba3e2571, 0x7850c26c, 0x9cd0d89d]
  {
    hide Padded, Rounds;
    PaddedMessage();
    Rounds80(BLOCK, 80);
    assert BLOCK[..16] == BLOCK && BLOCK[16..] == [];
  }
}
