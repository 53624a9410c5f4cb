// From the captured `info` text to the announce parameter: getSHA1 and urlEncode
// of btor/butils.cpp, and the composition in btor/btor.cpp and btor/bhttp.cpp.
module InfoHash {
  import opened BencodeSpec
  import opened BencodeCollect
  import opened Bencode
  import opened BencodeParser
  import opened Hex
  import opened UrlCodec
  import opened Wrappers
  import Sha1Spec
  import Sha1

  // The characters of a std::string as the bytes that SHA-1 sees.
  function ToBytes(s: string): (bytes: seq<Sha1Spec.Byte>)
    requires AllBytes(s)
    ensures |bytes| == |s|
  {
    seq(|s|, i requires 0 <= i < |s| => s[i] as int as Sha1Spec.Byte)
  }

  lemma BytesOfAbc()
    ensures ToBytes("abc") == [0x61, 0x62, 0x63]
  {
  }

  // ---- hexadecimal words ----

  function HexWord(w: Sha1Spec.Word): string { Pad(HexOf(w as int), 8) }

  function HexWords(words: seq<Sha1Spec.Word>): string {
    if words == [] then "" else HexWords(words[..|words| - 1]) + HexWord(words[|words| - 1])
  }

  class Metainfo {
    var infodict: string
    var infoHashHex: string

    constructor (infodict: string)
      ensures this.infodict == infodict
    {
      this.infodict := infodict;
      infoHashHex := "";
    }
  }

  method GetSHA1(metainfo: Metainfo)
    requires AllBytes(metainfo.infodict)
    modifies metainfo`infoHashHex
    ensures metainfo.infoHashHex == HexWords(Sha1Spec.Sha1(ToBytes(metainfo.infodict)))
  {
    hide Sha1Spec.Sha1, HexWord;
    var checksum := new Sha1.SHA1();
    ghost var text := ToBytes(metainfo.infodict);
    checksum.Update(ToBytes(metainfo.infodict));
    assert checksum.Message() == text;
    var res := checksum.Final();
    var result := "";
    var i := 0;
    while i < |res|
      invariant 0 <= i <= |res|
      invariant result == HexWords(res[..i])
      invariant metainfo.infodict == old(metainfo.infodict)
    {
      assert res[..i + 1][..i] == res[..i];
      result := result + HexWord(res[i]);
      i := i + 1;
    }
    assert res[..i] == res;
    metainfo.infoHashHex := result;
  }

  // ---- a percent sign before every two characters ----

  function PercentPairs(s: string): string {
    if |s| < 2 then (if s == "" then "" else "%" + s) else "%" + s[..2] + PercentPairs(s[2..])
  }

  method UrlEncode(inputString: string) returns (encodedString: string)
    ensures encodedString == PercentPairs(inputString)
  {
    encodedString := "";
    var i := 0;
    while i < |inputString|
      invariant 0 <= i <= |inputString|
      invariant encodedString == PercentPairs(inputString[..i])
    {
      PercentPairsMore(inputString[..i], inputString[i]);
      assert inputString[..i] + [inputString[i]] == inputString[..i + 1];
      if i % 2 == 0 {
        encodedString := encodedString + "%";
      }
      encodedString := encodedString + [inputString[i]];
      i := i + 1;
    }
    assert inputString[..i] == inputString;
  }

  lemma {:induction false} PercentPairsMore(s: string, c: char)
    ensures PercentPairs(s + [c]) == PercentPairs(s) + (if |s| % 2 == 0 then "%" else "") + [c]
  {
    if |s| < 2 {
      assert |s| == 1 ==> (s + [c])[..2] == s + [c] && (s + [c])[2..] == "";
    } else {
      PercentPairsMore(s[2..], c);
      assert (s + [c])[..2] == s[..2] && (s + [c])[2..] == s[2..] + [c];
    }
  }

  // ---- big-endian bytes ----

  function BigEndian(n: nat): string
    requires n < 0x1_0000_0000
  {
    [Byte(n / 0x100_0000), Byte(n / 0x1_0000 % 256), Byte(n / 256 % 256), Byte(n % 256)]
  }

  // The digest as 20 bytes, the most significant byte of each word first.
  function DigestBytes(words: seq<Sha1Spec.Word>): (s: string)
    ensures |s| == 4 * |words|
  {
    if words == [] then "" else DigestBytes(words[..|words| - 1]) + BigEndian(words[|words| - 1] as int)
  }

  // Two hexadecimal digits for each byte.
  function HexPairs(s: string): string
    requires AllBytes(s)
  {
    if s == "" then ""
    else HexPairs(s[..|s| - 1]) + [HexDigit(s[|s| - 1] as int / 16), HexDigit(s[|s| - 1] as int % 16)]
  }

  lemma {:induction false} HexPairsConcat(a: string, b: string)
    requires AllBytes(a) && AllBytes(b)
    ensures HexPairs(a + b) == HexPairs(a) + HexPairs(b)
    decreases |b|
  {
    if b == "" {
      assert a + b == a;
    } else {
      assert (a + b)[..|a + b| - 1] == a + b[..|b| - 1];
      HexPairsConcat(a, b[..|b| - 1]);
    }
  }

  lemma HexWordIsPairs(w: Sha1Spec.Word)
    ensures AllBytes(BigEndian(w as int)) && HexWord(w) == HexPairs(BigEndian(w as int))
  {
    var n: nat := w as int;
    PowersOf16();
    PadIsFixed(n, 8);
    FixedIsPairs(n);
  }

  lemma PowersOf16()
    ensures Pow16(8) == 0x1_0000_0000
  {
    assert Pow16(4) == 0x1_0000;
  }

  lemma HexPairsOne(c: char)
    requires IsByte(c)
    ensures HexPairs([c]) == [HexDigit(c as int / 16), HexDigit(c as int % 16)]
  {
    assert [c][..0] == "";
  }

  // Eight digits are four pairs.
  lemma FixedIsPairs(n: nat)
    requires n < 0x1_0000_0000
    ensures Fixed(n, 8) == HexPairs(BigEndian(n))
  {
    hide Fixed, HexPairs;
    var b := BigEndian(n);
    FixedNone(n / 0x100_0000 / 256);
    FixedMore(n / 0x100_0000, 0, "");
    assert n / 0x1_0000 / 256 == n / 0x100_0000 && n / 256 / 256 == n / 0x1_0000;
    FixedMore(n / 0x1_0000, 1, "" + [b[0]]);
    FixedMore(n / 256, 2, "" + [b[0]] + [b[1]]);
    FixedMore(n, 3, "" + [b[0]] + [b[1]] + [b[2]]);
    assert b == "" + [b[0]] + [b[1]] + [b[2]] + [b[3]];
  }

  lemma FixedNone(n: nat)
    ensures Fixed(n, 0) == HexPairs("")
  {
  }

  lemma FixedMore(n: nat, k: nat, s: string)
    requires AllBytes(s) && Fixed(n / 256, 2 * k) == HexPairs(s)
    ensures Fixed(n, 2 * k + 2) == HexPairs(s + [Byte(n % 256)])
  {
    FixedPair(n, k);
    HexPairsConcat(s, [Byte(n % 256)]);
  }

  lemma FixedPair(n: nat, k: nat)
    ensures Fixed(n, 2 * k + 2) == Fixed(n / 256, 2 * k) + HexPairs([Byte(n % 256)])
  {
    HexPairsOne(Byte(n % 256));
    assert n / 16 / 16 == n / 256 && n / 16 % 16 == n % 256 / 16 && n % 16 == n % 256 % 16;
    assert Fixed(n, 2 * k + 2) == Fixed(n / 16, 2 * k + 1) + [HexDigit(n % 16)];
    assert Fixed(n / 16, 2 * k + 1) == Fixed(n / 256, 2 * k) + [HexDigit(n / 16 % 16)];
  }

  lemma {:induction false} HexWordsArePairs(words: seq<Sha1Spec.Word>)
    ensures AllBytes(DigestBytes(words)) && HexWords(words) == HexPairs(DigestBytes(words))
  {
    hide HexWord, BigEndian;
    if words != [] {
      var front, last := words[..|words| - 1], words[|words| - 1];
      HexWordsArePairs(front);
      HexWordIsPairs(last);
      HexPairsConcat(DigestBytes(front), BigEndian(last as int));
    }
  }

  // Decoding undoes the percent signs put in front of the pairs.
  lemma {:induction false} DecodePercentPairs(s: string, plusToSpace: bool)
    requires AllBytes(s)
    ensures DecodeUrl(PercentPairs(HexPairs(s)), plusToSpace) == s
  {
    if s != "" {
      var c, rest := s[0], s[1..];
      assert s == [c] + rest;
      HexPairsConcat([c], rest);
      HexPairsOne(c);
      var pair := HexPairs([c]);
      var p := HexPairs(s);
      assert p[..2] == pair && p[2..] == HexPairs(rest);
      var tail := PercentPairs(HexPairs(rest));
      assert PercentPairs(p) == "%" + pair + tail;
      DecodeOnePair(c, tail, plusToSpace);
      DecodePercentPairs(rest, plusToSpace);
    }
  }

  lemma DecodeOnePair(c: char, tail: string, plusToSpace: bool)
    requires IsByte(c)
    ensures DecodeUrl("%" + HexPairs([c]) + tail, plusToSpace) == [c] + DecodeUrl(tail, plusToSpace)
  {
    HexPairsOne(c);
    var s := "%" + HexPairs([c]) + tail;
    var t := s[1..];
    assert t[..1][..0] == "" && t[..1][0] == HexDigit(c as int / 16);
    assert HexValue(t[..1], 1) == Some(c as int / 16);
    assert HexValue(t, 2) == Some(c as int);
    assert s[3..] == tail;
  }

  // ---- end to end ----

  // Reading a torrent and building the value of info_hash, as main and
  // buildAnnounceParameters do.  If the key `info` occurs once, decoding the
  // parameter gives the SHA-1 digest of exactly the source bytes of its value.
  method InfoHashParameter(torrent: string) returns (r: Result<string>)
    requires |torrent| < TWO_32 && AllBytes(torrent)
    ensures r.Ok? <==> Parse(torrent).Done?
    ensures r.Ok? ==>
              var t := Parse(torrent).value;
              InfoCount(t) == 1 ==>
                exists pre, e, post ::
                  && IsInfoSlice(torrent, pre, e, post) && InfoValues(t) == [e.val]
                  && AllBytes(Src(e.val))
                  && forall plusToSpace ::
                       DecodeUrl(r.value, plusToSpace) == DigestBytes(Sha1Spec.Sha1(ToBytes(Src(e.val))))
  {
    hide Sha1Spec.Sha1, Built, Collect, Parse;
    var manager := new BMemoryManager();
    var bParser := new BParser(manager);
    ghost var nodes;
    var root;
    root, nodes := bParser.ParseBencodedString(torrent, manager);
    if root.Err? {
      return Err;
    }
    ghost var t := Parse(torrent).value;
    CapturedAreBytes(torrent);
    var metainfo := new Metainfo(bParser.collectedInfoDict);
    GetSHA1(metainfo);
    var encoded := UrlEncode(metainfo.infoHashHex);
    ghost var digest := Sha1Spec.Sha1(ToBytes(metainfo.infodict));
    HexWordsArePairs(digest);
    forall plusToSpace: bool
      ensures DecodeUrl(encoded, plusToSpace) == DigestBytes(digest)
    {
      DecodePercentPairs(DigestBytes(digest), plusToSpace);
    }
    if InfoCount(t) == 1 {
      ghost var pre, e, post := CapturedSlice(torrent);
      assert IsInfoSlice(torrent, pre, e, post);
    }
    r := Ok(encoded);
  }

  // In the text s, the entry e under `info` stands between pre and post.
  ghost predicate IsInfoSlice(s: string, pre: string, e: Entry, post: string) {
    e.key == "info" && s == pre + KeySrc(e) + Src(e.val) + post
  }

  lemma CapturedAreBytes(s: string)
    requires Parse(s).Done? && AllBytes(s)
    ensures AllBytes(Collect(Parse(s).value, FRESH).text)
  {
    ParseSound(s);
    var t, rest := Parse(s).value, Parse(s).rest;
    assert forall i | 0 <= i < |Src(t)| :: Src(t)[i] == s[i];
    CollectBytes(t, FRESH);
  }

  lemma {:induction false} CollectBytes(t: Tree, c: Collector)
    requires AllBytes(Src(t)) && AllBytes(c.text)
    ensures AllBytes(Collect(t, c).text)
    decreases t, 1
  {
    match t
    case TInt(_, _) =>
    case TStr(_, _) =>
    case TList(items) =>
      SplitBytes("l", SrcItems(items) + "e");
      SplitBytes(SrcItems(items), "e");
      CollectItemsBytes(items, Eat(c, "l"));
    case TDict(entries) =>
      SplitBytes("d", SrcEntries(entries) + "e");
      SplitBytes(SrcEntries(entries), "e");
      CollectEntriesBytes(entries, Eat(c, "d"));
  }

  lemma SplitBytes(a: string, b: string)
    ensures AllBytes(a + b) <==> AllBytes(a) && AllBytes(b)
  {
    forall i | 0 <= i < |a|
      ensures (a + b)[i] == a[i]
    {
    }
    forall i | 0 <= i < |b|
      ensures (a + b)[|a| + i] == b[i]
    {
    }
  }

  lemma {:induction false} CollectItemsBytes(items: seq<Tree>, c: Collector)
    requires AllBytes(SrcItems(items)) && AllBytes(c.text)
    ensures AllBytes(CollectItems(items, c).text)
    decreases items, 0
  {
    if items != [] {
      SplitBytes(Src(items[0]), SrcItems(items[1..]));
      CollectBytes(items[0], c);
      CollectItemsBytes(items[1..], Collect(items[0], c));
    }
  }

  lemma {:induction false} CollectEntriesBytes(entries: seq<Entry>, c: Collector)
    requires AllBytes(SrcEntries(entries)) && AllBytes(c.text)
    ensures AllBytes(CollectEntries(entries, c).text)
    decreases entries, 3
  {
    if entries != [] {
      var e := entries[0];
      SplitBytes(EntrySrc(e), SrcEntries(entries[1..]));
      SplitBytes(KeySrc(e), Src(e.val));
      CollectBytes(e.val, AtValue(Eat(c, KeySrc(e)), e.key));
      CollectEntriesBytes(entries[1..], CollectEntry(e, c));
    }
  }
}
