// The side channels of the parser in btor/bencode.cpp: the bytes it captures
// while a value under the key `info` is being parsed, and the running sum of the
// integers under the key `length`.
module BencodeCollect {
  import opened BencodeSpec
  import opened Wrapping

  // collectInfoDict, collectedInfoDict and collectedLength
  datatype Collector = Collector(on: bool, text: string, total: int)

  const FRESH := Collector(false, "", 0)

  // Consuming the bytes s.
  function Eat(c: Collector, s: string): Collector {
    if c.on then c.(text := c.text + s) else c
  }

  function AtValue(c: Collector, key: string): Collector {
    if key == "info" then c.(on := true) else c
  }

  function AfterValue(c: Collector, e: Entry): Collector {
    if e.key == "info" then c.(on := false)
    else if e.key == "length" && e.val.TInt? then c.(total := Wrap64(c.total + e.val.n))
    else c
  }

  // What parsing the text of t does to the collector.
  function Collect(t: Tree, c: Collector): Collector
    decreases t, 1
  {
    match t
    case TInt(_, _) => Eat(c, Src(t))
    case TStr(_, _) => Eat(c, Src(t))
    case TList(items) => Eat(CollectItems(items, Eat(c, "l")), "e")
    case TDict(entries) => Eat(CollectEntries(entries, Eat(c, "d")), "e")
  }

  function CollectItems(items: seq<Tree>, c: Collector): Collector
    decreases items, 0
  {
    if items == [] then c else CollectItems(items[1..], Collect(items[0], c))
  }

  function CollectEntry(e: Entry, c: Collector): Collector
    decreases e, 2
  {
    AfterValue(Collect(e.val, AtValue(Eat(c, KeySrc(e)), e.key)), e)
  }

  function CollectEntries(entries: seq<Entry>, c: Collector): Collector
    decreases entries, 3
  {
    if entries == [] then c else CollectEntries(entries[1..], CollectEntry(entries[0], c))
  }

  // ---- the values under `info` ----

  // How many keys of t, at any depth, are `info`.
  function InfoCount(t: Tree): nat
    decreases t, 1
  {
    match t
    case TInt(_, _) => 0
    case TStr(_, _) => 0
    case TList(items) => InfoCountItems(items)
    case TDict(entries) => InfoCountEntries(entries)
  }

  function InfoCountItems(items: seq<Tree>): nat
    decreases items, 0
  {
    if items == [] then 0 else InfoCount(items[0]) + InfoCountItems(items[1..])
  }

  function InfoCountEntries(entries: seq<Entry>): nat
    decreases entries, 0
  {
    if entries == [] then 0
    else (if entries[0].key == "info" then 1 else 0) + InfoCount(entries[0].val) + InfoCountEntries(entries[1..])
  }

  // The outermost values under `info`, in source order.
  function InfoValues(t: Tree): seq<Tree>
    decreases t, 1
  {
    match t
    case TInt(_, _) => []
    case TStr(_, _) => []
    case TList(items) => InfoValuesItems(items)
    case TDict(entries) => InfoValuesEntries(entries)
  }

  function InfoValuesItems(items: seq<Tree>): seq<Tree>
    decreases items, 0
  {
    if items == [] then [] else InfoValues(items[0]) + InfoValuesItems(items[1..])
  }

  function InfoValuesEntry(e: Entry): seq<Tree>
    decreases e, 2
  {
    if e.key == "info" then [e.val] else InfoValues(e.val)
  }

  function InfoValuesEntries(entries: seq<Entry>): seq<Tree>
    decreases entries, 3
  {
    if entries == [] then [] else InfoValuesEntry(entries[0]) + InfoValuesEntries(entries[1..])
  }

  // No value under `info` holds another `info` key.
  predicate NoNestedInfo(values: seq<Tree>) {
    forall i | 0 <= i < |values| :: InfoCount(values[i]) == 0
  }

  // ---- the captured text ----

  // What a step did to the collector while it was on: it kept capturing all of
  // src, or an inner `info` switched it off and some of src was lost.
  ghost predicate WhileOn(c: Collector, c': Collector, src: string, hasInfo: bool, mayBeFull: bool) {
    if hasInfo then
      && !c'.on && |c'.text| <= |c.text| + |src|
      && (!mayBeFull ==> |c'.text| < |c.text| + |src|)
    else c'.on && c'.text == c.text + src
  }

  // What a step did while the collector was off: it stayed off, and captured
  // the outermost `info` values, all of them fully if none of them is nested.
  ghost predicate WhileOff(c: Collector, c': Collector, values: seq<Tree>) {
    && !c'.on
    && (NoNestedInfo(values) ==> c'.text == c.text + SrcItems(values))
    && (!NoNestedInfo(values) ==> |c'.text| < |c.text| + |SrcItems(values)|)
  }

  lemma {:induction false} InfoFitsInSource(t: Tree)
    ensures |SrcItems(InfoValues(t))| <= |Src(t)|
    ensures InfoCount(t) > 0 <==> InfoValues(t) != []
    decreases t, 1
  {
    match t
    case TInt(_, _) =>
    case TStr(_, _) =>
    case TList(items) => InfoFitsInItems(items);
    case TDict(entries) => InfoFitsInEntries(entries);
  }

  lemma {:induction false} InfoFitsInItems(items: seq<Tree>)
    ensures |SrcItems(InfoValuesItems(items))| <= |SrcItems(items)|
    ensures InfoCountItems(items) > 0 <==> InfoValuesItems(items) != []
    decreases items, 0
  {
    if items != [] {
      InfoFitsInSource(items[0]);
      InfoFitsInItems(items[1..]);
      SrcItemsConcat(InfoValues(items[0]), InfoValuesItems(items[1..]));
    }
  }

  lemma {:induction false} InfoFitsInEntries(entries: seq<Entry>)
    ensures |SrcItems(InfoValuesEntries(entries))| <= |SrcEntries(entries)|
    ensures InfoCountEntries(entries) > 0 <==> InfoValuesEntries(entries) != []
    decreases entries, 0
  {
    if entries != [] {
      InfoFitsInSource(entries[0].val);
      InfoFitsInEntries(entries[1..]);
      SrcItemsConcat(InfoValuesEntry(entries[0]), InfoValuesEntries(entries[1..]));
      SrcOfOne(entries[0].val);
    }
  }

  lemma SrcOfOne(t: Tree)
    ensures SrcItems([t]) == Src(t)
  {
    assert [t][1..] == [];
    assert SrcItems([t][1..]) == "";
  }

  lemma {:induction false} SrcItemsConcat(a: seq<Tree>, b: seq<Tree>)
    ensures SrcItems(a + b) == SrcItems(a) + SrcItems(b)
  {
    if a == [] {
      assert a + b == b;
    } else {
      assert (a + b)[1..] == a[1..] + b;
      SrcItemsConcat(a[1..], b);
    }
  }

  // Two steps in a row, the collector being off.
  lemma WhileOffTwice(c: Collector, c1: Collector, c2: Collector, a: seq<Tree>, b: seq<Tree>)
    requires WhileOff(c, c1, a) && WhileOff(c1, c2, b)
    ensures WhileOff(c, c2, a + b)
  {
    hide SrcItems, NoNestedInfo;
    SrcItemsConcat(a, b);
    NoNestedConcat(a, b);
    assert c.text + (SrcItems(a) + SrcItems(b)) == c.text + SrcItems(a) + SrcItems(b);
  }

  lemma NoNestedConcat(a: seq<Tree>, b: seq<Tree>)
    ensures NoNestedInfo(a + b) <==> NoNestedInfo(a) && NoNestedInfo(b)
  {
    hide InfoCount;
    forall i | 0 <= i < |a|
      ensures (a + b)[i] == a[i]
    {
    }
    forall i | 0 <= i < |b|
      ensures (a + b)[|a| + i] == b[i]
    {
    }
  }

  lemma {:induction false} CollectOn(t: Tree, c: Collector)
    requires c.on
    ensures WhileOn(c, Collect(t, c), Src(t), InfoCount(t) > 0, false)
    decreases t, 1
  {
    match t
    case TInt(_, _) =>
    case TStr(_, _) =>
    case TList(items) => CollectItemsOn(items, Eat(c, "l"));
    case TDict(entries) => CollectEntriesOn(entries, Eat(c, "d"));
  }

  lemma {:induction false} CollectItemsOn(items: seq<Tree>, c: Collector)
    requires c.on
    ensures WhileOn(c, CollectItems(items, c), SrcItems(items), InfoCountItems(items) > 0, false)
    decreases items, 0
  {
    if items != [] {
      var c1 := Collect(items[0], c);
      CollectOn(items[0], c);
      if c1.on {
        CollectItemsOn(items[1..], c1);
      } else {
        CollectItemsOff(items[1..], c1);
        InfoFitsInItems(items[1..]);
      }
    }
  }

  lemma {:induction false} CollectEntryOn(e: Entry, c: Collector)
    requires c.on
    ensures WhileOn(c, CollectEntry(e, c), EntrySrc(e), e.key == "info" || InfoCount(e.val) > 0, true)
    decreases e, 2
  {
    CollectOn(e.val, Eat(c, KeySrc(e)));
  }

  lemma {:induction false} CollectEntriesOn(entries: seq<Entry>, c: Collector)
    requires c.on
    ensures WhileOn(c, CollectEntries(entries, c), SrcEntries(entries), InfoCountEntries(entries) > 0, true)
    decreases entries, 3
  {
    if entries != [] {
      var c1 := CollectEntry(entries[0], c);
      CollectEntryOn(entries[0], c);
      if c1.on {
        CollectEntriesOn(entries[1..], c1);
      } else {
        CollectEntriesOff(entries[1..], c1);
        InfoFitsInEntries(entries[1..]);
      }
    }
  }

  lemma {:induction false} CollectOff(t: Tree, c: Collector)
    requires !c.on
    ensures WhileOff(c, Collect(t, c), InfoValues(t))
    decreases t, 1
  {
    match t
    case TInt(_, _) =>
    case TStr(_, _) =>
    case TList(items) => CollectItemsOff(items, c);
    case TDict(entries) => CollectEntriesOff(entries, c);
  }

  lemma {:induction false} CollectItemsOff(items: seq<Tree>, c: Collector)
    requires !c.on
    ensures WhileOff(c, CollectItems(items, c), InfoValuesItems(items))
    decreases items, 0
  {
    if items != [] {
      var c1 := Collect(items[0], c);
      CollectOff(items[0], c);
      CollectItemsOff(items[1..], c1);
      WhileOffTwice(c, c1, CollectItems(items, c), InfoValues(items[0]), InfoValuesItems(items[1..]));
    }
  }

  lemma {:induction false} CollectEntryOff(e: Entry, c: Collector)
    requires !c.on
    ensures WhileOff(c, CollectEntry(e, c), InfoValuesEntry(e))
    decreases e, 2
  {
    if e.key == "info" {
      CollectOn(e.val, c.(on := true));
      SrcOfOne(e.val);
    } else {
      CollectOff(e.val, c);
    }
  }

  lemma {:induction false} CollectEntriesOff(entries: seq<Entry>, c: Collector)
    requires !c.on
    ensures WhileOff(c, CollectEntries(entries, c), InfoValuesEntries(entries))
    decreases entries, 3
  {
    if entries != [] {
      var c1 := CollectEntry(entries[0], c);
      CollectEntryOff(entries[0], c);
      CollectEntriesOff(entries[1..], c1);
      WhileOffTwice(c, c1, CollectEntries(entries, c), InfoValuesEntry(entries[0]), InfoValuesEntries(entries[1..]));
    }
  }

  // A parse that starts with capturing off appends exactly the source text of
  // the outermost `info` values if and only if none of them holds another
  // `info` key; otherwise some of that text is lost.
  lemma CapturedExactly(t: Tree, c: Collector)
    requires !c.on
    ensures !Collect(t, c).on
    ensures Collect(t, c).text == c.text + SrcItems(InfoValues(t)) <==> NoNestedInfo(InfoValues(t))
  {
    CollectOff(t, c);
  }

  // In src, the entry e stands between pre and post.
  ghost predicate Between(src: string, pre: string, e: Entry, post: string) {
    src == pre + EntrySrc(e) + post
  }

  lemma BetweenMore(src: string, pre: string, e: Entry, post: string, before: string, after: string)
    requires Between(src, pre, e, post)
    ensures Between(before + src + after, before + pre, e, post + after)
  {
    hide EntrySrc;
  }

  // With a single `info` key, at any depth: where its entry lies in the source.
  lemma {:induction false} SoleInfo(t: Tree) returns (pre: string, e: Entry, post: string)
    requires InfoCount(t) == 1
    ensures e.key == "info" && InfoValues(t) == [e.val] && InfoCount(e.val) == 0
    ensures Between(Src(t), pre, e, post)
    decreases t, 1
  {
    hide Between;
    match t
    case TList(items) =>
      pre, e, post := SoleInfoItems(items);
      BetweenMore(SrcItems(items), pre, e, post, "l", "e");
      assert Src(t) == "l" + SrcItems(items) + "e";
      pre, post := "l" + pre, post + "e";
    case TDict(entries) =>
      pre, e, post := SoleInfoEntries(entries);
      BetweenMore(SrcEntries(entries), pre, e, post, "d", "e");
      assert Src(t) == "d" + SrcEntries(entries) + "e";
      pre, post := "d" + pre, post + "e";
  }

  lemma {:induction false} SoleInfoItems(items: seq<Tree>) returns (pre: string, e: Entry, post: string)
    requires InfoCountItems(items) == 1
    ensures e.key == "info" && InfoValuesItems(items) == [e.val] && InfoCount(e.val) == 0
    ensures Between(SrcItems(items), pre, e, post)
    decreases items, 0
  {
    hide Between, Src;
    if InfoCount(items[0]) == 1 {
      pre, e, post := SoleInfo(items[0]);
      BetweenMore(Src(items[0]), pre, e, post, "", SrcItems(items[1..]));
      InfoFitsInItems(items[1..]);
      assert SrcItems(items) == "" + Src(items[0]) + SrcItems(items[1..]);
      pre, post := "" + pre, post + SrcItems(items[1..]);
    } else {
      pre, e, post := SoleInfoItems(items[1..]);
      BetweenMore(SrcItems(items[1..]), pre, e, post, Src(items[0]), "");
      InfoFitsInSource(items[0]);
      assert SrcItems(items) == Src(items[0]) + SrcItems(items[1..]) + "";
      pre, post := Src(items[0]) + pre, post + "";
    }
  }

  lemma {:induction false} SoleInfoEntries(entries: seq<Entry>) returns (pre: string, e: Entry, post: string)
    requires InfoCountEntries(entries) == 1
    ensures e.key == "info" && InfoValuesEntries(entries) == [e.val] && InfoCount(e.val) == 0
    ensures Between(SrcEntries(entries), pre, e, post)
    decreases entries, 0
  {
    hide Between, Src, KeySrc;
    var tail := SrcEntries(entries[1..]);
    InfoFitsInEntries(entries[1..]);
    InfoFitsInSource(entries[0].val);
    if entries[0].key == "info" {
      pre, e, post := "", entries[0], tail;
      BetweenHere(entries[0], tail);
    } else if InfoCount(entries[0].val) == 1 {
      pre, e, post := SoleInfo(entries[0].val);
      BetweenMore(Src(entries[0].val), pre, e, post, KeySrc(entries[0]), tail);
      pre, post := KeySrc(entries[0]) + pre, post + tail;
    } else {
      pre, e, post := SoleInfoEntries(entries[1..]);
      BetweenMore(tail, pre, e, post, EntrySrc(entries[0]), "");
      assert SrcEntries(entries) == EntrySrc(entries[0]) + tail + "";
      pre, post := EntrySrc(entries[0]) + pre, post + "";
    }
  }

  lemma BetweenHere(e: Entry, post: string)
    ensures Between(EntrySrc(e) + post, "", e, post)
  {
  }

  // A fresh parser that accepts an input in which the key `info` occurs once, at
  // any depth, has captured exactly the slice of the input that is its value.
  lemma CapturedSlice(s: string) returns (pre: string, e: Entry, post: string)
    requires Parse(s).Done? && InfoCount(Parse(s).value) == 1
    ensures e.key == "info" && InfoValues(Parse(s).value) == [e.val]
    ensures s == pre + KeySrc(e) + Src(e.val) + post
    ensures Collect(Parse(s).value, FRESH).text == Src(e.val)
  {
    hide Src, KeySrc;
    var t := Parse(s).value;
    ParseSound(s);
    pre, e, post := SoleInfo(t);
    assert s == pre + EntrySrc(e) + (post + Parse(s).rest);
    post := post + Parse(s).rest;
    CapturedExactly(t, FRESH);
    SrcOfOne(e.val);
  }

  const NESTED := "d4:infod4:infoi1eee"

  // A nested `info` key ends the capture early: a fresh parser accepts this input, and
  // what it has captured is not the text of the outer value.
  lemma NestedInfoLosesText()
    ensures Parse(NESTED).Done? && Parse(NESTED).rest == ""
    ensures InfoValues(Parse(NESTED).value) == [NestedValue()] && Src(NestedValue()) == "d4:infoi1ee"
    ensures Collect(Parse(NESTED).value, FRESH).text != Src(NestedValue())
  {
    hide Parse;
    NestedIsParsed();
    var one, two := Entry("4", "info", TInt("1", 1)), Entry("4", "info", NestedValue());
    assert [one][1..] == [] && [two][1..] == [];
    assert InfoCountEntries([one]) == 1;
    assert InfoValuesEntries([two]) == InfoValuesEntry(two);
    CapturedExactly(TDict([two]), FRESH);
    SrcOfOne(NestedValue());
    assert !NoNestedInfo(InfoValues(TDict([two]))) by {
      assert InfoCount(InfoValues(TDict([two]))[0]) == 1;
    }
  }

  function NestedValue(): Tree { TDict([Entry("4", "info", TInt("1", 1))]) }

  lemma NestedIsParsed()
    ensures Parse(NESTED) == Done(TDict([Entry("4", "info", NestedValue())]), "")
    ensures Src(NestedValue()) == "d4:infoi1ee"
  {
    hide Valid, Src, Parse;
    var one, two := Entry("4", "info", TInt("1", 1)), Entry("4", "info", NestedValue());
    IntOne();
    InfoEntry(one.val, "i1e");
    InfoEntry(two.val, "d4:info" + "i1e" + "e");
    NestedText();
    ParseComplete(TDict([two]), "");
  }

  lemma NestedText()
    ensures "d4:info" + "i1e" + "e" == "d4:infoi1ee" && "d4:info" + "d4:infoi1ee" + "e" + "" == NESTED
  {
  }

  lemma IntOne()
    ensures Valid(TInt("1", 1)) && Src(TInt("1", 1)) == "i1e"
  {
    assert Decimal("1") == 1 by { assert "1"[..0] == ""; }
  }

  lemma InfoEntry(val: Tree, src: string)
    requires Valid(val) && Src(val) == src
    ensures var t := TDict([Entry("4", "info", val)]); Valid(t) && Src(t) == "d4:info" + src + "e"
  {
    hide Valid;
    var e := Entry("4", "info", val);
    assert Decimal("4") == 4 by { assert "4"[..0] == ""; }
    assert [e][1..] == [] && SrcEntries([e]) == EntrySrc(e) + "";
    assert "d" + ("4:info" + src + "" + "e") == "d4:info" + src + "e";
    assert ValidEntry(e);
    DictIsValid([e]);
  }

  lemma DictIsValid(entries: seq<Entry>)
    requires entries != [] && forall i | 0 <= i < |entries| :: ValidEntry(entries[i])
    ensures Valid(TDict(entries))
  {
  }

  // ---- the sum of the lengths ----

  // The sum of all integers under the key `length`, at any depth, in every
  // occurrence in the source.
  function LengthSum(t: Tree): int
    decreases t, 1
  {
    match t
    case TInt(_, _) => 0
    case TStr(_, _) => 0
    case TList(items) => LengthSumItems(items)
    case TDict(entries) => LengthSumEntries(entries)
  }

  function LengthSumItems(items: seq<Tree>): int
    decreases items, 0
  {
    if items == [] then 0 else LengthSum(items[0]) + LengthSumItems(items[1..])
  }

  function LengthSumEntries(entries: seq<Entry>): int
    decreases entries, 0
  {
    if entries == [] then 0
    else
      var e := entries[0];
      (if e.key == "length" && e.val.TInt? then e.val.n else 0) + LengthSum(e.val) + LengthSumEntries(entries[1..])
  }

  lemma {:induction false} CollectSums(t: Tree, c: Collector)
    requires c.total == Wrap64(c.total)
    ensures Collect(t, c).total == Wrap64(c.total + LengthSum(t))
    decreases t, 1
  {
    match t
    case TInt(_, _) =>
    case TStr(_, _) =>
    case TList(items) => CollectItemsSums(items, Eat(c, "l"));
    case TDict(entries) => CollectEntriesSums(entries, Eat(c, "d"));
  }

  // For a list of trees, and so for any run of successful parses on one parser.
  lemma {:induction false} CollectItemsSums(items: seq<Tree>, c: Collector)
    requires c.total == Wrap64(c.total)
    ensures CollectItems(items, c).total == Wrap64(c.total + LengthSumItems(items))
    decreases items, 0
  {
    if items != [] {
      var c1 := Collect(items[0], c);
      CollectSums(items[0], c);
      WrapPlus64(c.total + LengthSum(items[0]), 0);
      CollectItemsSums(items[1..], c1);
      WrapPlus64(c.total + LengthSum(items[0]), LengthSumItems(items[1..]));
    }
  }

  function LengthOfEntry(e: Entry): int {
    (if e.key == "length" && e.val.TInt? then e.val.n else 0) + LengthSum(e.val)
  }

  lemma {:induction false} CollectEntrySums(e: Entry, c: Collector)
    requires c.total == Wrap64(c.total)
    ensures CollectEntry(e, c).total == Wrap64(c.total + LengthOfEntry(e))
    decreases e, 2
  {
    hide Wrap64;
    CollectSums(e.val, AtValue(Eat(c, KeySrc(e)), e.key));
    WrapPlus64(c.total + LengthSum(e.val), if e.key == "length" && e.val.TInt? then e.val.n else 0);
  }

  lemma {:induction false} CollectEntriesSums(entries: seq<Entry>, c: Collector)
    requires c.total == Wrap64(c.total)
    ensures CollectEntries(entries, c).total == Wrap64(c.total + LengthSumEntries(entries))
    decreases entries, 3
  {
    hide Wrap64;
    if entries != [] {
      var n := LengthOfEntry(entries[0]);
      CollectEntrySums(entries[0], c);
      WrapPlus64(c.total + n, 0);
      CollectEntriesSums(entries[1..], CollectEntry(entries[0], c));
      WrapPlus64(c.total + n, LengthSumEntries(entries[1..]));
    }
  }
}
