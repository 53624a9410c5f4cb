// BParser of btor/bencode.cpp, proved against the pure parser of BencodeSpec, the
// collector of BencodeCollect and the heap shape of Bencode.
module BencodeParser {
  import opened BencodeSpec
  import opened Text
  import opened BencodeCollect
  import opened Bencode
  import opened Wrappers
  import opened Wrapping

  // The manager kept its objects and registered these new ones, each of them once.
  twostate predicate Grown(m: BMemoryManager, new nodes: seq<BObject>)
    reads m
  {
    && m.objects == old(m.objects) + nodes
    && (forall i | 0 <= i < |nodes| :: fresh(nodes[i]))
    && Distinct(nodes)
  }

  lemma DistinctTogether(nodes: seq<BObject>, more: seq<BObject>)
    requires Distinct(nodes) && Distinct(more)
    requires forall i, j | 0 <= i < |nodes| && 0 <= j < |more| :: nodes[i] != more[j]
    ensures Distinct(nodes + more)
  {
  }

  // Growing once and then again is growing by both.
  twostate lemma GrownTwice(m: BMemoryManager, new nodes: seq<BObject>, new more: seq<BObject>)
    requires m.objects == old(m.objects) + nodes + more
    requires forall i | 0 <= i < |nodes| :: fresh(nodes[i])
    requires forall i | 0 <= i < |more| :: fresh(more[i])
    requires Distinct(nodes) && Distinct(more)
    requires forall i, j | 0 <= i < |nodes| && 0 <= j < |more| :: nodes[i] != more[j]
    ensures Grown(m, nodes + more)
  {
    DistinctTogether(nodes, more);
    assert old(m.objects) + nodes + more == old(m.objects) + (nodes + more);
  }

  lemma EatTwice(c: Collector, a: string, b: string)
    ensures Eat(Eat(c, a), b) == Eat(c, a + b)
  {
    assert c.text + a + b == c.text + (a + b);
  }

  lemma OneMore(body: string, c: char, rest: string)
    ensures body + ([c] + rest) == body + [c] + rest
  {
  }

  lemma IntStart(c: Collector)
    ensures Wrap64(Decimal("")) == 0 && IntBody("") && Eat(c, "") == c
  {
    assert c.text + "" == c.text;
  }

  // The parse of an integer, from the text between `i` and `e`.
  lemma IntAsWhole(s: string, c: Collector)
    requires s != "" && s[0] == 'i'
    ensures var n := Find(s[1..], 'e');
            var body := s[1..][..n];
            && (Parse(s).Done? <==> n < |s[1..]| && IntBody(body))
            && (Parse(s).Done? ==>
                  && Parse(s) == Done(TInt(body, IntOf(body)), s[1..][n + 1..])
                  && Collect(Parse(s).value, c) == Eat(Eat(c, "i"), body + "e"))
  {
    hide IntOf, IntBody, Find, Eat;
    var n := Find(s[1..], 'e');
    var body := s[1..][..n];
    EatTwice(c, "i", body + "e");
    assert "i" + (body + "e") == "i" + body + "e";
    if n < |s[1..]| {
      assert s[1..][n + 1..] == s[n + 2..];
    }
  }

  lemma LengthStart(c: Collector)
    ensures Wrap32(Decimal("")) == 0 && Eat(c, "") == c
  {
    assert c.text + "" == c.text;
  }

  class BParser {
    var cursor: nat
    var parseBuf: string
    var manager: BMemoryManager
    var collectInfoDict: bool
    var collectedLength: int
    var collectedInfoDict: string

    // The capture state and the sum.
    ghost function State(): Collector
      reads this
    {
      Collector(collectInfoDict, collectedInfoDict, collectedLength)
    }

    // The cursor is an unsigned 32-bit integer.
    ghost predicate Ready()
      reads this
    {
      cursor <= |parseBuf| < TWO_32
    }

    // The input that has not been consumed.
    ghost function Rest(): string
      requires Ready()
      reads this
    {
      parseBuf[cursor..]
    }

    // What a parsing method that started on the text s with the collector c has
    // done: it failed, or consumed the text of a tree, collected accordingly,
    // and returned the root of new objects that hold the tree.
    ghost predicate Parsed(s: string, c: Collector, r: Result<BObject>, nodes: seq<BObject>)
      requires Ready()
      reads this, nodes
    {
      var p := Parse(s);
      && (r.Ok? <==> p.Done?)
      && (r.Ok? ==>
            && Rest() == p.rest && State() == Collect(p.value, c)
            && Built(nodes, p.value) && r.value == nodes[0])
    }

    constructor (manager: BMemoryManager)
      ensures Ready() && State() == FRESH && this.manager == manager
    {
      cursor := 0;
      parseBuf := "";
      this.manager := manager;
      collectInfoDict, collectedLength, collectedInfoDict := false, 0, "";
    }

    method ConsumeChar() returns (r: Result<char>)
      requires Ready()
      modifies `cursor, `collectedInfoDict
      ensures Ready()
      ensures r.Ok? <==> old(Rest()) != ""
      ensures r.Ok? ==> old(Rest()) == [r.value] + Rest() && State() == Eat(old(State()), [r.value])
      ensures r.Err? ==> Rest() == old(Rest()) && State() == old(State())
    {
      if cursor >= |parseBuf| {
        return Err;
      }
      var tmp := parseBuf[cursor];
      if collectInfoDict {
        collectedInfoDict := collectedInfoDict + [tmp];
      }
      cursor := cursor + 1;
      return Ok(tmp);
    }

    method PeekChar() returns (r: Result<char>)
      requires Ready()
      ensures r == if Rest() == "" then Err else Ok(Rest()[0])
    {
      if cursor >= |parseBuf| {
        return Err;
      }
      return Ok(parseBuf[cursor]);
    }

    // The length prefix, up to and including the colon.
    method ExtractLength() returns (r: Result<int>)
      requires Ready()
      modifies `cursor, `collectedInfoDict
      ensures Ready()
      ensures var s := old(Rest());
              var n := DigitsPrefix(s);
              && (r.Ok? <==> n < |s| && s[n] == ':')
              && (r.Ok? ==>
                    && r.value == Wrap32(Decimal(s[..n])) && Rest() == s[n + 1..]
                    && State() == Eat(old(State()), s[..n] + ":"))
    {
      hide Wrap32, Decimal, DigitsPrefix, Eat;
      ghost var s, c := Rest(), State();
      var stringlength := 0;
      ghost var k := 0;
      LengthStart(c);
      while true
        invariant Ready() && k <= |s| && Rest() == s[k..] && IsDigits(s[..k])
        invariant State() == Eat(c, s[..k])
        invariant stringlength == Wrap32(Decimal(s[..k]))
        decreases |s| - k
      {
        assert s == s[..k] + s[k..];
        var curChar := ConsumeChar();
        if curChar.Err? {
          assert s[..k] == s;
          DigitsPrefixOf(s, "");
          assert s + "" == s;
          return Err;
        }
        EatTwice(c, s[..k], [curChar.value]);
        assert s[..k] + [curChar.value] == s[..k + 1];
        if curChar.value == ':' || !IsDigit(curChar.value) {
          DigitsPrefixOf(s[..k], s[k..]);
          if curChar.value != ':' {
            return Err;
          }
          return Ok(stringlength);
        }
        WrapDigit32(Decimal(s[..k]), curChar.value as int - '0' as int);
        DecimalMore(s[..k], curChar.value);
        stringlength := Wrap32(stringlength * 10 + (curChar.value as int - '0' as int));
        k := k + 1;
      }
    }

    // Consume as many bytes as it takes to count the 32-bit length down to zero.
    method ExtractBytes(length: int) returns (r: Result<string>)
      requires Ready() && length == Wrap32(length)
      modifies `cursor, `collectedInfoDict
      ensures Ready()
      ensures var s, n := old(Rest()), length % TWO_32;
              && (r.Ok? <==> n <= |s|)
              && (r.Ok? ==> r.value == s[..n] && Rest() == s[n..] && State() == Eat(old(State()), s[..n]))
    {
      hide Wrap32;
      ghost var s, c := Rest(), State();
      var stringlength := length;
      var rstring := "";
      CountDown32(length, 0);
      while stringlength != 0
        invariant Ready() && |rstring| <= |s| && rstring == s[..|rstring|] && Rest() == s[|rstring|..]
        invariant State() == Eat(c, rstring)
        invariant stringlength == Wrap32(length - |rstring|) && |rstring| <= length % TWO_32
        decreases |s| - |rstring|
      {
        CountDown32(length, |rstring|);
        var ch := ConsumeChar();
        if ch.Err? {
          return Err;
        }
        WrapPlus32(length - |rstring|, -1);
        rstring := rstring + [ch.value];
        stringlength := Wrap32(stringlength - 1);
      }
      CountDown32(length, |rstring|);
      return Ok(rstring);
    }

    method ExtractString() returns (r: Result<string>)
      requires Ready()
      modifies `cursor, `collectedInfoDict
      ensures Ready()
      ensures var p := ParseText(old(Rest()));
              && (r.Ok? <==> p.Done?)
              && (r.Ok? ==>
                    && r.value == p.value.1 && Rest() == p.rest
                    && State() == Eat(old(State()), p.value.0 + ":" + p.value.1))
    {
      ghost var s, c := Rest(), State();
      hide Wrap32, Decimal, Eat, DigitsPrefix;
      var stringlength := ExtractLength();
      if stringlength.Err? {
        return Err;
      }
      ghost var digits := s[..DigitsPrefix(s)];
      Residue32(Decimal(digits));
      WrapPlus32(Decimal(digits), 0);
      r := ExtractBytes(stringlength.value);
      if r.Ok? {
        EatTwice(c, digits + ":", r.value);
      }
    }

    // Consume characters up to and including the first `e`; body is the text
    // before it.
    method ScanInt() returns (ok: bool, intVal: int, negativeNumber: bool, ghost body: string)
      requires Ready()
      modifies `cursor, `collectedInfoDict
      ensures Ready()
      ensures ok ==>
                && old(Rest()) == body + ("e" + Rest()) && IntBody(body)
                && intVal == Wrap64(Decimal(body)) && negativeNumber == (body != "" && body[0] == '-')
                && State() == Eat(old(State()), body + "e")
      ensures !ok ==>
                var n := Find(old(Rest()), 'e');
                n < |old(Rest())| ==> !IntBody(old(Rest())[..n])
    {
      hide Wrap64, Decimal, IntBody, Eat, Find, IsDigit;
      ghost var s, c := Rest(), State();
      var firstChar := true;
      intVal, negativeNumber, body := 0, false, "";
      IntStart(c);
      while true
        invariant Ready() && s == body + Rest()
        invariant State() == Eat(c, body)
        invariant IntBody(body) && 'e' !in body
        invariant intVal == Wrap64(Decimal(body))
        invariant firstChar == (body == "") && negativeNumber == (body != "" && body[0] == '-')
        decreases |s| - |body|
      {
        var next := ConsumeChar();
        if next.Err? {
          FindNotBefore(s, 'e', |s|);
          return false, 0, false, "";
        }
        var curChar := next.value;
        EatTwice(c, body, [curChar]);
        OneMore(body, curChar, Rest());
        if curChar == 'e' {
          return true, intVal, negativeNumber, body;
        }
        if curChar == '-' && firstChar {
          negativeNumber := true;
        } else if curChar == '-' {
          MinusInside(s, |body|);
          return false, 0, false, "";
        }
        IntBodyMore(body, curChar);
        IntStep(body, curChar);
        intVal := if IsDigit(curChar) then Wrap64(intVal * 10 + (curChar as int - '0' as int)) else intVal;
        firstChar := false;
        body := body + [curChar];
      }
    }

    // The text between `i` and `e`, as a wrapped integer.
    method ExtractInt() returns (r: Result<int>)
      requires Ready()
      modifies `cursor, `collectedInfoDict
      ensures Ready()
      ensures var s := old(Rest());
              var n := Find(s, 'e');
              && (r.Ok? <==> n < |s| && IntBody(s[..n]))
              && (r.Ok? ==>
                    && r.value == IntOf(s[..n]) && Rest() == s[n + 1..]
                    && State() == Eat(old(State()), s[..n] + "e"))
    {
      hide Wrap64, Decimal, Eat, IntOf;
      ghost var s := Rest();
      var ok, intVal, negativeNumber, body := ScanInt();
      if !ok {
        return Err;
      }
      FindIn(body, 'e', "e" + Rest());
      assert s[..|body|] == body;
      IntDone(body);
      if negativeNumber {
        intVal := Wrap64(-intVal);
      }
      return Ok(intVal);
    }

    method ParseInteger() returns (r: Result<BObject>, ghost nodes: seq<BObject>)
      requires Ready() && Rest() != "" && Rest()[0] == 'i'
      modifies `cursor, `collectedInfoDict, manager`objects
      ensures Ready() && Grown(manager, nodes)
      ensures Parsed(old(Rest()), old(State()), r, nodes)
    {
      hide IntOf, IntBody, Eat, Parse, Collect, Built, Find;
      ghost var s, c := Rest(), State();
      IntAsWhole(s, c);
      var curChar := ConsumeChar();
      assert s[1..] == Rest();
      var intVal := ExtractInt();
      if intVal.Err? {
        return Err, [];
      }
      var o := manager.NewOfInt(intVal.value);
      r, nodes := Ok(o), [o];
      NewInt(nodes, Parse(s).value);
    }

    method ParseString() returns (r: Result<BObject>, ghost nodes: seq<BObject>)
      requires Ready() && Rest() != "" && IsDigit(Rest()[0])
      modifies `cursor, `collectedInfoDict, manager`objects
      ensures Ready() && Grown(manager, nodes)
      ensures Parsed(old(Rest()), old(State()), r, nodes)
    {
      var bString := ExtractString();
      if bString.Err? {
        return Err, [];
      }
      var o := manager.NewOfString(bString.value);
      r, nodes := Ok(o), [o];
    }

    method ParseArbitrary() returns (r: Result<BObject>, ghost nodes: seq<BObject>)
      requires Ready()
      modifies `cursor, `collectInfoDict, `collectedInfoDict, `collectedLength, manager`objects
      ensures Ready() && Grown(manager, nodes)
      ensures Parsed(old(Rest()), old(State()), r, nodes)
      decreases |parseBuf| - cursor, 3
    {
      hide Collect, Built, ParseItems, ParseEntries, ParseInt, ParseText;
      if cursor < |parseBuf| {
        var peeked := PeekChar();
        var ch := peeked.value;
        if ch == 'i' {
          r, nodes := ParseInteger();
        } else if ch == 'l' {
          r, nodes := ParseList();
        } else if ch == 'd' {
          r, nodes := ParseDictionary();
        } else if '0' <= ch <= '9' {
          r, nodes := ParseString();
        } else {
          return Err, [];
        }
      } else {
        // The source has no return statement here.
        return Err, [];
      }
    }

    // One pass of the loop of ParseList: parse an item and push it.
    method ParseItem(list: BObject, ghost mine: seq<BObject>, ghost items: seq<Tree>)
      returns (ok: bool, ghost nodes: seq<BObject>)
      requires Ready()
      requires Distinct(mine) && Built(mine, TList(items)) && mine[0] == list
      modifies `cursor, `collectInfoDict, `collectedInfoDict, `collectedLength, manager`objects, list`listVal
      ensures Ready() && Grown(manager, nodes)
      ensures var p := Parse(old(Rest()));
              && (ok <==> p.Done?)
              && (ok ==>
                    && Rest() == p.rest && State() == Collect(p.value, old(State()))
                    && Built(mine + nodes, TList(items + [p.value])))
      decreases |parseBuf| - cursor, 4
    {
      hide Collect, Parse;
      ghost var s := Rest();
      var curVal;
      curVal, nodes := ParseArbitrary();
      if curVal.Err? {
        return false, nodes;
      }
      assert BuiltItems(mine[1..], items);
      var pushed := list.PushBack(curVal.value);
      assert BuiltItems(mine[1..], items);
      BuiltListMore(mine, items, nodes, Parse(s).value);
      return true, nodes;
    }

    method ParseList() returns (r: Result<BObject>, ghost nodes: seq<BObject>)
      requires Ready() && Rest() != "" && Rest()[0] == 'l'
      modifies `cursor, `collectInfoDict, `collectedInfoDict, `collectedLength, manager`objects
      ensures Ready() && Grown(manager, nodes)
      ensures Parsed(old(Rest()), old(State()), r, nodes)
      decreases |parseBuf| - cursor, 2
    {
      hide Built, Eat, Prepend, ParseItems, CollectItems, Collect, BencodeSpec.Parse;
      ghost var s, c := Rest(), State();
      ListAsWhole(s, c);
      var curChar := ConsumeChar();
      assert Rest() == s[1..];
      var bObj := manager.NewOfType(BList);
      nodes := [bObj];
      ghost var items: seq<Tree> := [];
      NewList(nodes);
      PrependNothing(ParseItems(s[1..]));
      while true
        invariant Ready() && cursor > old(cursor)
        invariant Grown(manager, nodes) && |nodes| > 0 && nodes[0] == bObj
        invariant Built(nodes, TList(items))
        invariant State() == CollectItems(items, Eat(c, "l"))
        invariant ParseItems(s[1..]) == Prepend(items, ParseItems(Rest()))
        decreases |parseBuf| - cursor
      {
        ghost var text := Rest();
        var ok;
        ghost var more;
        ItemsStep(items, text);
        ok, more := ParseItem(bObj, nodes, items);
        GrownTwice(manager, nodes, more);
        hide Grown;
        nodes := nodes + more;
        if !ok {
          return Err, nodes;
        }
        ghost var t := BencodeSpec.Parse(text).value;
        CollectItemsMore(items, t, Eat(c, "l"));
        var next := PeekChar();
        if next.Err? {
          return Err, nodes;
        }
        if next.value == 'e' {
          items := items + [t];
          break;
        }
        items := items + [t];
      }
      curChar := ConsumeChar();
      r := Ok(bObj);
    }

    // The first half of the loop of ParseDictionary: parse a key and its value.
    method ParseKeyValue() returns (r: Result<(string, BObject)>, ghost nodes: seq<BObject>)
      requires Ready()
      modifies `cursor, `collectInfoDict, `collectedInfoDict, `collectedLength, manager`objects
      ensures Ready() && Grown(manager, nodes)
      ensures var p := ParseEntry(old(Rest()));
              && (r.Ok? <==> p.Done?)
              && (r.Ok? ==>
                    && Rest() == p.rest && State() == CollectEntry(p.value, old(State()))
                    && Built(nodes, p.value.val) && r.value == (p.value.key, nodes[0]))
      decreases |parseBuf| - cursor, 4
    {
      hide Collect, Parse, Eat, ParseText;
      ghost var s := Rest();
      var curKey := ExtractString();
      if curKey.Err? {
        return Err, [];
      }
      var grabLength := false;
      if curKey.value == "info" {
        collectInfoDict := true;
      } else if curKey.value == "length" {
        grabLength := true;
      }
      var curVal;
      curVal, nodes := ParseArbitrary();
      if curVal.Err? {
        return Err, nodes;
      }
      if curKey.value == "info" {
        collectInfoDict := false;
      } else if grabLength {
        var n := curVal.value.GetInt();
        if n.Err? {
          return Err, nodes;
        }
        collectedLength := Wrap64(collectedLength + n.value);
      }
      r := Ok((curKey.value, curVal.value));
    }

    // One pass of the loop of ParseDictionary.
    method ParseDictEntry(dict: BObject, ghost mine: seq<BObject>, ghost entries: seq<Entry>)
      returns (ok: bool, ghost nodes: seq<BObject>)
      requires Ready()
      requires Distinct(mine) && Built(mine, TDict(entries)) && mine[0] == dict
      modifies `cursor, `collectInfoDict, `collectedInfoDict, `collectedLength, manager`objects, dict`dictVal
      ensures Ready() && Grown(manager, nodes)
      ensures var p := ParseEntry(old(Rest()));
              && (ok <==> p.Done?)
              && (ok ==>
                    && Rest() == p.rest && State() == CollectEntry(p.value, old(State()))
                    && Built(mine + nodes, TDict(entries + [p.value])))
      decreases |parseBuf| - cursor, 5
    {
      hide CollectEntry, ParseEntry;
      ghost var s := Rest();
      var keyValue;
      keyValue, nodes := ParseKeyValue();
      if keyValue.Err? {
        return false, nodes;
      }
      assert BuiltEntries(mine[1..], entries);
      var added := dict.AddKeyValue(keyValue.value.0, keyValue.value.1);
      assert BuiltEntries(mine[1..], entries);
      BuiltDictMore(mine, entries, nodes, ParseEntry(s).value);
      return true, nodes;
    }

    method ParseDictionary() returns (r: Result<BObject>, ghost nodes: seq<BObject>)
      requires Ready() && Rest() != "" && Rest()[0] == 'd'
      modifies `cursor, `collectInfoDict, `collectedInfoDict, `collectedLength, manager`objects
      ensures Ready() && Grown(manager, nodes)
      ensures Parsed(old(Rest()), old(State()), r, nodes)
      decreases |parseBuf| - cursor, 2
    {
      hide Built, Eat, Prepend, ParseEntries, CollectEntries, CollectEntry, ParseEntry, Collect, Parse;
      ghost var s, c := Rest(), State();
      DictAsWhole(s, c);
      var curChar := ConsumeChar();
      assert Rest() == s[1..];
      var bObj := manager.NewOfType(BDict);
      nodes := [bObj];
      ghost var entries: seq<Entry> := [];
      NewDict(nodes);
      PrependNothing(ParseEntries(s[1..]));
      while true
        invariant Ready() && cursor > old(cursor)
        invariant Grown(manager, nodes) && |nodes| > 0 && nodes[0] == bObj
        invariant Built(nodes, TDict(entries))
        invariant State() == CollectEntries(entries, Eat(c, "d"))
        invariant ParseEntries(s[1..]) == Prepend(entries, ParseEntries(Rest()))
        decreases |parseBuf| - cursor
      {
        ghost var text := Rest();
        var ok;
        ghost var more;
        EntriesStep(entries, text);
        ok, more := ParseDictEntry(bObj, nodes, entries);
        GrownTwice(manager, nodes, more);
        hide Grown;
        nodes := nodes + more;
        if !ok {
          return Err, nodes;
        }
        ghost var e := ParseEntry(text).value;
        CollectEntriesMore(entries, e, Eat(c, "d"));
        var next := PeekChar();
        if next.Err? {
          return Err, nodes;
        }
        if next.value == 'e' {
          entries := entries + [e];
          break;
        }
        entries := entries + [e];
      }
      curChar := ConsumeChar();
      r := Ok(bObj);
    }

    // Parse a whole input from its start.  The capture state and the sum carry
    // over from earlier parses.
    method ParseBencodedString(toParse: string, manager: BMemoryManager)
      returns (r: Result<BObject>, ghost nodes: seq<BObject>)
      requires |toParse| < TWO_32
      modifies this, manager`objects
      ensures Ready() && this.manager == manager && parseBuf == toParse
      ensures Grown(manager, nodes)
      ensures Parsed(toParse, old(State()), r, nodes)
    {
      hide Built, Collect, Parse;
      cursor, parseBuf, this.manager := 0, toParse, manager;
      assert Rest() == toParse;
      r, nodes := ParseArbitrary();
    }
  }

  lemma NewInt(nodes: seq<BObject>, t: Tree)
    requires |nodes| == 1 && nodes[0].kind == BInteger && t.TInt? && nodes[0].intVal == t.n
    ensures Built(nodes, t)
  {
  }

  lemma NewList(nodes: seq<BObject>)
    requires |nodes| == 1 && nodes[0].kind == BList && nodes[0].listVal == []
    ensures Built(nodes, TList([]))
  {
  }

  lemma NewDict(nodes: seq<BObject>)
    requires |nodes| == 1 && nodes[0].kind == BDict && nodes[0].dictVal == map[]
    ensures Built(nodes, TDict([]))
  {
  }
}
