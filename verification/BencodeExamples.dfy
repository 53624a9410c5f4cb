// Examples of BEP 3, as encoded and as read back, and the sum of two lengths.
module BencodeExamples {
  import opened BencodeSpec
  import opened BencodeCollect
  import opened BencodeEncode

  lemma Digits()
    ensures Dec(4) == "4" && Dec(3) == "3" && Dec(12345) == "12345"
  {
    assert Dec(1) == "1" && Dec(12) == "12" && Dec(123) == "123" && Dec(1234) == "1234";
  }

  lemma IntegersEncoded()
    ensures Encode(Int(3)) == "i3e" && Encode(Int(-3)) == "i-3e" && Encode(Int(12345)) == "i12345e"
  {
    Digits();
  }

  lemma StringsEncoded()
    ensures EncodeStr("spam") == "4:spam" && EncodeStr("eggs") == "4:eggs"
    ensures EncodeStr("cow") == "3:cow" && EncodeStr("moo") == "3:moo"
  {
    Digits();
    hide Dec;
  }

  lemma ListEncoded()
    ensures Encode(List([Str("spam"), Str("eggs")])) == "l4:spam4:eggse"
  {
    var items := [Str("spam"), Str("eggs")];
    StringsEncoded();
    hide EncodeStr;
    assert items[1..] == [Str("eggs")] && items[1..][1..] == [];
    assert EncodeItems(items[1..]) == "4:eggs" + "";
    assert EncodeItems(items) == "4:spam" + ("4:eggs" + "");
    assert "l" + ("4:spam4:eggs" + "e") == "l4:spam4:eggse";
  }

  lemma DictionaryEncoded()
    ensures Encode(Dict([Member("cow", Str("moo"))])) == "d3:cow3:mooe"
  {
    var entries := [Member("cow", Str("moo"))];
    StringsEncoded();
    hide EncodeStr;
    assert entries[1..] == [];
    assert EncodeEntries(entries) == "3:cow" + "3:moo" + "";
    assert "d" + ("3:cow3:moo" + "e") == "d3:cow3:mooe";
  }

  // What the parser makes of them.
  lemma IntegerParsed()
    ensures Parse("i-3e").Done? && ValueOf(Parse("i-3e").value) == Int(-3)
  {
    IntegersEncoded();
    RoundTrip(Int(-3), "");
    assert "i-3e" + "" == "i-3e";
    hide Parse;
  }

  lemma ListParsed()
    ensures var r := Parse("l4:spam4:eggse");
            r.Done? && r.rest == "" && ValueOf(r.value) == List([Str("spam"), Str("eggs")])
  {
    var items := [Str("spam"), Str("eggs")];
    assert items[1..] == [Str("eggs")] && items[1..][1..] == [];
    assert Encodable(List(items));
    ListEncoded();
    assert "l4:spam4:eggse" + "" == "l4:spam4:eggse";
    hide Parse, Encode, Encodable;
    RoundTrip(List(items), "");
  }

  lemma DictionaryParsed()
    ensures var r := Parse("d3:cow3:mooe");
            r.Done? && r.rest == "" && ValueOf(r.value) == Dict([Member("cow", Str("moo"))])
  {
    var entries := [Member("cow", Str("moo"))];
    assert entries[1..] == [];
    assert Encodable(Dict(entries));
    DictionaryEncoded();
    assert "d3:cow3:mooe" + "" == "d3:cow3:mooe";
    hide Parse, Encode, Encodable;
    RoundTrip(Dict(entries), "");
  }

  // A length outside the info dictionary and one inside.
  function LengthEntry(digit: string, n: int): Entry { Entry("6", "length", TInt(digit, n)) }

  function TwoLengths(): Tree {
    TDict([LengthEntry("5", 5), Entry("4", "info", TDict([LengthEntry("7", 7)]))])
  }

  lemma TwoLengthsSummed()
    ensures Collect(TwoLengths(), FRESH).total == 12
  {
    var first, seven := LengthEntry("5", 5), LengthEntry("7", 7);
    var inner := Entry("4", "info", TDict([seven]));
    var entries := [first, inner];
    assert entries[1..] == [inner] && [inner][1..] == [] && [seven][1..] == [];
    assert LengthSumEntries([seven]) == 7;
    assert LengthSumEntries([inner]) == 7;
    assert LengthSumEntries(entries) == 12;
    CollectSums(TwoLengths(), FRESH);
    hide Collect;
  }
}
