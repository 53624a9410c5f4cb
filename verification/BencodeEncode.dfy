// The bencoding of BEP 3, written without reference to the parser, and the round
// trip through the parser of btor/bencode.cpp.
module BencodeEncode {
  import opened BencodeSpec
  import opened Wrapping

  datatype Value =
    | Int(n: int)
    | Str(s: string)
    | List(items: seq<Value>)
    | Dict(entries: seq<Member>)

  datatype Member = Member(key: string, val: Value)

  // ---- the encoder ----

  function Digit(d: nat): (c: char)
    requires d < 10
    ensures IsDigit(c)
  {
    ('0' as int + d) as char
  }

  // The decimal digits of n, without leading zeros.
  function Dec(n: nat): (s: string)
    ensures s != "" && IsDigits(s)
  {
    if n < 10 then [Digit(n)] else Dec(n / 10) + [Digit(n % 10)]
  }

  function DecInt(n: int): string {
    if n < 0 then "-" + Dec(-n) else Dec(n)
  }

  function EncodeStr(s: string): string { Dec(|s|) + ":" + s }

  function Encode(v: Value): string
    decreases v, 1
  {
    match v
    case Int(n) => "i" + DecInt(n) + "e"
    case Str(s) => EncodeStr(s)
    case List(items) => "l" + (EncodeItems(items) + "e")
    case Dict(entries) => "d" + (EncodeEntries(entries) + "e")
  }

  function EncodeItems(items: seq<Value>): string
    decreases items, 0
  {
    if items == [] then "" else Encode(items[0]) + EncodeItems(items[1..])
  }

  function EncodeEntries(entries: seq<Member>): string
    decreases entries, 0
  {
    if entries == [] then ""
    else EncodeStr(entries[0].key) + Encode(entries[0].val) + EncodeEntries(entries[1..])
  }

  // ---- the value of a parsed tree ----

  function ValueOf(t: Tree): Value
    decreases t, 1
  {
    match t
    case TInt(_, n) => Int(n)
    case TStr(_, s) => Str(s)
    case TList(items) => List(ValueOfItems(items))
    case TDict(entries) => Dict(ValueOfEntries(entries))
  }

  function ValueOfItems(items: seq<Tree>): (vs: seq<Value>)
    ensures |vs| == |items|
    decreases items, 0
  {
    if items == [] then [] else [ValueOf(items[0])] + ValueOfItems(items[1..])
  }

  function ValueOfEntries(entries: seq<Entry>): (vs: seq<Member>)
    ensures |vs| == |entries|
    decreases entries, 0
  {
    if entries == [] then [] else [Member(entries[0].key, ValueOf(entries[0].val))] + ValueOfEntries(entries[1..])
  }

  // ---- what can make the round trip ----

  // Containers are not empty, a value under `length` is an integer, integers fit
  // in 64 bits and string lengths in 32.  Of these, -2^63 and the lengths from 2^31 on
  // are read back only because signed overflow wraps around, which the language
  // leaves undefined.
  predicate Encodable(v: Value)
    decreases v, 1
  {
    match v
    case Int(n) => -TWO_63 <= n < TWO_63
    case Str(s) => |s| < TWO_32
    case List(items) => items != [] && EncodableItems(items)
    case Dict(entries) => entries != [] && EncodableEntries(entries)
  }

  predicate EncodableItems(items: seq<Value>)
    decreases items, 0
  {
    items == [] || (Encodable(items[0]) && EncodableItems(items[1..]))
  }

  predicate EncodableEntries(entries: seq<Member>)
    decreases entries, 3
  {
    entries == [] || (EncodableMember(entries[0]) && EncodableEntries(entries[1..]))
  }

  predicate EncodableMember(m: Member)
    decreases m, 2
  {
    |m.key| < TWO_32 && Encodable(m.val) && (m.key == "length" ==> m.val.Int?)
  }

  // The tree that parsing the encoding yields.
  function Canonical(v: Value): Tree
    decreases v, 1
  {
    match v
    case Int(n) => TInt(DecInt(n), n)
    case Str(s) => TStr(Dec(|s|), s)
    case List(items) => TList(CanonicalItems(items))
    case Dict(entries) => TDict(CanonicalEntries(entries))
  }

  function CanonicalItems(items: seq<Value>): (ts: seq<Tree>)
    ensures |ts| == |items|
    decreases items, 0
  {
    if items == [] then [] else [Canonical(items[0])] + CanonicalItems(items[1..])
  }

  function CanonicalEntry(m: Member): Entry
    decreases m, 2
  {
    Entry(Dec(|m.key|), m.key, Canonical(m.val))
  }

  function CanonicalEntries(entries: seq<Member>): (ts: seq<Entry>)
    ensures |ts| == |entries|
    decreases entries, 3
  {
    if entries == [] then []
    else [CanonicalEntry(entries[0])] + CanonicalEntries(entries[1..])
  }

  // ---- proofs ----

  lemma {:induction false} DecimalOfDec(n: nat)
    ensures Decimal(Dec(n)) == n
  {
    var s := Dec(n);
    if n < 10 {
      assert s[..0] == "";
    } else {
      DecimalOfDec(n / 10);
      assert s[..|s| - 1] == Dec(n / 10);
    }
  }

  lemma {:induction false} DecimalOfPrefixed(c: char, s: string)
    requires !IsDigit(c)
    ensures Decimal([c] + s) == Decimal(s)
  {
    var t := [c] + s;
    if s == "" {
      assert t[..0] == "";
    } else {
      assert t[..|t| - 1] == [c] + s[..|s| - 1];
      DecimalOfPrefixed(c, s[..|s| - 1]);
    }
  }

  lemma IntOfDecInt(n: int)
    requires -TWO_63 <= n < TWO_63
    ensures IntBody(DecInt(n)) && IntOf(DecInt(n)) == n
  {
    hide Wrap64, Decimal, Dec;
    var s := DecInt(n);
    Same64(n, n, 0);
    if n < 0 {
      DecimalOfDec(-n);
      DecimalOfPrefixed('-', Dec(-n));
      DigitsOnly(Dec(-n));
      assert s[1..] == Dec(-n);
    } else {
      DecimalOfDec(n);
      DigitsOnly(s);
    }
  }

  lemma DigitsOnly(s: string)
    requires s != "" && IsDigits(s)
    ensures 'e' !in s && '-' !in s && '-' !in s[1..] && IsDigit(s[0])
  {
  }

  lemma {:induction false} CanonicalIsValid(v: Value)
    requires Encodable(v)
    ensures Valid(Canonical(v)) && ValueOf(Canonical(v)) == v
    decreases v, 1
  {
    match v
    case Int(n) => IntOfDecInt(n);
    case Str(s) => DecimalOfDec(|s|);
    case List(items) => CanonicalItemsAreValid(items);
    case Dict(entries) => CanonicalEntriesAreValid(entries);
  }

  lemma {:induction false} CanonicalItemsAreValid(items: seq<Value>)
    requires EncodableItems(items)
    ensures forall i | 0 <= i < |items| :: Valid(CanonicalItems(items)[i])
    ensures ValueOfItems(CanonicalItems(items)) == items
    decreases items, 0
  {
    if items != [] {
      CanonicalIsValid(items[0]);
      CanonicalItemsAreValid(items[1..]);
      assert CanonicalItems(items)[1..] == CanonicalItems(items[1..]);
    }
  }

  lemma {:induction false} CanonicalEntryIsValid(m: Member)
    requires EncodableMember(m)
    ensures ValidEntry(CanonicalEntry(m)) && CanonicalEntry(m).key == m.key
    ensures ValueOf(CanonicalEntry(m).val) == m.val
    decreases m, 2
  {
    DecimalOfDec(|m.key|);
    CanonicalIsValid(m.val);
  }

  lemma {:induction false} CanonicalEntriesAreValid(entries: seq<Member>)
    requires EncodableEntries(entries)
    ensures forall i | 0 <= i < |entries| :: ValidEntry(CanonicalEntries(entries)[i])
    ensures ValueOfEntries(CanonicalEntries(entries)) == entries
    decreases entries, 3
  {
    if entries != [] {
      CanonicalEntryIsValid(entries[0]);
      hide ValidEntry, CanonicalEntry, EncodableMember;
      CanonicalEntriesAreValid(entries[1..]);
      assert CanonicalEntries(entries)[1..] == CanonicalEntries(entries[1..]);
    }
  }

  lemma {:induction false} EncodeIsSrc(v: Value)
    ensures Encode(v) == Src(Canonical(v))
    decreases v, 1
  {
    match v
    case Int(_) =>
    case Str(_) =>
    case List(items) => EncodeItemsIsSrc(items);
    case Dict(entries) => EncodeEntriesIsSrc(entries);
  }

  lemma {:induction false} EncodeItemsIsSrc(items: seq<Value>)
    ensures EncodeItems(items) == SrcItems(CanonicalItems(items))
    decreases items, 0
  {
    if items != [] {
      EncodeIsSrc(items[0]);
      EncodeItemsIsSrc(items[1..]);
      assert CanonicalItems(items)[1..] == CanonicalItems(items[1..]);
    }
  }

  lemma {:induction false} EncodeEntriesIsSrc(entries: seq<Member>)
    ensures EncodeEntries(entries) == SrcEntries(CanonicalEntries(entries))
    decreases entries, 0
  {
    if entries != [] {
      EncodeIsSrc(entries[0].val);
      EncodeEntriesIsSrc(entries[1..]);
      assert CanonicalEntries(entries)[1..] == CanonicalEntries(entries[1..]);
    }
  }

  lemma {:induction false} ValidIsEncodable(t: Tree)
    requires Valid(t)
    ensures Encodable(ValueOf(t))
    decreases t, 1
  {
    match t
    case TInt(_, _) =>
    case TStr(_, _) =>
    case TList(items) => ValidItemsAreEncodable(items);
    case TDict(entries) => ValidEntriesAreEncodable(entries);
  }

  lemma {:induction false} ValidItemsAreEncodable(items: seq<Tree>)
    requires forall i | 0 <= i < |items| :: Valid(items[i])
    ensures EncodableItems(ValueOfItems(items))
    decreases items, 0
  {
    if items != [] {
      ValidIsEncodable(items[0]);
      ValidItemsAreEncodable(items[1..]);
      assert ValueOfItems(items)[1..] == ValueOfItems(items[1..]);
    }
  }

  lemma {:induction false} ValidEntriesAreEncodable(entries: seq<Entry>)
    requires forall i | 0 <= i < |entries| :: ValidEntry(entries[i])
    ensures EncodableEntries(ValueOfEntries(entries))
    decreases entries, 0
  {
    if entries != [] {
      ValidIsEncodable(entries[0].val);
      ValidEntriesAreEncodable(entries[1..]);
      assert ValueOfEntries(entries)[1..] == ValueOfEntries(entries[1..]);
    }
  }

  // Parsing the encoding of an encodable value, whatever follows it, returns the
  // value and stops exactly where the encoding ends.
  lemma RoundTrip(v: Value, rest: string)
    requires Encodable(v)
    ensures Parse(Encode(v) + rest) == Done(Canonical(v), rest)
    ensures ValueOf(Canonical(v)) == v
  {
    EncodeIsSrc(v);
    CanonicalIsValid(v);
    ParseComplete(Canonical(v), rest);
  }

  // And only encodable values come back from their encoding: empty lists and
  // dictionaries, and a value under `length` that is no integer, do not.
  lemma RoundTripExactly(v: Value, rest: string)
    ensures (Parse(Encode(v) + rest).Done? && ValueOf(Parse(Encode(v) + rest).value) == v) <==> Encodable(v)
  {
    if Encodable(v) {
      RoundTrip(v, rest);
    }
    var r := Parse(Encode(v) + rest);
    if r.Done? && ValueOf(r.value) == v {
      ParseSound(Encode(v) + rest);
      ValidIsEncodable(r.value);
    }
  }

  lemma EncodingsArePrefixFree(v1: Value, rest1: string, v2: Value, rest2: string)
    requires Encodable(v1) && Encodable(v2)
    requires Encode(v1) + rest1 == Encode(v2) + rest2
    ensures v1 == v2 && rest1 == rest2
  {
    RoundTrip(v1, rest1);
    RoundTrip(v2, rest2);
  }
}
