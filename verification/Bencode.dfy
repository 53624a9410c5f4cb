// The bencode parser of btor/bencode.cpp with the objects of btor/bobject.cpp:
// a recursive descent over a cursor that allocates its result on the heap.
module Bencode {
  import opened BencodeSpec
  import opened Text
  import opened BencodeCollect
  import opened Wrappers
  import opened Wrapping

  datatype ObjectType = BString | BInteger | BList | BDict | BNull

  class BObject {
    var kind: ObjectType
    var stringVal: string
    var intVal: int
    var listVal: seq<BObject>
    var dictVal: map<string, BObject>

    constructor OfType(kind: ObjectType)
      ensures this.kind == kind && stringVal == "" && intVal == 0 && listVal == [] && dictVal == map[]
    {
      this.kind := kind;
      stringVal, intVal, listVal, dictVal := "", 0, [], map[];
    }

    constructor OfInt(n: int)
      ensures kind == BInteger && intVal == n
    {
      kind := BInteger;
      stringVal, intVal, listVal, dictVal := "", n, [], map[];
    }

    constructor OfString(s: string)
      ensures kind == BString && stringVal == s
    {
      kind := BString;
      stringVal, intVal, listVal, dictVal := s, 0, [], map[];
    }

    method PushBack(obj: BObject) returns (r: Result<()>)
      modifies `listVal
      ensures r.Ok? <==> kind == BList
      ensures listVal == if r.Ok? then old(listVal) + [obj] else old(listVal)
    {
      if kind != BList {
        return Err;
      }
      listVal := listVal + [obj];
      return Ok(());
    }

    // std::map::insert: a key that is already there keeps its value.
    method AddKeyValue(key: string, val: BObject) returns (r: Result<()>)
      modifies `dictVal
      ensures r.Ok? <==> kind == BDict
      ensures dictVal == if r.Ok? then Insert(old(dictVal), key, val) else old(dictVal)
    {
      if kind != BDict {
        return Err;
      }
      if key !in dictVal {
        dictVal := dictVal[key := val];
      }
      return Ok(());
    }

    method GetInt() returns (r: Result<int>)
      ensures r == if kind == BInteger then Ok(intVal) else Err
    {
      if kind != BInteger {
        return Err;
      }
      return Ok(intVal);
    }

    method GetByKey(key: string) returns (r: Result<BObject>)
      ensures r == if kind == BDict && key in dictVal then Ok(dictVal[key]) else Err
    {
      if kind != BDict || key !in dictVal {
        return Err;
      }
      return Ok(dictVal[key]);
    }
  }

  class BMemoryManager {
    var objects: seq<BObject>

    constructor ()
      ensures objects == []
    {
      objects := [];
    }

    method NewOfType(kind: ObjectType) returns (o: BObject)
      modifies `objects
      ensures fresh(o) && o.kind == kind && o.listVal == [] && o.dictVal == map[]
      ensures objects == old(objects) + [o]
    {
      o := new BObject.OfType(kind);
      objects := objects + [o];
    }

    method NewOfInt(n: int) returns (o: BObject)
      modifies `objects
      ensures fresh(o) && o.kind == BInteger && o.intVal == n
      ensures objects == old(objects) + [o]
    {
      o := new BObject.OfInt(n);
      objects := objects + [o];
    }

    method NewOfString(s: string) returns (o: BObject)
      modifies `objects
      ensures fresh(o) && o.kind == BString && o.stringVal == s
      ensures objects == old(objects) + [o]
    {
      o := new BObject.OfString(s);
      objects := objects + [o];
    }
  }

  // ---- the shape of the heap: the objects of a tree, in preorder ----

  function Front<T>(s: seq<T>): seq<T>
    requires s != []
  {
    s[..|s| - 1]
  }

  function Last<T>(s: seq<T>): T
    requires s != []
  {
    s[|s| - 1]
  }

  function Size(t: Tree): (n: nat)
    ensures n > 0
    decreases t, 1
  {
    match t
    case TInt(_, _) => 1
    case TStr(_, _) => 1
    case TList(items) => 1 + SizeItems(items)
    case TDict(entries) => 1 + SizeEntries(entries)
  }

  function SizeItems(items: seq<Tree>): nat
    decreases items, 0
  {
    if items == [] then 0 else SizeItems(Front(items)) + Size(Last(items))
  }

  function SizeEntries(entries: seq<Entry>): nat
    decreases entries, 0
  {
    if entries == [] then 0 else SizeEntries(Front(entries)) + Size(Last(entries).val)
  }

  function Insert(m: map<string, BObject>, key: string, o: BObject): map<string, BObject> {
    if key in m then m else m[key := o]
  }

  // The roots of the items among their objects.
  ghost function Roots(nodes: seq<BObject>, items: seq<Tree>): seq<BObject>
    requires |nodes| == SizeItems(items)
  {
    if items == [] then []
    else
      var n := SizeItems(Front(items));
      Roots(nodes[..n], Front(items)) + [nodes[n]]
  }

  // The map of a dictionary, from key to the root of its value.
  ghost function RootMap(nodes: seq<BObject>, entries: seq<Entry>): map<string, BObject>
    requires |nodes| == SizeEntries(entries)
  {
    if entries == [] then map[]
    else
      var n := SizeEntries(Front(entries));
      Insert(RootMap(nodes[..n], Front(entries)), Last(entries).key, nodes[n])
  }

  // The objects hold the tree t.
  ghost predicate Built(nodes: seq<BObject>, t: Tree)
    reads nodes
    decreases t, 1
  {
    && |nodes| == Size(t)
    && match t
       case TInt(_, n) => nodes[0].kind == BInteger && nodes[0].intVal == n
       case TStr(_, s) => nodes[0].kind == BString && nodes[0].stringVal == s
       case TList(items) =>
         && nodes[0].kind == BList && nodes[0].listVal == Roots(nodes[1..], items)
         && BuiltItems(nodes[1..], items)
       case TDict(entries) =>
         && nodes[0].kind == BDict && nodes[0].dictVal == RootMap(nodes[1..], entries)
         && BuiltEntries(nodes[1..], entries)
  }

  ghost predicate BuiltItems(nodes: seq<BObject>, items: seq<Tree>)
    reads nodes
    decreases items, 0
  {
    && |nodes| == SizeItems(items)
    && (items != [] ==>
          var n := SizeItems(Front(items));
          BuiltItems(nodes[..n], Front(items)) && Built(nodes[n..], Last(items)))
  }

  ghost predicate BuiltEntries(nodes: seq<BObject>, entries: seq<Entry>)
    reads nodes
    decreases entries, 0
  {
    && |nodes| == SizeEntries(entries)
    && (entries != [] ==>
          var n := SizeEntries(Front(entries));
          BuiltEntries(nodes[..n], Front(entries)) && Built(nodes[n..], Last(entries).val))
  }

  ghost predicate Distinct(nodes: seq<BObject>) {
    forall i, j | 0 <= i < j < |nodes| :: nodes[i] != nodes[j]
  }

  lemma BuiltItemsMore(nodes: seq<BObject>, items: seq<Tree>, more: seq<BObject>, t: Tree)
    requires BuiltItems(nodes, items) && |more| == Size(t) && Built(more, t)
    ensures SizeItems(items + [t]) == |nodes + more| && BuiltItems(nodes + more, items + [t])
    ensures Roots(nodes + more, items + [t]) == Roots(nodes, items) + [more[0]]
  {
    hide Built;
    assert Front(items + [t]) == items && Last(items + [t]) == t;
    assert (nodes + more)[..|nodes|] == nodes && (nodes + more)[|nodes|..] == more;
  }

  lemma BuiltEntriesMore(nodes: seq<BObject>, entries: seq<Entry>, more: seq<BObject>, e: Entry)
    requires BuiltEntries(nodes, entries) && |more| == Size(e.val) && Built(more, e.val)
    ensures SizeEntries(entries + [e]) == |nodes + more| && BuiltEntries(nodes + more, entries + [e])
    ensures RootMap(nodes + more, entries + [e]) == Insert(RootMap(nodes, entries), e.key, more[0])
  {
    hide Built;
    assert Front(entries + [e]) == entries && Last(entries + [e]) == e;
    assert (nodes + more)[..|nodes|] == nodes && (nodes + more)[|nodes|..] == more;
  }

  lemma BuiltList(nodes: seq<BObject>, items: seq<Tree>)
    requires |nodes| == 1 + SizeItems(items) && nodes[0].kind == BList && BuiltItems(nodes[1..], items)
    requires nodes[0].listVal == Roots(nodes[1..], items)
    ensures Built(nodes, TList(items))
  {
    hide Roots, BuiltItems, SizeItems;
  }

  // After pushing the root of one more item, the objects hold the longer list.
  lemma BuiltListMore(nodes: seq<BObject>, items: seq<Tree>, more: seq<BObject>, t: Tree)
    requires |nodes| == 1 + SizeItems(items) && nodes[0].kind == BList && BuiltItems(nodes[1..], items)
    requires |more| == Size(t) && Built(more, t)
    requires nodes[0].listVal == Roots(nodes[1..], items) + [more[0]]
    ensures Built(nodes + more, TList(items + [t]))
  {
    hide Roots, BuiltItems, SizeItems, Built, Size;
    BuiltItemsMore(nodes[1..], items, more, t);
    assert (nodes + more)[1..] == nodes[1..] + more;
    BuiltList(nodes + more, items + [t]);
  }

  lemma BuiltDict(nodes: seq<BObject>, entries: seq<Entry>)
    requires |nodes| == 1 + SizeEntries(entries) && nodes[0].kind == BDict && BuiltEntries(nodes[1..], entries)
    requires nodes[0].dictVal == RootMap(nodes[1..], entries)
    ensures Built(nodes, TDict(entries))
  {
    hide RootMap, BuiltEntries, SizeEntries;
  }

  // After adding one more entry, the objects hold the longer dictionary.
  lemma BuiltDictMore(nodes: seq<BObject>, entries: seq<Entry>, more: seq<BObject>, e: Entry)
    requires |nodes| == 1 + SizeEntries(entries) && nodes[0].kind == BDict && BuiltEntries(nodes[1..], entries)
    requires |more| == Size(e.val) && Built(more, e.val)
    requires nodes[0].dictVal == Insert(RootMap(nodes[1..], entries), e.key, more[0])
    ensures Built(nodes + more, TDict(entries + [e]))
  {
    hide RootMap, BuiltEntries, SizeEntries, Built, Size, Insert;
    BuiltEntriesMore(nodes[1..], entries, more, e);
    assert (nodes + more)[1..] == nodes[1..] + more;
    BuiltDict(nodes + more, entries + [e]);
  }

  // ---- accumulating lists ----

  function Prepend<T>(done: seq<T>, r: Parsed<seq<T>>): Parsed<seq<T>> {
    if r.Fail? then Fail else Done(done + r.value, r.rest)
  }

  // One pass of the loop over the items of a list, at the text s.
  lemma ItemsStep(done: seq<Tree>, s: string)
    ensures Parse(s).Fail? || Parse(s).rest == "" ==> Prepend(done, ParseItems(s)) == Fail
    ensures Parse(s).Done? && Parse(s).rest != "" ==>
              var (t, rest) := (Parse(s).value, Parse(s).rest);
              Prepend(done, ParseItems(s)) ==
              if rest[0] == 'e' then Done(done + [t], rest[1..]) else Prepend(done + [t], ParseItems(rest))
  {
    if Parse(s).Done? {
      var more := ParseItems(Parse(s).rest);
      if more.Done? {
        assert done + ([Parse(s).value] + more.value) == done + [Parse(s).value] + more.value;
      }
    }
  }

  lemma EntriesStep(done: seq<Entry>, s: string)
    ensures ParseEntry(s).Fail? || ParseEntry(s).rest == "" ==> Prepend(done, ParseEntries(s)) == Fail
    ensures ParseEntry(s).Done? && ParseEntry(s).rest != "" ==>
              var (e, rest) := (ParseEntry(s).value, ParseEntry(s).rest);
              Prepend(done, ParseEntries(s)) ==
              if rest[0] == 'e' then Done(done + [e], rest[1..]) else Prepend(done + [e], ParseEntries(rest))
  {
    if ParseEntry(s).Done? {
      var more := ParseEntries(ParseEntry(s).rest);
      if more.Done? {
        assert done + ([ParseEntry(s).value] + more.value) == done + [ParseEntry(s).value] + more.value;
      }
    }
  }

  // The whole of a list, given what its loop did.
  lemma ListAsWhole(s: string, c: Collector)
    requires s != "" && s[0] == 'l'
    ensures Parse(s) == (match ParseItems(s[1..])
                         case Fail => Fail
                         case Done(items, rest) => Done(TList(items), rest))
    ensures forall items :: Collect(TList(items), c) == Eat(CollectItems(items, Eat(c, "l")), "e")
    ensures CollectItems([], Eat(c, "l")) == Eat(c, "l")
  {
  }

  lemma DictAsWhole(s: string, c: Collector)
    requires s != "" && s[0] == 'd'
    ensures Parse(s) == (match ParseEntries(s[1..])
                         case Fail => Fail
                         case Done(entries, rest) => Done(TDict(entries), rest))
    ensures forall entries :: Collect(TDict(entries), c) == Eat(CollectEntries(entries, Eat(c, "d")), "e")
    ensures CollectEntries([], Eat(c, "d")) == Eat(c, "d")
  {
  }

  lemma PrependNothing<T>(r: Parsed<seq<T>>)
    ensures Prepend([], r) == r
  {
    assert r.Done? ==> [] + r.value == r.value;
  }

  lemma {:induction false} CollectItemsMore(items: seq<Tree>, t: Tree, c: Collector)
    ensures CollectItems(items + [t], c) == Collect(t, CollectItems(items, c))
    decreases |items|
  {
    if items == [] {
      assert [t][1..] == [];
    } else {
      assert (items + [t])[1..] == items[1..] + [t];
      CollectItemsMore(items[1..], t, Collect(items[0], c));
    }
  }

  lemma {:induction false} CollectEntriesMore(entries: seq<Entry>, e: Entry, c: Collector)
    ensures CollectEntries(entries + [e], c) == CollectEntry(e, CollectEntries(entries, c))
    decreases |entries|
  {
    if entries == [] {
      assert [e][1..] == [];
    } else {
      assert (entries + [e])[1..] == entries[1..] + [e];
      CollectEntriesMore(entries[1..], e, CollectEntry(entries[0], c));
    }
  }

  // ---- facts about the leaves ----

  lemma DecimalMore(s: string, c: char)
    requires IsDigit(c)
    ensures Decimal(s + [c]) == 10 * Decimal(s) + (c as int - '0' as int)
  {
    assert (s + [c])[..|s|] == s;
  }

  lemma DecimalSkip(s: string, c: char)
    requires !IsDigit(c)
    ensures Decimal(s + [c]) == Decimal(s)
  {
    assert (s + [c])[..|s|] == s;
  }

  lemma IntBodyMore(body: string, c: char)
    requires IntBody(body) && c != 'e' && (c != '-' || body == "")
    ensures IntBody(body + [c])
  {
    if body != "" {
      assert (body + [c])[1..] == body[1..] + [c];
    }
  }

  // One more character of an integer.
  lemma IntStep(body: string, c: char)
    ensures Wrap64(Decimal(body + [c])) ==
            if IsDigit(c) then Wrap64(Wrap64(Decimal(body)) * 10 + (c as int - '0' as int)) else Wrap64(Decimal(body))
  {
    hide Wrap64;
    if IsDigit(c) {
      DecimalMore(body, c);
      WrapDigit64(Decimal(body), c as int - '0' as int);
    } else {
      DecimalSkip(body, c);
    }
  }

  lemma IntDone(body: string)
    ensures var m := Wrap64(Decimal(body)); IntOf(body) == if body != "" && body[0] == '-' then Wrap64(-m) else m
  {
    hide Wrap64;
    WrapNegated64(Decimal(body));
  }

  // A second minus sign spoils the integer wherever it ends.
  lemma MinusInside(s: string, k: nat)
    requires 0 < k < |s| && s[k] == '-' && 'e' !in s[..k]
    ensures var n := Find(s, 'e'); n < |s| ==> !IntBody(s[..n])
  {
    assert s[..k + 1] == s[..k] + [s[k]];
    FindNotBefore(s, 'e', k + 1);
    var n := Find(s, 'e');
    if n < |s| {
      assert s[..n][1..][k - 1] == '-';
    }
  }
}
