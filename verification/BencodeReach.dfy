// Which of the objects of a successful parse can be reached from its result: all of
// them but those of a value whose key stood in the dictionary before.
module BencodeReach {
  import opened BencodeSpec
  import opened Bencode
  import opened BencodeHeap
  import opened Wrappers

  // ---- the converse of LeadsInside ----

  // A path of the tree is a path of the heap, to the object with the same number.
  lemma {:induction false} FollowLeads(nodes: seq<BObject>, t: Tree, path: seq<Step>)
    requires Built(nodes, t) && Follow(t, path).Some?
    ensures Follow(t, path).value < |nodes| && Leads(nodes[0], path, nodes[Follow(t, path).value])
    decreases |path|
  {
    hide Built, Child;
    BuiltSize(nodes, t);
    FollowInside(t, path);
    if path != [] {
      ChildOnHeap(nodes, t, path[0]);
      ChildInside(t, path[0]);
      var (offset, child) := Child(t, path[0]).value;
      FollowLeads(nodes[offset..offset + Size(child)], child, path[1..]);
    }
  }

  // ---- the objects under no repeated key ----

  // Object n of t, in preorder, lies under no entry whose key occurs before it in the
  // same dictionary.
  predicate Kept(t: Tree, n: nat)
    requires n < Size(t)
    decreases t, 1
  {
    n == 0 ||
    match t
    case TInt(_, _) => false
    case TStr(_, _) => false
    case TList(items) => KeptItems(items, n - 1)
    case TDict(entries) => KeptEntries(entries, n - 1)
  }

  predicate KeptItems(items: seq<Tree>, n: nat)
    requires n < SizeItems(items)
    decreases items, 0
  {
    var m := SizeItems(Front(items));
    if n < m then KeptItems(Front(items), n) else Kept(Last(items), n - m)
  }

  predicate KeptEntries(entries: seq<Entry>, n: nat)
    requires n < SizeEntries(entries)
    decreases entries, 0
  {
    var m := SizeEntries(Front(entries));
    if n < m then KeptEntries(Front(entries), n)
    else FirstIndex(entries, Last(entries).key) == |entries| - 1 && Kept(Last(entries).val, n - m)
  }

  // No dictionary of t has a key twice.
  ghost predicate NoRepeats(t: Tree) {
    match t
    case TInt(_, _) => true
    case TStr(_, _) => true
    case TList(items) => forall i | 0 <= i < |items| :: NoRepeats(items[i])
    case TDict(entries) =>
      && (forall i, j | 0 <= i < j < |entries| :: entries[i].key != entries[j].key)
      && (forall i | 0 <= i < |entries| :: NoRepeats(entries[i].val))
  }

  // ---- by item and by entry ----

  // Which item object n belongs to.
  lemma {:induction false} ItemOf(items: seq<Tree>, n: nat) returns (i: nat)
    requires n < SizeItems(items)
    ensures i < |items| && SizeItems(items[..i]) <= n < SizeItems(items[..i]) + Size(items[i])
    decreases |items|
  {
    var front := Front(items);
    if n < SizeItems(front) {
      i := ItemOf(front, n);
      assert items[..i] == front[..i];
    } else {
      i := |front|;
      assert items[..i] == front;
    }
  }

  lemma {:induction false} EntryOf(entries: seq<Entry>, n: nat) returns (i: nat)
    requires n < SizeEntries(entries)
    ensures i < |entries| && SizeEntries(entries[..i]) <= n < SizeEntries(entries[..i]) + Size(entries[i].val)
    decreases |entries|
  {
    var front := Front(entries);
    if n < SizeEntries(front) {
      i := EntryOf(front, n);
      assert entries[..i] == front[..i];
    } else {
      i := |front|;
      assert entries[..i] == front;
    }
  }

  lemma {:induction false} KeptItemAt(items: seq<Tree>, i: nat, n: nat)
    requires i < |items| && n < Size(items[i])
    ensures SizeItems(items[..i]) + n < SizeItems(items)
    ensures KeptItems(items, SizeItems(items[..i]) + n) <==> Kept(items[i], n)
    decreases |items|
  {
    hide Kept, Size;
    var front := Front(items);
    if i == |front| {
      assert items[..i] == front;
    } else {
      assert items[..i] == front[..i];
      KeptItemAt(front, i, n);
    }
  }

  lemma {:induction false} KeptEntryAt(entries: seq<Entry>, i: nat, n: nat)
    requires i < |entries| && n < Size(entries[i].val)
    ensures SizeEntries(entries[..i]) + n < SizeEntries(entries)
    ensures KeptEntries(entries, SizeEntries(entries[..i]) + n) <==>
            FirstIndex(entries, entries[i].key) == i && Kept(entries[i].val, n)
    decreases |entries|
  {
    hide Kept, Size;
    var front := Front(entries);
    if i == |front| {
      assert entries[..i] == front;
    } else {
      assert entries[..i] == front[..i];
      KeptEntryAt(front, i, n);
    }
  }

  // ---- reachable objects ----

  lemma {:induction false} PathTo(t: Tree, n: nat) returns (path: seq<Step>)
    requires n < Size(t) && Kept(t, n)
    ensures Follow(t, path) == Some(n)
    decreases t
  {
    hide KeptItems, KeptEntries, SizeItems, SizeEntries, FirstIndex;
    path := [];
    if n > 0 {
      match t
      case TList(items) =>
        var i := ItemOf(items, n - 1);
        var k := n - 1 - SizeItems(items[..i]);
        KeptItemAt(items, i, k);
        var rest := PathTo(items[i], k);
        path := [At(i)] + rest;
        assert path[1..] == rest;
      case TDict(entries) =>
        var i := EntryOf(entries, n - 1);
        var k := n - 1 - SizeEntries(entries[..i]);
        KeptEntryAt(entries, i, k);
        var rest := PathTo(entries[i].val, k);
        path := [Key(entries[i].key)] + rest;
        assert path[1..] == rest;
    }
  }

  lemma {:induction false} FollowKept(t: Tree, path: seq<Step>)
    requires Follow(t, path).Some?
    ensures Follow(t, path).value < Size(t) && Kept(t, Follow(t, path).value)
    decreases |path|
  {
    hide KeptItems, KeptEntries, SizeItems, SizeEntries, FirstIndex;
    FollowInside(t, path);
    if path != [] {
      var (offset, child) := Child(t, path[0]).value;
      FollowKept(child, path[1..]);
      var n := Follow(child, path[1..]).value;
      match t
      case TList(items) => KeptItemAt(items, path[0].i, n);
      case TDict(entries) => KeptEntryAt(entries, FirstIndex(entries, path[0].k), n);
    }
  }

  // References of the heap lead from the result to object n.
  ghost predicate Reachable(nodes: seq<BObject>, n: nat)
    requires n < |nodes|
    reads *
  {
    exists path :: Leads(nodes[0], path, nodes[n])
  }

  // The result leads to an object exactly when it lies under no repeated key.
  lemma ReachableExactly(nodes: seq<BObject>, t: Tree, n: nat)
    requires Built(nodes, t) && Distinct(nodes) && n < |nodes|
    ensures n < Size(t)
    ensures Reachable(nodes, n) <==> Kept(t, n)
  {
    hide Built, Kept;
    BuiltSize(nodes, t);
    if Kept(t, n) {
      var path := PathTo(t, n);
      FollowLeads(nodes, t, path);
    }
    if Reachable(nodes, n) {
      var path :| Leads(nodes[0], path, nodes[n]);
      LeadsInside(nodes, t, path, nodes[n]);
      FollowKept(t, path);
    }
  }

  lemma {:induction false} AllKept(t: Tree, n: nat)
    requires NoRepeats(t) && n < Size(t)
    ensures Kept(t, n)
    decreases t
  {
    hide KeptItems, KeptEntries, SizeItems, SizeEntries, FirstIndex;
    if n > 0 {
      match t
      case TList(items) =>
        var i := ItemOf(items, n - 1);
        var k := n - 1 - SizeItems(items[..i]);
        AllKept(items[i], k);
        KeptItemAt(items, i, k);
      case TDict(entries) =>
        var i := EntryOf(entries, n - 1);
        var k := n - 1 - SizeEntries(entries[..i]);
        AllKept(entries[i].val, k);
        KeptEntryAt(entries, i, k);
        assert FirstIndex(entries, entries[i].key) == i;
    }
  }

  lemma {:induction false} SomeLost(t: Tree) returns (n: nat)
    requires !NoRepeats(t)
    ensures n < Size(t) && !Kept(t, n)
    decreases t
  {
    hide KeptItems, KeptEntries, SizeItems, SizeEntries, FirstIndex;
    match t
    case TList(items) =>
      var i :| 0 <= i < |items| && !NoRepeats(items[i]);
      var k := SomeLost(items[i]);
      KeptItemAt(items, i, k);
      n := 1 + SizeItems(items[..i]) + k;
    case TDict(entries) =>
      if i, j :| 0 <= i < j < |entries| && entries[i].key == entries[j].key {
        KeptEntryAt(entries, j, 0);
        n := 1 + SizeEntries(entries[..j]);
      } else {
        var i :| 0 <= i < |entries| && !NoRepeats(entries[i].val);
        var k := SomeLost(entries[i].val);
        KeptEntryAt(entries, i, k);
        n := 1 + SizeEntries(entries[..i]) + k;
      }
  }

  // Every object is reachable exactly when no dictionary repeats a key.
  lemma AllReachableExactly(nodes: seq<BObject>, t: Tree)
    requires Built(nodes, t) && Distinct(nodes)
    ensures (forall n | 0 <= n < |nodes| :: Reachable(nodes, n)) <==> NoRepeats(t)
  {
    hide Built, Kept, NoRepeats, Reachable;
    BuiltSize(nodes, t);
    if NoRepeats(t) {
      forall n | 0 <= n < |nodes|
        ensures Reachable(nodes, n)
      {
        AllKept(t, n);
        ReachableExactly(nodes, t, n);
      }
    } else {
      var n := SomeLost(t);
      ReachableExactly(nodes, t, n);
    }
  }

  // ---- an object that is lost ----

  const REPEATED := "d1:ai1e1:ai2ee"

  function RepeatedTree(): Tree {
    TDict([Entry("1", "a", TInt("1", 1)), Entry("1", "a", TInt("2", 2))])
  }

  lemma RepeatedIsParsed()
    ensures Parse(REPEATED) == Done(RepeatedTree(), "")
  {
    var one, two := Entry("1", "a", TInt("1", 1)), Entry("1", "a", TInt("2", 2));
    assert Decimal("1") == 1 by { assert "1"[..0] == ""; }
    assert Decimal("2") == 2 by { assert "2"[..0] == ""; }
    assert [one, two][1..] == [two] && [two][1..] == [];
    assert Src(RepeatedTree()) == REPEATED by {
      assert EntrySrc(one) == "1:ai1e" && EntrySrc(two) == "1:ai2e";
      assert SrcEntries([two]) == EntrySrc(two) + SrcEntries([]);
    }
    ParseComplete(RepeatedTree(), "");
    assert REPEATED + "" == REPEATED;
  }

  // The objects of this input: the second integer is allocated and registered, but the
  // dictionary does not take it, and no path leads there.
  lemma RepeatedKeyIsLost(nodes: seq<BObject>)
    requires Built(nodes, RepeatedTree()) && Distinct(nodes)
    ensures Parse(REPEATED) == Done(RepeatedTree(), "")
    ensures |nodes| == 3 && nodes[2].kind == BInteger && nodes[2].intVal == 2
    ensures !Reachable(nodes, 2)
  {
    hide Parse, Reachable;
    RepeatedIsParsed();
    var t := RepeatedTree();
    var one, two := Entry("1", "a", TInt("1", 1)), Entry("1", "a", TInt("2", 2));
    var entries := [one, two];
    assert Front(entries) == [one] && Front([one]) == [] && Last(entries) == two;
    assert SizeEntries([one]) == 1 && SizeEntries(entries) == 2;
    assert FirstIndex([one], "a") == 0 && FirstIndex(entries, "a") == 0;
    assert !Kept(t, 2);
    ReachableExactly(nodes, t, 2);
    assert Built(nodes[1..][1..], two.val);
    assert nodes[1..][1..][0] == nodes[2];
  }
}
