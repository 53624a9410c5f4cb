// What Built means for the heap: the objects of a successful parse form a tree,
// and in a dictionary a key leads to the value of its first occurrence.
module BencodeHeap {
  import opened BencodeSpec
  import opened Bencode
  import opened Wrappers

  // One step from a container to a child.
  datatype Step = At(i: nat) | Key(k: string)

  // Following the references of the heap from o leads to target.
  ghost predicate Leads(o: BObject, path: seq<Step>, target: BObject)
    reads *
    decreases |path|
  {
    if path == [] then o == target
    else
      match path[0]
      case At(i) => o.kind == BList && i < |o.listVal| && Leads(o.listVal[i], path[1..], target)
      case Key(k) => o.kind == BDict && k in o.dictVal && Leads(o.dictVal[k], path[1..], target)
  }

  // The index of the first entry with the key k, or the number of entries.
  function FirstIndex(entries: seq<Entry>, k: string): (i: nat)
    ensures i <= |entries|
    ensures i < |entries| ==> entries[i].key == k
    ensures forall j | 0 <= j < i :: entries[j].key != k
  {
    if entries == [] then 0
    else
      var i := FirstIndex(Front(entries), k);
      if i < |entries| - 1 then i
      else if Last(entries).key == k then |entries| - 1
      else |entries|
  }

  // Where the path leads in the tree: the child's preorder offset among the
  // objects of the parent, or nothing.
  function Child(t: Tree, step: Step): Option<(nat, Tree)> {
    match t
    case TInt(_, _) => None
    case TStr(_, _) => None
    case TList(items) =>
      if step.At? && step.i < |items| then Some((1 + SizeItems(items[..step.i]), items[step.i])) else None
    case TDict(entries) =>
      if step.At? then None
      else
        var i := FirstIndex(entries, step.k);
        if i < |entries| then Some((1 + SizeEntries(entries[..i]), entries[i].val)) else None
  }

  // The preorder number of the object that the path leads to.
  function Follow(t: Tree, path: seq<Step>): Option<nat>
    decreases |path|
  {
    if path == [] then Some(0)
    else
      match Child(t, path[0])
      case None => None
      case Some((offset, child)) =>
        match Follow(child, path[1..])
        case None => None
        case Some(n) => Some(offset + n)
  }

  // The objects from place n on hold t.
  ghost predicate HoldsAt(nodes: seq<BObject>, n: nat, t: Tree)
    reads nodes
  {
    n + Size(t) <= |nodes| && Built(nodes[n..n + Size(t)], t)
  }

  lemma HoldsBehind(nodes: seq<BObject>, front: seq<BObject>, n: nat, t: Tree)
    requires front <= nodes && HoldsAt(front, n, t)
    ensures HoldsAt(nodes, n, t)
  {
    hide Built, Size;
    assert nodes[n..n + Size(t)] == front[n..n + Size(t)];
  }

  lemma HoldsLast(nodes: seq<BObject>, n: nat, t: Tree)
    requires |nodes| == n + Size(t) && Built(nodes[n..], t)
    ensures HoldsAt(nodes, n, t)
  {
    hide Built, Size;
    assert nodes[n..n + Size(t)] == nodes[n..];
  }

  lemma {:induction false} ItemAt(nodes: seq<BObject>, items: seq<Tree>, i: nat)
    requires BuiltItems(nodes, items) && i < |items|
    ensures var n := SizeItems(items[..i]);
            HoldsAt(nodes, n, items[i]) && |Roots(nodes, items)| == |items| && Roots(nodes, items)[i] == nodes[n]
    decreases |items|
  {
    var front, n := Front(items), SizeItems(Front(items));
    RootsLength(nodes, items);
    LastItem(nodes, items);
    hide BuiltItems, Roots, SizeItems, Built, HoldsAt, Size;
    if i == |front| {
      assert items[..i] == front;
      HoldsLast(nodes, n, items[i]);
    } else {
      ItemAt(nodes[..n], front, i);
      assert items[..i] == front[..i];
      HoldsBehind(nodes, nodes[..n], SizeItems(items[..i]), items[i]);
      ItemInside(nodes[..n], SizeItems(items[..i]), items[i]);
    }
  }

  lemma ItemInside(nodes: seq<BObject>, n: nat, t: Tree)
    requires HoldsAt(nodes, n, t)
    ensures n < |nodes|
  {
    hide Built;
  }

  // What the last item adds.
  lemma LastItem(nodes: seq<BObject>, items: seq<Tree>)
    requires items != [] && BuiltItems(nodes, items)
    ensures var n := SizeItems(Front(items));
            && |nodes| == n + Size(Last(items)) && n < |nodes|
            && BuiltItems(nodes[..n], Front(items)) && Built(nodes[n..], Last(items))
            && Roots(nodes, items) == Roots(nodes[..n], Front(items)) + [nodes[n]]
  {
    hide Built;
  }

  lemma {:induction false} RootsLength(nodes: seq<BObject>, items: seq<Tree>)
    requires |nodes| == SizeItems(items)
    ensures |Roots(nodes, items)| == |items|
    decreases |items|
  {
    if items != [] {
      RootsLength(nodes[..SizeItems(Front(items))], Front(items));
    }
  }

  lemma {:induction false} EntryAt(nodes: seq<BObject>, entries: seq<Entry>, i: nat)
    requires BuiltEntries(nodes, entries) && i < |entries|
    ensures HoldsAt(nodes, SizeEntries(entries[..i]), entries[i].val)
    decreases |entries|
  {
    var front, n := Front(entries), SizeEntries(Front(entries));
    LastEntry(nodes, entries, "");
    hide BuiltEntries, SizeEntries, Built, HoldsAt, Size;
    if i == |front| {
      assert entries[..i] == front;
      HoldsLast(nodes, n, entries[i].val);
    } else {
      EntryAt(nodes[..n], front, i);
      assert entries[..i] == front[..i];
      HoldsBehind(nodes, nodes[..n], SizeEntries(entries[..i]), entries[i].val);
    }
  }

  // A key of a dictionary leads to the value of its first occurrence, however
  // often it occurs.
  lemma {:induction false} FirstOccurrence(nodes: seq<BObject>, entries: seq<Entry>, k: string)
    requires BuiltEntries(nodes, entries)
    ensures k in RootMap(nodes, entries) <==> FirstIndex(entries, k) < |entries|
    ensures var i := FirstIndex(entries, k);
            i < |entries| ==>
              && HoldsAt(nodes, SizeEntries(entries[..i]), entries[i].val)
              && SizeEntries(entries[..i]) < |nodes|
              && RootMap(nodes, entries)[k] == nodes[SizeEntries(entries[..i])]
    decreases |entries|
  {
    if entries != [] {
      var front, n := Front(entries), SizeEntries(Front(entries));
      LastEntry(nodes, entries, k);
      hide BuiltEntries, SizeEntries, FirstIndex, RootMap, Built, HoldsAt, Size;
      FirstOccurrence(nodes[..n], front, k);
      var i := FirstIndex(entries, k);
      if i < |entries| {
        EntryAt(nodes, entries, i);
        assert entries[..i] == if i < |front| then front[..i] else front;
      }
    }
  }

  // What the last entry adds.
  lemma LastEntry(nodes: seq<BObject>, entries: seq<Entry>, k: string)
    requires entries != [] && BuiltEntries(nodes, entries)
    ensures var n, front, e := SizeEntries(Front(entries)), Front(entries), Last(entries);
            && |nodes| == n + Size(e.val) && n < |nodes|
            && BuiltEntries(nodes[..n], front) && Built(nodes[n..], e.val)
            && RootMap(nodes, entries) == Insert(RootMap(nodes[..n], front), e.key, nodes[n])
            && FirstIndex(entries, k) == (if FirstIndex(front, k) < |front| then FirstIndex(front, k)
                                          else if e.key == k then |front| else |entries|)
  {
    hide Built;
  }

  lemma ChildInside(t: Tree, step: Step)
    requires Child(t, step).Some?
    ensures var (offset, child) := Child(t, step).value; 0 < offset && offset + Size(child) <= Size(t)
  {
    match t
    case TList(items) =>
      OffsetsOfItems(items, step.i, |items|);
      assert items[..|items|] == items;
    case TDict(entries) =>
      OffsetsOfEntries(entries, FirstIndex(entries, step.k), |entries|);
      assert entries[..|entries|] == entries;
  }

  lemma {:induction false} OffsetsOfItems(items: seq<Tree>, i: nat, j: nat)
    requires i < j <= |items|
    ensures SizeItems(items[..i]) + Size(items[i]) <= SizeItems(items[..j])
    decreases j
  {
    assert Front(items[..j]) == items[..j - 1];
    assert j == |items| ==> items[..j] == items;
    if i < j - 1 {
      OffsetsOfItems(items, i, j - 1);
    }
  }

  lemma {:induction false} OffsetsOfEntries(entries: seq<Entry>, i: nat, j: nat)
    requires i < j <= |entries|
    ensures SizeEntries(entries[..i]) + Size(entries[i].val) <= SizeEntries(entries[..j])
    decreases j
  {
    assert Front(entries[..j]) == entries[..j - 1];
    if i < j - 1 {
      OffsetsOfEntries(entries, i, j - 1);
    }
  }

  lemma {:induction false} FollowInside(t: Tree, path: seq<Step>)
    requires Follow(t, path).Some?
    ensures Follow(t, path).value < Size(t)
    decreases |path|
  {
    if path != [] {
      ChildInside(t, path[0]);
      FollowInside(Child(t, path[0]).value.1, path[1..]);
    }
  }

  // Different children do not overlap.
  lemma ChildrenApart(t: Tree, s1: Step, s2: Step)
    requires Child(t, s1).Some? && Child(t, s2).Some? && s1 != s2
    ensures var (o1, c1) := Child(t, s1).value;
            var (o2, c2) := Child(t, s2).value;
            o1 + Size(c1) <= o2 || o2 + Size(c2) <= o1
  {
    match t
    case TList(items) =>
      if s1.i < s2.i {
        OffsetsOfItems(items, s1.i, s2.i);
      } else {
        OffsetsOfItems(items, s2.i, s1.i);
      }
    case TDict(entries) =>
      var i, j := FirstIndex(entries, s1.k), FirstIndex(entries, s2.k);
      if i < j {
        OffsetsOfEntries(entries, i, j);
      } else {
        OffsetsOfEntries(entries, j, i);
      }
  }

  lemma {:induction false} FollowInjective(t: Tree, p: seq<Step>, q: seq<Step>)
    requires Follow(t, p).Some? && Follow(t, p) == Follow(t, q)
    ensures p == q
    decreases |p|
  {
    if p == [] {
      if q != [] {
        ChildInside(t, q[0]);
      }
    } else {
      ChildInside(t, p[0]);
      var (o1, c1) := Child(t, p[0]).value;
      FollowInside(c1, p[1..]);
      if q != [] {
        var (o2, c2) := Child(t, q[0]).value;
        FollowInside(c2, q[1..]);
        if p[0] != q[0] {
          ChildrenApart(t, p[0], q[0]);
        }
        FollowInjective(c1, p[1..], q[1..]);
        assert p == [p[0]] + p[1..] && q == [q[0]] + q[1..];
      }
    }
  }

  lemma ListParts(nodes: seq<BObject>, items: seq<Tree>)
    requires Built(nodes, TList(items))
    ensures |nodes| == 1 + SizeItems(items) && BuiltItems(nodes[1..], items)
    ensures nodes[0].listVal == Roots(nodes[1..], items)
  {
  }

  lemma DictParts(nodes: seq<BObject>, entries: seq<Entry>)
    requires Built(nodes, TDict(entries))
    ensures |nodes| == 1 + SizeEntries(entries) && BuiltEntries(nodes[1..], entries)
    ensures nodes[0].dictVal == RootMap(nodes[1..], entries)
  {
  }

  lemma SliceOfTail<T>(s: seq<T>, n: nat, size: nat)
    requires 1 + n + size <= |s|
    ensures s[1 + n..1 + n + size] == s[1..][n..n + size]
  {
    var a, b := s[1 + n..1 + n + size], s[1..][n..n + size];
    forall i | 0 <= i < size
      ensures a[i] == b[i]
    {
      assert a[i] == s[1 + n + i] && b[i] == s[1..][n + i];
    }
  }

  lemma HoldsInside(nodes: seq<BObject>, n: nat, t: Tree)
    requires nodes != [] && HoldsAt(nodes[1..], n, t)
    ensures HoldsAt(nodes, 1 + n, t) && n < |nodes| - 1
  {
    hide Built, Size;
    SliceOfTail(nodes, n, Size(t));
  }

  lemma ListChild(nodes: seq<BObject>, items: seq<Tree>, i: nat)
    requires Built(nodes, TList(items)) && nodes != []
    ensures i < |items| <==> i < |nodes[0].listVal|
    ensures i < |items| ==>
              var n := 1 + SizeItems(items[..i]);
              HoldsAt(nodes, n, items[i]) && n < |nodes| && nodes[n] == nodes[0].listVal[i]
  {
    hide Built, BuiltItems, SizeItems, HoldsAt;
    ListParts(nodes, items);
    RootsLength(nodes[1..], items);
    if i < |items| {
      ItemAt(nodes[1..], items, i);
      HoldsInside(nodes, SizeItems(items[..i]), items[i]);
    }
  }

  lemma DictChild(nodes: seq<BObject>, entries: seq<Entry>, k: string)
    requires Built(nodes, TDict(entries)) && nodes != []
    ensures FirstIndex(entries, k) < |entries| <==> k in nodes[0].dictVal
    ensures var i := FirstIndex(entries, k);
            i < |entries| ==>
              var n := 1 + SizeEntries(entries[..i]);
              HoldsAt(nodes, n, entries[i].val) && n < |nodes| && nodes[n] == nodes[0].dictVal[k]
  {
    hide Built, BuiltEntries, SizeEntries, FirstIndex, RootMap, Size, HoldsAt;
    DictParts(nodes, entries);
    FirstOccurrence(nodes[1..], entries, k);
    var i := FirstIndex(entries, k);
    if i < |entries| {
      HoldsInside(nodes, SizeEntries(entries[..i]), entries[i].val);
    }
  }

  // The child that a step leads to on the heap is the one it leads to in the tree.
  lemma ChildOnHeap(nodes: seq<BObject>, t: Tree, step: Step)
    requires Built(nodes, t)
    ensures Child(t, step).Some? <==>
            match step
            case At(i) => nodes[0].kind == BList && i < |nodes[0].listVal|
            case Key(k) => nodes[0].kind == BDict && k in nodes[0].dictVal
    ensures Child(t, step).Some? ==>
              var (offset, child) := Child(t, step).value;
              && offset + Size(child) <= |nodes| && Built(nodes[offset..offset + Size(child)], child)
              && nodes[offset] == match step case At(i) => nodes[0].listVal[i] case Key(k) => nodes[0].dictVal[k]
  {
    hide BuiltItems, BuiltEntries, Roots, RootMap;
    match t
    case TInt(_, _) =>
    case TStr(_, _) =>
    case TList(items) =>
      if step.At? {
        ListChild(nodes, items, step.i);
      }
    case TDict(entries) =>
      if step.Key? {
        DictChild(nodes, entries, step.k);
      }
  }

  lemma {:induction false} LeadsInside(nodes: seq<BObject>, t: Tree, path: seq<Step>, target: BObject)
    requires Built(nodes, t) && Leads(nodes[0], path, target)
    ensures Follow(t, path).Some? && Follow(t, path).value < |nodes| && target == nodes[Follow(t, path).value]
    decreases |path|
  {
    hide Built;
    BuiltSize(nodes, t);
    if path != [] {
      ChildOnHeap(nodes, t, path[0]);
      var (offset, child) := Child(t, path[0]).value;
      LeadsInside(nodes[offset..offset + Size(child)], child, path[1..], target);
      FollowInside(t, path);
    }
  }

  lemma BuiltSize(nodes: seq<BObject>, t: Tree)
    requires Built(nodes, t)
    ensures |nodes| == Size(t)
  {
  }

  // The objects form a tree: whatever is reachable from the root is one of them,
  // and by a single path.
  lemma SinglePath(nodes: seq<BObject>, t: Tree, p: seq<Step>, q: seq<Step>, target: BObject)
    requires Built(nodes, t) && Distinct(nodes)
    requires Leads(nodes[0], p, target) && Leads(nodes[0], q, target)
    ensures target in nodes && p == q
  {
    LeadsInside(nodes, t, p, target);
    LeadsInside(nodes, t, q, target);
    FollowInjective(t, p, q);
  }
}
