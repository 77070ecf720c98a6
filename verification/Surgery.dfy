// Pure transformations of the heap: cutting a subtree, hanging one under a
// container, exchanging two nodes' storage. Each keeps the heap a forest.

module HeapSurgery {
  import opened JsonValue
  import opened DomHeap

  // Where a child goes: the end of an array, or a key of an object.
  datatype Slot = End | Key(key: Bytes)

  predicate SlotFits(b: Body, slot: Slot) {
    match slot
    case End => b.Vec?
    case Key(key) => b.Table? && key !in b.members
  }

  function Attached(b: Body, slot: Slot, c: Node): Body
    requires SlotFits(b, slot)
  {
    match slot
    case End => Vec(b.kids + [c])
    case Key(key) => Table(b.members[key := c])
  }

  ghost function KidsOf(h: Heap, n: Node): set<Node>
    requires n in h
  {
    set k | k in h && Owns(h[n], k)
  }

  lemma ForestKids(h: Heap, n: Node)
    requires Forest(h) && n in h
    ensures GoodBody(h[n])
    ensures forall k :: Owns(h[n], k) <==> k in KidsOf(h, n)
  {
  }

  // The heap without the proper descendants of n, and with body b at n.
  ghost function Cleared(h: Heap, n: Node, b: Body): Heap {
    map x | x in h && (x == n || !Reaches(h, n, x)) :: if x == n then b else h[x]
  }

  function EmptyLike(b: Body): (e: Body)
    ensures forall k :: !Owns(e, k)
  {
    match b
    case Leaf(_) => b
    case Vec(_) => Vec([])
    case Table(_) => Table(map[])
  }

  lemma LeafReach(h: Heap, n: Node, x: Node)
    requires n in h && (forall k :: !Owns(h[n], k)) && Reaches(h, n, x)
    ensures x == n
  {
    if x != n { var k := ReachViaKid(h, n, x); }
  }

  lemma LeafCleared(h: Heap, n: Node)
    requires n in h && h[n].Leaf?
    ensures Cleared(h, n, h[n]) == h && Tree(h, n) == {n}
  {
    forall x | x in h && Reaches(h, n, x) ensures x == n { LeafReach(h, n, x); }
    ReachSelf(h, n);
  }

  lemma LeafDenotes(h: Heap, g: Heap, n: Node, v: Json)
    requires Denotes(h, n, v) && n in g && g[n] == h[n] && forall k :: !Owns(h[n], k)
    ensures Denotes(g, n, v)
  {
    match v
    case Arr(items) => assert items == [] by { if items != [] { assert Owns(h[n], h[n].kids[0]); } }
    case Obj(members) =>
      assert members == map[] by {
        if k :| k in members { assert Owns(h[n], h[n].members[k]); }
      }
    case _ =>
  }

  // Cutting off a subtree and putting a childless body in its place keeps the
  // heap a forest.
  lemma ClearedForest(h: Heap, n: Node, b: Body)
    requires Forest(h) && n in h && GoodBody(b) && HasValue(map[n := b], n)
    requires forall k :: !Owns(b, k)
    ensures Forest(Cleared(h, n, b))
  {
    var g := Cleared(h, n, b);
    forall x, k | x in g && Owns(g[x], k) ensures k in g {
      if Reaches(h, n, k) && k != n {
        var o := ReachViaOwner(h, n, k);
      }
    }
    var v :| Denotes(map[n := b], n, v);
    assert HasValue(g, n) by { LeafDenotes(map[n := b], g, n, v); }
    RebuildAll(h, g);
  }

  ghost predicate Childless(b: Body) {
    (b.Leaf? && !IsContainer(b.v)) || b == Vec([]) || b == Table(map[])
  }

  lemma ChildlessHasValue(n: Node, b: Body)
    requires Childless(b)
    ensures HasValue(map[n := b], n) && GoodBody(b) && forall k :: !Owns(b, k)
  {
    assert Denotes(map[n := b], n, match b case Leaf(v) => v case Vec(_) => Arr([]) case Table(_) => Obj(map[]));
  }

  lemma LeafSet(h: Heap, c: Node, b: Body)
    requires c in h && h[c].Leaf?
    ensures Cleared(h, c, b) == h[c := b]
  {
    LeafCleared(h, c);
    assert forall x :: x in h && Reaches(h, c, x) ==> x in Tree(h, c);
  }

  // ---- The shape of the heap while a copy is under way ----

  ghost predicate Grows(h: Heap, g: Heap) {
    forall x :: x in h ==> x in g && forall k :: Owns(h[x], k) ==> Owns(g[x], k)
  }

  lemma ReachGrows(h: Heap, g: Heap, a: Node, b: Node)
    requires Reaches(h, a, b) && Grows(h, g)
    ensures Reaches(g, a, b)
  {
    var p :| PathFromTo(h, p, a, b);
    assert PathFromTo(g, p, a, b);
  }

  // A childless body may replace a leaf.
  lemma LeafUpdate(h: Heap, c: Node, b: Body)
    requires Forest(h) && c in h && h[c].Leaf? && Childless(b)
    ensures Forest(h[c := b]) && Grows(h, h[c := b]) && forall k :: !Owns(b, k)
  {
    ChildlessHasValue(c, b);
    ClearedForest(h, c, b);
    LeafSet(h, c, b);
  }

  lemma FreshForest(h: Heap, n: Node, b: Body)
    requires Forest(h) && n !in h && Childless(b)
    ensures Forest(h[n := b]) && IsRoot(h[n := b], n) && Grows(h, h[n := b])
  {
    var g := h[n := b];
    ChildlessHasValue(n, b);
    var v :| Denotes(map[n := b], n, v);
    LeafDenotes(map[n := b], g, n, v);
    RebuildAll(h, g);
  }

  lemma AttachedOwns(b: Body, slot: Slot, c: Node, k: Node)
    requires SlotFits(b, slot)
    ensures Owns(Attached(b, slot, c), k) <==> Owns(b, k) || k == c
  {
    var a := Attached(b, slot, c);
    match slot
    case End =>
      assert a.kids[|b.kids|] == c;
      if Owns(b, k) { var i :| 0 <= i < |b.kids| && b.kids[i] == k; assert a.kids[i] == k; }
    case Key(key) =>
      assert key in a.members && a.members[key] == c;
      if Owns(b, k) { var j :| j in b.members && b.members[j] == k; assert j in a.members && a.members[j] == k; }
  }

  // ---- Hanging a tree under a container ----

  lemma AttachShape(h: Heap, t: Node, slot: Slot, c: Node)
    requires Forest(h) && t in h && IsRoot(h, c) && SlotFits(h[t], slot)
    ensures GoodBody(Attached(h[t], slot, c))
  {
    var a := Attached(h[t], slot, c);
    match slot
    case End =>
      forall i, j | 0 <= i < j < |a.kids| ensures a.kids[i] != a.kids[j] {
        if a.kids[i] == c { assert Owns(h[t], c); }
      }
    case Key(key) =>
      forall j, k | j in a.members && k in a.members && a.members[j] == a.members[k] ensures j == k {
        if j != k && a.members[j] == c { assert Owns(h[t], c); }
      }
  }

  // What the new heap owns beyond the old one is c, and t owns it.
  lemma AttachOwner(h: Heap, t: Node, slot: Slot, c: Node, x: Node, k: Node)
    requires Forest(h) && t in h && IsRoot(h, c) && SlotFits(h[t], slot)
    ensures var g := h[t := Attached(h[t], slot, c)];
            x in g ==> (Owns(g[x], k) <==> Owns(h[x], k) || (x == t && k == c))
  {
    AttachedOwns(h[t], slot, c, k);
  }

  lemma AttachSingleOwner(h: Heap, t: Node, slot: Slot, c: Node)
    requires Forest(h) && t in h && IsRoot(h, c) && SlotFits(h[t], slot)
    ensures SingleOwner(h[t := Attached(h[t], slot, c)])
  {
    var g := h[t := Attached(h[t], slot, c)];
    forall x, k | x in g && Owns(g[x], k) ensures k in g { AttachOwner(h, t, slot, c, x, k); }
    forall a, b, k | a in g && b in g && Owns(g[a], k) && Owns(g[b], k) ensures a == b {
      AttachOwner(h, t, slot, c, a, k);
      AttachOwner(h, t, slot, c, b, k);
    }
    AttachShape(h, t, slot, c);
  }

  function AttachedValue(v: Json, slot: Slot, w: Json): Json {
    match (v, slot)
    case (Arr(items), End) => Arr(items + [w])
    case (Obj(members), Key(key)) => Obj(members[key := w])
    case _ => v
  }

  lemma AttachTree(h: Heap, t: Node, slot: Slot, c: Node)
    requires Forest(h) && t in h && IsRoot(h, c) && !Reaches(h, c, t) && SlotFits(h[t], slot)
    ensures var g := h[t := Attached(h[t], slot, c)];
            Forest(g) && Grows(h, g) && Owns(g[t], c)
            && Denotes(g, t, AttachedValue(ValueOf(h, t), slot, ValueOf(h, c)))
  {
    var g := h[t := Attached(h[t], slot, c)];
    AttachSingleOwner(h, t, slot, c);
    forall x, k | x in h && Owns(h[x], k) ensures Owns(g[x], k) { AttachOwner(h, t, slot, c, x, k); }
    AttachOwner(h, t, slot, c, t, c);
    AttachDenotes(h, t, slot, c);
    RebuildAll(h, g);
  }

  lemma AttachDenotes(h: Heap, t: Node, slot: Slot, c: Node)
    requires Forest(h) && t in h && IsRoot(h, c) && !Reaches(h, c, t) && SlotFits(h[t], slot)
    ensures var g := h[t := Attached(h[t], slot, c)];
            Denotes(g, t, AttachedValue(ValueOf(h, t), slot, ValueOf(h, c)))
  {
    var g := h[t := Attached(h[t], slot, c)];
    var v, w := ValueOf(h, t), ValueOf(h, c);
    DenotesFrame(h, g, c, w);
    forall k, u | Owns(h[t], k) && Denotes(h, k, u) ensures Denotes(g, k, u) {
      forall x | x in h && Reaches(h, k, x) ensures g[x] == h[x] { OwnerAbove(h, t, k); }
      DenotesFrame(h, g, k, u);
    }
    match v
    case Arr(items) =>
      forall i | 0 <= i < |items| ensures Denotes(g, h[t].kids[i], items[i]) { assert Owns(h[t], h[t].kids[i]); }
    case Obj(members) =>
      forall k | k in members ensures Denotes(g, h[t].members[k], members[k]) { assert Owns(h[t], h[t].members[k]); }
    case _ =>
  }

  // An owner is not below what it owns.
  lemma OwnerAbove(h: Heap, o: Node, k: Node)
    requires Forest(h) && o in h && Owns(h[o], k)
    ensures k != o && !Reaches(h, k, o)
  {
    KidValue(h, o, ValueOf(h, o), k);
    if Reaches(h, k, o) {
      ReachSelf(h, k);
      ReachKid(h, o, k, k);
      NoCycle(h, o, k);
    }
  }

  lemma AttachReach(h: Heap, g: Heap, a: Node, t: Node, c: Node, x: Node)
    requires Grows(h, g) && t in g && c in g && Owns(g[t], c)
    requires Reaches(h, a, t) && (x == c || Reaches(h, a, x))
    ensures Reaches(g, a, x)
  {
    if x == c {
      ReachGrows(h, g, a, t);
      ReachSelf(g, c);
      ReachKid(g, t, c, c);
      ReachTransitive(g, a, t, c);
    } else {
      ReachGrows(h, g, a, x);
    }
  }

  // ---- Exchanging storage ----

  ghost function Swapped(h: Heap, a: Node, b: Node): Heap
    requires a in h && b in h
  {
    h[a := h[b]][b := h[a]]
  }

  // Taking over another node's body means taking over its value, as long as
  // nothing below that body changes.
  lemma DenotesMoved(h: Heap, g: Heap, b: Node, v: Json, a: Node)
    requires Denotes(h, b, v) && a in g && g[a] == h[b]
    requires forall k, x :: Owns(h[b], k) && x in h && Reaches(h, k, x) ==> x in g && g[x] == h[x]
    ensures Denotes(g, a, v)
  {
    match v
    case Arr(items) =>
      forall i | 0 <= i < |items| ensures Denotes(g, h[b].kids[i], items[i]) {
        assert Owns(h[b], h[b].kids[i]);
        DenotesFrame(h, g, h[b].kids[i], items[i]);
      }
    case Obj(members) =>
      forall k | k in members ensures Denotes(g, h[b].members[k], members[k]) {
        assert Owns(h[b], h[b].members[k]);
        DenotesFrame(h, g, h[b].members[k], members[k]);
      }
    case _ =>
  }

  lemma SwapSingleOwner(h: Heap, a: Node, b: Node)
    requires Forest(h) && a in h && b in h
    ensures SingleOwner(Swapped(h, a, b))
  {
    var g := Swapped(h, a, b);
    forall x, y, k | x in g && y in g && Owns(g[x], k) && Owns(g[y], k) ensures x == y {
      var x', y' := if x == a then b else if x == b then a else x, if y == a then b else if y == b then a else y;
      assert Owns(h[x'], k) && Owns(h[y'], k);
    }
  }

  // Nodes that do not overlap exchange their values.
  lemma SwapForest(h: Heap, a: Node, b: Node)
    requires Forest(h) && a in h && b in h && !Reaches(h, a, b) && !Reaches(h, b, a)
    ensures var g := Swapped(h, a, b);
            Forest(g) && Denotes(g, a, ValueOf(h, b)) && Denotes(g, b, ValueOf(h, a))
  {
    hide Denotes, Reaches, SingleOwner;
    var g := Swapped(h, a, b);
    SwapSingleOwner(h, a, b);
    SwapMoved(h, a, b);
    SwapMoved(h, b, a);
    assert Swapped(h, b, a) == g;
    RebuildAll(h, g);
  }

  lemma SwapMoved(h: Heap, a: Node, b: Node)
    requires Forest(h) && a in h && b in h && !Reaches(h, b, a)
    ensures Denotes(Swapped(h, a, b), a, ValueOf(h, b))
  {
    var g := Swapped(h, a, b);
    forall k, x | Owns(h[b], k) && x in h && Reaches(h, k, x) ensures x in g && g[x] == h[x] {
      ReachKid(h, b, k, x);
      OwnerAbove(h, b, k);
    }
    DenotesMoved(h, g, b, ValueOf(h, b), a);
  }

  // ---- Replacing a node's contents by a detached tree ----

  // dst holds what the root t held; t and dst's former descendants are gone.
  ghost function Installed(h: Heap, dst: Node, t: Node): Heap
    requires t in h
  {
    map x | x in h && x != t && (x == dst || !Reaches(h, dst, x)) :: if x == dst then h[t] else h[x]
  }

  lemma InstallKept(h: Heap, dst: Node, t: Node, x: Node)
    requires Forest(h) && IsRoot(h, t) && dst in h && dst != t && !Reaches(h, t, dst)
    requires Reaches(h, t, x) && x != t
    ensures x in Installed(h, dst, t) && Installed(h, dst, t)[x] == h[x]
  {
    ReachLive(h, t, x);
    if Reaches(h, dst, x) {
      NestedOrDisjoint(h, dst, t, x);
      var o := ReachViaOwner(h, dst, t);
    }
  }

  lemma InstallSingleOwner(h: Heap, dst: Node, t: Node)
    requires Forest(h) && IsRoot(h, t) && dst in h && dst != t && !Reaches(h, t, dst)
    ensures SingleOwner(Installed(h, dst, t))
  {
    var g := Installed(h, dst, t);
    forall x, k | x in g && Owns(g[x], k) ensures k in g {
      var o := if x == dst then t else x;
      assert Owns(h[o], k);
      if o == t {
        ReachSelf(h, k);
        ReachKid(h, t, k, k);
        OwnerAbove(h, t, k);
        InstallKept(h, dst, t, k);
      } else if k != dst && Reaches(h, dst, k) {
        var p := ReachViaOwner(h, dst, k);
      }
    }
    forall a, b, k | a in g && b in g && Owns(g[a], k) && Owns(g[b], k) ensures a == b {
      var a', b' := if a == dst then t else a, if b == dst then t else b;
      assert Owns(h[a'], k) && Owns(h[b'], k);
    }
  }

  lemma InstallForest(h: Heap, dst: Node, t: Node)
    requires Forest(h) && IsRoot(h, t) && dst in h && dst != t && !Reaches(h, t, dst)
    ensures Forest(Installed(h, dst, t)) && Denotes(Installed(h, dst, t), dst, ValueOf(h, t))
  {
    var g := Installed(h, dst, t);
    InstallSingleOwner(h, dst, t);
    forall k, x | Owns(h[t], k) && x in h && Reaches(h, k, x) ensures x in g && g[x] == h[x] {
      ReachKid(h, t, k, x);
      OwnerAbove(h, t, k);
      InstallKept(h, dst, t, x);
    }
    DenotesMoved(h, g, t, ValueOf(h, t), dst);
    RebuildAll(h, g);
  }
}
