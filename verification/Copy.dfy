// Iterative deep copy with an explicit work list, under allocations that may
// fail at every step.

module DeepCopy {
  import opened JsonValue
  import opened DomHeap
  import opened HeapSurgery
  import opened Teardown

  datatype Item = Item(src: Node, dst: Node)

  // n holds v, except that at the nodes of pend only the value still to be
  // filled in is known.
  ghost predicate Partial(h: Heap, n: Node, v: Json, pend: map<Node, Json>)
    decreases v
  {
    n in h &&
    if n in pend then pend[n] == v else
    match v
    case Arr(items) =>
      && h[n].Vec?
      && |h[n].kids| == |items|
      && forall i :: 0 <= i < |items| ==> Partial(h, h[n].kids[i], items[i], pend)
    case Obj(members) =>
      && h[n].Table?
      && h[n].members.Keys == members.Keys
      && forall k :: k in members ==> Partial(h, h[n].members[k], members[k], pend)
    case _ => h[n] == Leaf(v)
  }

  lemma {:induction false} PartialComplete(h: Heap, n: Node, v: Json)
    requires Partial(h, n, v, map[])
    ensures Denotes(h, n, v)
    decreases v
  {
    match v
    case Arr(items) =>
      forall i | 0 <= i < |items| ensures Denotes(h, h[n].kids[i], items[i]) {
        PartialComplete(h, h[n].kids[i], items[i]);
      }
    case Obj(members) =>
      forall k | k in members ensures Denotes(h, h[n].members[k], members[k]) {
        PartialComplete(h, h[n].members[k], members[k]);
      }
    case _ =>
  }

  // Changing pending nodes and adding new ones leaves the finished part alone.
  lemma {:induction false} PartialFrame(h: Heap, g: Heap, n: Node, v: Json, pend: map<Node, Json>,
                                        more: map<Node, Json>)
    requires Partial(h, n, v, pend)
    requires forall x :: x in h ==> x in g && (x in pend || g[x] == h[x])
    requires forall x :: x in pend ==> x in more && more[x] == pend[x]
    requires forall x :: x in more && x in h ==> x in pend
    ensures Partial(g, n, v, more)
    decreases v
  {
    if n !in pend {
      match v
      case Arr(items) =>
        forall i | 0 <= i < |items| ensures Partial(g, h[n].kids[i], items[i], more) {
          PartialFrame(h, g, h[n].kids[i], items[i], pend, more);
        }
      case Obj(members) =>
        forall k | k in members ensures Partial(g, h[n].members[k], members[k], more) {
          PartialFrame(h, g, h[n].members[k], members[k], pend, more);
        }
      case _ =>
    }
  }

  // Inside a smaller value than t's, t does not occur.
  lemma {:induction false} PartialWithout(h: Heap, n: Node, v: Json, pend: map<Node, Json>, t: Node)
    requires Partial(h, n, v, pend) && t in pend && v < pend[t]
    ensures Partial(h, n, v, pend - {t})
    decreases v
  {
    if n !in pend {
      match v
      case Arr(items) =>
        forall i | 0 <= i < |items| ensures Partial(h, h[n].kids[i], items[i], pend - {t}) {
          assert items[i] < v;
          PartialWithout(h, h[n].kids[i], items[i], pend, t);
        }
      case Obj(members) =>
        forall k | k in members ensures Partial(h, h[n].members[k], members[k], pend - {t}) {
          assert members[k] < v;
          PartialWithout(h, h[n].members[k], members[k], pend, t);
        }
      case _ =>
    }
  }

  // One level of Partial, for a node whose slots have all been filled.
  ghost predicate Filled(h: Heap, t: Node, v: Json, pend: map<Node, Json>) {
    t in h &&
    match v
    case Arr(items) =>
      && h[t].Vec?
      && |h[t].kids| == |items|
      && forall i :: 0 <= i < |items| ==> Partial(h, h[t].kids[i], items[i], pend)
    case Obj(members) =>
      && h[t].Table?
      && h[t].members.Keys == members.Keys
      && forall k :: k in members ==> Partial(h, h[t].members[k], members[k], pend)
    case _ => h[t] == Leaf(v)
  }

  lemma FilledWithout(h: Heap, t: Node, pend: map<Node, Json>)
    requires t in pend && Filled(h, t, pend[t], pend)
    ensures Partial(h, t, pend[t], pend - {t})
  {
    match pend[t]
    case Arr(items) =>
      forall i | 0 <= i < |items| ensures Partial(h, h[t].kids[i], items[i], pend - {t}) {
        PartialWithout(h, h[t].kids[i], items[i], pend, t);
      }
    case Obj(members) =>
      forall k | k in members ensures Partial(h, h[t].members[k], members[k], pend - {t}) {
        PartialWithout(h, h[t].members[k], members[k], pend, t);
      }
    case _ =>
  }

  // A pending node whose slots are filled is pending no more.
  lemma {:induction false} PartialRetire(h: Heap, n: Node, v: Json, pend: map<Node, Json>, t: Node)
    requires Partial(h, n, v, pend) && t in pend && Filled(h, t, pend[t], pend)
    ensures Partial(h, n, v, pend - {t})
    decreases v
  {
    if n == t {
      FilledWithout(h, t, pend);
    } else if n !in pend {
      match v
      case Arr(items) =>
        forall i | 0 <= i < |items| ensures Partial(h, h[n].kids[i], items[i], pend - {t}) {
          PartialRetire(h, h[n].kids[i], items[i], pend, t);
        }
      case Obj(members) =>
        forall k | k in members ensures Partial(h, h[n].members[k], members[k], pend - {t}) {
          PartialRetire(h, h[n].members[k], members[k], pend, t);
        }
      case _ =>
    }
  }

  // h0 was the heap when the copy of a tree holding v into dst began; g is the
  // heap now.
  ghost predicate Copying(h0: Heap, g: Heap, dst: Node, v: Json, pend: map<Node, Json>) {
    && Forest(g)
    && dst in h0
    && (forall x :: x in h0 ==> x in g && (x == dst || g[x] == h0[x]))
    && (forall x :: x in g && x !in h0 ==> Reaches(g, dst, x))
    && (forall x, k :: x in g && (x == dst || x !in h0) && Owns(g[x], k) ==> k !in h0)
    && (forall x :: x in pend ==> x in g && (x == dst || x !in h0))
    && Partial(g, dst, v, pend)
  }

  lemma CopyAttach(h0: Heap, h: Heap, g: Heap, dst: Node, v: Json, pend: map<Node, Json>,
                   t: Node, slot: Slot, c: Node, w: Json)
    requires Copying(h0, h, dst, v, pend) && t in pend && c !in h && SlotFits(h[t], slot)
    requires c in g && Childless(g[c]) && g == h[c := g[c]][t := Attached(h[t], slot, c)]
    ensures Copying(h0, g, dst, v, pend[c := w])
  {
    hide Forest, Owns, Reaches, Grows, IsRoot;
    var h1 := h[c := g[c]];
    FreshAttach(h, t, slot, c, g[c]);
    forall x, k | x in g && (x == dst || x !in h0) && Owns(g[x], k) ensures k !in h0 {
      AttachOwner(h1, t, slot, c, x, k);
      ChildlessHasValue(c, g[c]);
    }
    PartialFrame(h, g, dst, v, pend, pend[c := w]);
    forall x | x in g && x !in h0 ensures Reaches(g, dst, x) {
      AttachReach(h, g, dst, t, c, x) by {
        if t == dst { ReachSelf(h, dst); }
      }
    }
  }

  lemma FreshAttach(h: Heap, t: Node, slot: Slot, c: Node, b: Body)
    requires Forest(h) && t in h && c !in h && SlotFits(h[t], slot) && Childless(b)
    ensures var h1 := h[c := b];
            var g := h1[t := Attached(h1[t], slot, c)];
            Forest(h1) && IsRoot(h1, c) && Forest(g) && Grows(h, g) && Owns(g[t], c)
  {
    hide Forest, Denotes;
    var h1 := h[c := b];
    FreshForest(h, c, b);
    ChildlessHasValue(c, b);
    if Reaches(h1, c, t) { LeafReach(h1, c, t); }
    AttachTree(h1, t, slot, c);
  }

  lemma CopyRetire(h0: Heap, g: Heap, dst: Node, v: Json, pend: map<Node, Json>, t: Node)
    requires Copying(h0, g, dst, v, pend) && t in pend && Filled(g, t, pend[t], pend)
    ensures Copying(h0, g, dst, v, pend - {t})
  {
    PartialRetire(g, dst, v, pend, t);
  }

  // Storing a scalar in a pending leaf.
  lemma CopyScalar(h0: Heap, h: Heap, dst: Node, v: Json, pend: map<Node, Json>, c: Node, w: Json)
    requires Copying(h0, h, dst, v, pend) && c in pend && h[c].Leaf? && !IsContainer(w)
    ensures Copying(h0, h[c := Leaf(w)], dst, v, pend)
  {
    hide Forest, Owns, Reaches, Grows;
    var g := h[c := Leaf(w)];
    LeafUpdate(h, c, Leaf(w));
    assert forall x, k :: x in g && Owns(g[x], k) ==> x in h && Owns(h[x], k);
    PartialFrame(h, g, dst, v, pend, pend);
    forall x | x in g && x !in h0 ensures Reaches(g, dst, x) { ReachGrows(h, g, dst, x); }
  }

  // An unfinished copy is undone by resetting its root: every node it allocated
  // hangs below.
  lemma CopyUndone(h0: Heap, g: Heap, dst: Node, v: Json, pend: map<Node, Json>)
    requires Forest(h0) && Copying(h0, g, dst, v, pend) && h0[dst] == NULL_BODY
    ensures Cleared(g, dst, NULL_BODY) == h0
  {
    forall x | x in h0 && x != dst ensures !Reaches(g, dst, x) {
      if Reaches(g, dst, x) {
        var p :| PathFromTo(g, p, dst, x);
        CopyIsFresh(h0, g, dst, p);
      }
    }
  }

  // Nothing that was there before is reachable from the copy.
  lemma {:induction false} CopyIsFresh(h0: Heap, g: Heap, dst: Node, p: seq<Node>)
    requires IsPath(g, p) && p[0] == dst
    requires forall x, k :: x in g && (x == dst || x !in h0) && Owns(g[x], k) ==> k !in h0
    ensures p[|p| - 1] == dst || p[|p| - 1] !in h0
    decreases |p|
  {
    if |p| > 1 {
      CopyIsFresh(h0, g, dst, p[..|p| - 1]);
      assert Owns(g[p[|p| - 2]], p[|p| - 2 + 1]);
    }
  }

  // What resetTo() leaves in a node of the given kind.
  function Blank(b: Body): (e: Body)
    ensures GoodBody(b) ==> Childless(e)
    ensures e.Leaf? <==> b.Leaf?
    ensures !b.Leaf? ==> e == EmptyLike(b)
    ensures forall k :: !Owns(e, k)
  {
    match b
    case Leaf(Bool(_)) => Leaf(Bool(false))
    case Leaf(Int(_)) => Leaf(Int(0))
    case Leaf(UInt(_)) => Leaf(UInt(0))
    case Leaf(Double(_)) => Leaf(Double(Finite(false, 0, 0)))
    case Leaf(Str(_)) => Leaf(Str([]))
    case Leaf(_) => Leaf(Null)
    case _ => EmptyLike(b)
  }

  // Allocates a node, rebuilds it as an empty value of b's kind, and makes room
  // for it in its future container. On failure it is released again.
  method NewChild(d: Dom, b: Body) returns (ok: bool, c: Node)
    requires d.Valid() && GoodBody(b)
    modifies d
    ensures d.links == map[]
    ensures if ok then c !in old(d.cells) && d.cells == old(d.cells)[c := Blank(b)] else d.cells == old(d.cells)
  {
    hide Forest, Owns, GoodBody, Cleared, Tree, Blank;
    c, ok := d.MakeNode();
    if ok {
      LeafSet(d.cells, c, Blank(b));
      ok := d.ResetTo(c, Blank(b));
      if ok { ok := d.Allocate(); }
      if !ok {
        assert forall k :: !Owns(NULL_BODY, k) by { ChildlessHasValue(c, NULL_BODY); }
        assert forall k :: !Owns(Blank(b), k);
        d.FreeNode(c);
        assert d.cells == old(d.cells);
      }
    }
  }

  // Makes a copy of one child and hangs it under t; a container's own children
  // are left for later.
  method AddChild(d: Dom, t: Node, slot: Slot, elem: Node,
                  ghost h0: Heap, ghost dst: Node, ghost v: Json, ghost pend: map<Node, Json>, ghost w: Json)
    returns (ok: bool, c: Node, ghost pend2: map<Node, Json>)
    requires d.links == map[] && Copying(h0, d.cells, dst, v, pend) && t in pend && SlotFits(d.cells[t], slot)
    requires elem in h0 && elem != t && elem in d.cells && d.cells[elem] == h0[elem] && Denotes(h0, elem, w)
    modifies d
    ensures d.links == map[] && Copying(h0, d.cells, dst, v, pend2)
    ensures ok ==>
      && c !in old(d.cells) && c in d.cells && t in d.cells
      && d.cells[t] == Attached(old(d.cells)[t], slot, c)
      && (forall x :: x in old(d.cells) ==> x in d.cells && (x == t || d.cells[x] == old(d.cells)[x]))
      && pend2 == (if IsContainer(w) then pend[c := w] else pend)
      && (IsContainer(w) ==> d.cells[c] == EmptyLike(h0[elem]))
      && Partial(d.cells, c, w, pend2)
  {
    hide Forest, Owns, Reaches, Grows, Copying, GoodBody;
    pend2 := pend;
    CopyingParts(h0, d.cells, dst, v, pend);
    ghost var h := d.cells;
    ok, c := NewChild(d, d.cells[elem]);
    if ok {
      d.cells := d.cells[t := Attached(d.cells[t], slot, c)];
      pend2 := pend[c := w];
      CopyAttach(h0, h, d.cells, dst, v, pend, t, slot, c, w);
      if d.cells[elem].Leaf? {
        ok := d.Allocate();
        FillLeaf(h0, d.cells, dst, v, pend2, c, w, ok);
        d.cells := d.cells[c := if ok then d.cells[elem] else NULL_BODY];
        assert pend2 - {c} == pend;
        if ok { pend2 := pend; }
      }
    }
  }

  lemma CopyingParts(h0: Heap, g: Heap, dst: Node, v: Json, pend: map<Node, Json>)
    requires Copying(h0, g, dst, v, pend)
    ensures Forest(g) && dst in h0 && (forall x :: x in pend ==> x in g)
    ensures forall x :: x in h0 ==> x in g && (x == dst || g[x] == h0[x])
    ensures forall x :: x in g ==> GoodBody(g[x])
  {
  }

  lemma FillLeaf(h0: Heap, h: Heap, dst: Node, v: Json, pend: map<Node, Json>, c: Node, w: Json, ok: bool)
    requires Copying(h0, h, dst, v, pend) && c in pend && pend[c] == w && h[c].Leaf? && !IsContainer(w)
    ensures if ok then Copying(h0, h[c := Leaf(w)], dst, v, pend - {c})
            else Copying(h0, h[c := NULL_BODY], dst, v, pend)
  {
    CopyScalar(h0, h, dst, v, pend, c, if ok then w else Null);
    if ok { CopyRetire(h0, h[c := Leaf(w)], dst, v, pend, c); }
  }

  // One queued copy: an empty container that will receive its source's children.
  ghost predicate Queued(h0: Heap, g: Heap, src: Node, dst: Node, it: Item, pend: map<Node, Json>) {
    && it.dst in pend && it.dst in g
    && it.src in h0 && it.src != dst && Reaches(h0, src, it.src)
    && Denotes(h0, it.src, pend[it.dst])
    && !h0[it.src].Leaf? && g[it.dst] == EmptyLike(h0[it.src])
  }

  ghost predicate AllQueued(h0: Heap, g: Heap, src: Node, dst: Node, work: seq<Item>, pend: map<Node, Json>) {
    && (forall i :: 0 <= i < |work| ==> Queued(h0, g, src, dst, work[i], pend))
    && (forall i, j :: 0 <= i < j < |work| ==> work[i].dst != work[j].dst)
    && (forall x :: x in pend ==> exists i :: 0 <= i < |work| && work[i].dst == x)
  }

  lemma QueueChild(h0: Heap, h: Heap, g: Heap, src: Node, dst: Node, work: seq<Item>,
                   pend: map<Node, Json>, it: Item, w: Json)
    requires AllQueued(h0, h, src, dst, work, pend) && it.dst !in h
    requires forall i :: 0 <= i < |work| ==> work[i].dst in g && g[work[i].dst] == h[work[i].dst]
    requires forall x :: x in pend ==> x in h
    requires Queued(h0, g, src, dst, it, pend[it.dst := w])
    ensures AllQueued(h0, g, src, dst, work + [it], pend[it.dst := w])
  {
    var more, all := pend[it.dst := w], work + [it];
    forall i | 0 <= i < |all| ensures Queued(h0, g, src, dst, all[i], more) {
      if i < |work| { assert Queued(h0, h, src, dst, work[i], pend); }
    }
    forall x | x in more ensures exists i :: 0 <= i < |all| && all[i].dst == x {
      if x == it.dst { assert all[|work|].dst == x; }
      else { var i :| 0 <= i < |work| && work[i].dst == x; assert all[i].dst == x; }
    }
  }

  lemma QueueFrame(h0: Heap, h: Heap, g: Heap, src: Node, dst: Node, work: seq<Item>, pend: map<Node, Json>)
    requires AllQueued(h0, h, src, dst, work, pend)
    requires forall i :: 0 <= i < |work| ==> work[i].dst in g && g[work[i].dst] == h[work[i].dst]
    ensures AllQueued(h0, g, src, dst, work, pend)
  {
    forall i | 0 <= i < |work| ensures Queued(h0, g, src, dst, work[i], pend) {
      assert Queued(h0, h, src, dst, work[i], pend);
    }
  }

  // The fixed part of a copy: what is copied where.
  ghost predicate Sound(h0: Heap, src: Node, dst: Node) {
    Forest(h0) && src in h0 && dst in h0 && h0[dst] == NULL_BODY && !Reaches(h0, src, dst)
  }

  lemma SourceKid(h0: Heap, src: Node, dst: Node, s: Node, k: Node)
    requires Sound(h0, src, dst) && s in h0 && Reaches(h0, src, s) && Owns(h0[s], k)
    ensures k in h0 && k != dst && Reaches(h0, src, k)
  {
    ReachSelf(h0, k);
    ReachKid(h0, s, k, k);
    ReachTransitive(h0, src, s, k);
  }

  // Queues one more source child under t and keeps every part of the copy in
  // order; done are the children t already has.
  method CopyChild(d: Dom, s: Node, t: Node, slot: Slot, elem: Node, work0: seq<Item>,
                   ghost h0: Heap, ghost src: Node, ghost dst: Node, ghost v: Json, ghost pend: map<Node, Json>,
                   ghost w: Json)
    returns (ok: bool, c: Node, work: seq<Item>, ghost pend2: map<Node, Json>)
    requires Sound(h0, src, dst) && d.links == map[] && Copying(h0, d.cells, dst, v, pend)
    requires t in pend && SlotFits(d.cells[t], slot) && AllQueued(h0, d.cells, src, dst, work0, pend - {t})
    requires s in h0 && Reaches(h0, src, s) && Owns(h0[s], elem) && Denotes(h0, elem, w)
    modifies d
    ensures d.links == map[] && Copying(h0, d.cells, dst, v, pend2)
    ensures ok ==>
      && t in pend2 && pend2[t] == pend[t]
      && AllQueued(h0, d.cells, src, dst, work, pend2 - {t})
      && c !in old(d.cells) && t in d.cells && d.cells[t] == Attached(old(d.cells)[t], slot, c)
      && (work == work0 || (exists it: Item :: it.src == elem && work == work0 + [it]))
      && Partial(d.cells, c, w, pend2)
      && forall k, u :: Partial(old(d.cells), k, u, pend) ==> Partial(d.cells, k, u, pend2)
  {
    hide Forest, Owns, Reaches, Grows, Copying, GoodBody, AllQueued, Sound, Partial;
    CopyingParts(h0, d.cells, dst, v, pend);
    SourceKid(h0, src, dst, s, elem);
    ghost var h := d.cells;
    work := work0;
    assert elem != t by { PendingIsNew(h0, h, dst, v, pend, t); }
    ok, c, pend2 := AddChild(d, t, slot, elem, h0, dst, v, pend, w);
    if ok {
      CopyingParts(h0, d.cells, dst, v, pend2);
      AllQueuedParts(h0, h, src, dst, work, pend - {t});
      if d.cells[elem].Leaf? {
        QueueFrame(h0, h, d.cells, src, dst, work, pend - {t});
      } else {
        work := work + [Item(elem, c)];
        assert pend2 - {t} == (pend - {t})[c := w];
        QueueChild(h0, h, d.cells, src, dst, work0, pend - {t}, Item(elem, c), w);
      }
      forall k, u | Partial(h, k, u, pend) ensures Partial(d.cells, k, u, pend2) {
        PartialFrame(h, d.cells, k, u, pend, pend2);
      }
    }
  }

  lemma PendingIsNew(h0: Heap, g: Heap, dst: Node, v: Json, pend: map<Node, Json>, t: Node)
    requires Copying(h0, g, dst, v, pend) && t in pend
    ensures t == dst || t !in h0
  {
  }

  lemma AllQueuedParts(h0: Heap, g: Heap, src: Node, dst: Node, work: seq<Item>, pend: map<Node, Json>)
    requires AllQueued(h0, g, src, dst, work, pend)
    ensures forall i :: 0 <= i < |work| ==> work[i].dst in pend && work[i].dst in g
  {
  }

  method CopyArray(d: Dom, s: Node, t: Node, work0: seq<Item>,
                   ghost h0: Heap, ghost src: Node, ghost dst: Node, ghost v: Json, ghost pend0: map<Node, Json>)
    returns (ok: bool, work: seq<Item>, ghost pend: map<Node, Json>)
    requires Sound(h0, src, dst) && d.links == map[] && Copying(h0, d.cells, dst, v, pend0)
    requires t in pend0 && t in d.cells && d.cells[t] == Vec([])
    requires AllQueued(h0, d.cells, src, dst, work0, pend0 - {t})
    requires s in h0 && Reaches(h0, src, s) && h0[s].Vec? && Denotes(h0, s, pend0[t])
    requires s in d.cells && d.cells[s] == h0[s]
    modifies d
    ensures d.links == map[] && Copying(h0, d.cells, dst, v, pend)
    ensures ok ==> AllQueued(h0, d.cells, src, dst, work, pend) && Extends(work0, work, KidsOf(h0, s))
  {
    hide Forest, Reaches, Grows, Copying, AllQueued, Sound, Partial;
    var elements := d.cells[s].kids;
    ghost var w := pend0[t];
    ok, work, pend := true, work0, pend0;
    var i := 0;
    while i < |elements|
      invariant 0 <= i <= |elements|
      invariant d.links == map[] && Copying(h0, d.cells, dst, v, pend)
      invariant t in pend && pend[t] == w && AllQueued(h0, d.cells, src, dst, work, pend - {t})
      invariant t in d.cells && d.cells[t].Vec? && |d.cells[t].kids| == i
      invariant forall j :: 0 <= j < i ==> Partial(d.cells, d.cells[t].kids[j], w.items[j], pend)
      invariant Extends(work0, work, Elems(elements[..i]))
    {
      var c;
      assert Owns(h0[s], elements[i]);
      ghost var was := work;
      ok, c, work, pend := CopyChild(d, s, t, End, elements[i], work, h0, src, dst, v, pend, w.items[i]);
      if !ok { return; }
      assert elements[..i + 1] == elements[..i] + [elements[i]];
      ExtendsStep(work0, was, work, Elems(elements[..i]), elements[i], Elems(elements[..i + 1])) by {
        assert GoodBody(h0[s]) by { SoundForest(h0, src, dst, s); }
      }
      i := i + 1;
    }
    CopyRetire(h0, d.cells, dst, v, pend, t);
    pend := pend - {t};
    assert elements[..i] == elements;
    assert Elems(elements) == KidsOf(h0, s) by { SoundForest(h0, src, dst, s); }
  }

  method CopyTable(d: Dom, s: Node, t: Node, work0: seq<Item>,
                   ghost h0: Heap, ghost src: Node, ghost dst: Node, ghost v: Json, ghost pend0: map<Node, Json>)
    returns (ok: bool, work: seq<Item>, ghost pend: map<Node, Json>)
    requires Sound(h0, src, dst) && d.links == map[] && Copying(h0, d.cells, dst, v, pend0)
    requires t in pend0 && t in d.cells && d.cells[t] == Table(map[])
    requires AllQueued(h0, d.cells, src, dst, work0, pend0 - {t})
    requires s in h0 && Reaches(h0, src, s) && h0[s].Table? && Denotes(h0, s, pend0[t])
    requires s in d.cells && d.cells[s] == h0[s]
    modifies d
    ensures d.links == map[] && Copying(h0, d.cells, dst, v, pend)
    ensures ok ==> AllQueued(h0, d.cells, src, dst, work, pend) && Extends(work0, work, KidsOf(h0, s))
  {
    hide Forest, Reaches, Grows, Copying, AllQueued, Sound, Partial;
    var members := d.cells[s].members;
    ghost var w := pend0[t];
    ok, work, pend := true, work0, pend0;
    var rest := members.Keys;
    while rest != {}
      invariant rest <= members.Keys
      invariant d.links == map[] && Copying(h0, d.cells, dst, v, pend)
      invariant t in pend && pend[t] == w && AllQueued(h0, d.cells, src, dst, work, pend - {t})
      invariant t in d.cells && d.cells[t].Table? && d.cells[t].members.Keys == members.Keys - rest
      invariant forall k :: k in members && k !in rest ==> Partial(d.cells, d.cells[t].members[k], w.members[k], pend)
      invariant Extends(work0, work, set k | k in members && k !in rest :: members[k])
    {
      var c;
      var key :| key in rest;
      assert Owns(h0[s], members[key]);
      ghost var was, seen := work, set k | k in members && k !in rest :: members[k];
      ok, c, work, pend := CopyChild(d, s, t, Key(key), members[key], work, h0, src, dst, v, pend, w.members[key]);
      if !ok { return; }
      ghost var seen2 := set k | k in members && k !in rest - {key} :: members[k];
      ExtendsStep(work0, was, work, seen, members[key], seen2) by {
        assert GoodBody(h0[s]) by { SoundForest(h0, src, dst, s); }
        assert key !in rest - {key};
      }
      rest := rest - {key};
    }
    CopyRetire(h0, d.cells, dst, v, pend, t);
    pend := pend - {t};
    assert (set k | k in members && k !in rest :: members[k]) == KidsOf(h0, s) by { SoundForest(h0, src, dst, s); }
  }

  // Populates the null node dst with a copy of the tree at src. If any
  // allocation fails, everything allocated is released and dst is null again.
  method CopyContentsInto(d: Dom, dst: Node, src: Node) returns (ok: bool)
    requires d.Valid() && Sound(d.cells, src, dst)
    modifies d
    ensures d.Valid()
    ensures !ok ==> d.cells == old(d.cells)
    ensures ok ==> IsCopy(old(d.cells), d.cells, dst, ValueOf(old(d.cells), src))
  {
    hide Forest, Reaches, Grows, Copying, AllQueued, Sound, Partial, Owns, IsCopy;
    ghost var h0 := d.cells;
    SoundForest(h0, src, dst, src);
    ghost var v := ValueOf(h0, src);
    LeafSet(h0, dst, Blank(h0[src]));
    ok := d.ResetTo(dst, Blank(d.cells[src]));
    if !ok { return; }
    CopyStart(h0, src, dst, v);
    ghost var pend := map[dst := v];
    if d.cells[src].Leaf? {
      ok := d.Allocate();
      FillLeaf(h0, d.cells, dst, v, pend, dst, v, ok);
      d.cells := d.cells[dst := if ok then d.cells[src] else NULL_BODY];
      if ok { pend := pend - {dst}; }
    } else {
      ok, pend := CopyQueued(d, src, dst, h0, v);
    }
    CopyingParts(h0, d.cells, dst, v, pend);
    if ok {
      CopyFinished(h0, d.cells, dst, v, pend);
    } else {
      CopyUndone(h0, d.cells, dst, v, pend);
      d.Reset(dst);
    }
  }

  method CopyQueued(d: Dom, src: Node, dst: Node, ghost h0: Heap, ghost v: Json)
    returns (ok: bool, ghost pend: map<Node, Json>)
    requires Sound(h0, src, dst) && !h0[src].Leaf? && d.links == map[]
    requires d.cells == h0[dst := EmptyLike(h0[src])]
    requires Denotes(h0, src, v) && Copying(h0, d.cells, dst, v, map[dst := v])
    modifies d
    ensures d.links == map[] && Copying(h0, d.cells, dst, v, pend)
    ensures ok ==> pend == map[]
  {
    hide Forest, Reaches, Grows, Copying, AllQueued, Sound, Partial, Owns, Below, Antichain;
    var work := [Item(src, dst)];
    pend := map[dst := v];
    ok := true;
    QueueStart(h0, d.cells, src, dst, v);
    while work != []
      invariant d.links == map[] && Copying(h0, d.cells, dst, v, pend)
      invariant AllQueued(h0, d.cells, src, dst, work, pend) && Spread(h0, work)
      decreases Below(h0, Sources(work))
    {
      var it := work[|work| - 1];
      ghost var was, rest := work, work[..|work| - 1];
      assert was == rest + [it];
      PopQueued(h0, d.cells, src, dst, v, work, pend);
      if d.cells[it.src].Vec? {
        ok, work, pend := CopyArray(d, it.src, it.dst, work[..|work| - 1], h0, src, dst, v, pend);
      } else {
        ok, work, pend := CopyTable(d, it.src, it.dst, work[..|work| - 1], h0, src, dst, v, pend);
      }
      if !ok { return; }
      SpreadStep(h0, was, it, rest, work) by { SoundForest(h0, src, dst, it.src); }
    }
    assert pend == map[] by { NoneQueued(h0, d.cells, src, dst, pend); }
  }

  // ---- Progress through the source ----

  ghost function Sources(work: seq<Item>): set<Node> {
    set i | 0 <= i < |work| :: work[i].src
  }

  // The queued sources are distinct and no one is below another.
  ghost predicate Spread(h0: Heap, work: seq<Item>) {
    Antichain(h0, Sources(work)) && forall i, j :: 0 <= i < j < |work| ==> work[i].src != work[j].src
  }

  ghost predicate Extends(work0: seq<Item>, work: seq<Item>, seen: set<Node>) {
    && work0 <= work
    && (forall i :: |work0| <= i < |work| ==> work[i].src in seen)
    && (forall i, j :: |work0| <= i < j < |work| ==> work[i].src != work[j].src)
  }

  lemma ExtendsStep(work0: seq<Item>, was: seq<Item>, work: seq<Item>, seen: set<Node>, elem: Node, seen2: set<Node>)
    requires Extends(work0, was, seen) && elem !in seen && seen <= seen2 && elem in seen2
    requires work == was || (exists it: Item :: it.src == elem && work == was + [it])
    ensures Extends(work0, work, seen2)
  {
  }

  lemma SpreadStep(h0: Heap, was: seq<Item>, it: Item, rest: seq<Item>, work: seq<Item>)
    requires Forest(h0) && Spread(h0, was) && was == rest + [it] && it.src in h0
    requires Extends(rest, work, KidsOf(h0, it.src))
    ensures Spread(h0, work)
    ensures Below(h0, Sources(work)) < Below(h0, Sources(was))
  {
    var s := it.src;
    assert was[|rest|] == it;
    forall i | 0 <= i < |rest| ensures work[i].src in Sources(was) - {s} { assert was[i] == rest[i] == work[i]; }
    var g := Sources(was) - {s} + KidsOf(h0, s);
    Expand(h0, Sources(was), s);
    assert Sources(work) <= g;
    assert Below(h0, Sources(work)) <= Below(h0, g);
    forall i, j | 0 <= i < j < |work| ensures work[i].src != work[j].src {
      if j < |rest| { assert was[i] == work[i] && was[j] == work[j]; }
    }
  }

  lemma SoundForest(h0: Heap, src: Node, dst: Node, s: Node)
    requires Sound(h0, src, dst)
    ensures Forest(h0) && src in h0 && dst in h0 && src != dst && h0[dst] == NULL_BODY && HasValue(h0, src)
    ensures s in h0 ==> GoodBody(h0[s]) && forall k :: Owns(h0[s], k) <==> k in KidsOf(h0, s)
  {
    ReachSelf(h0, src);
  }

  lemma CopyStart(h0: Heap, src: Node, dst: Node, v: Json)
    requires Sound(h0, src, dst) && Denotes(h0, src, v)
    ensures Copying(h0, h0[dst := Blank(h0[src])], dst, v, map[dst := v])
  {
    hide Forest, Reaches, Owns, Denotes, Grows;
    SoundForest(h0, src, dst, src);
    LeafUpdate(h0, dst, Blank(h0[src]));
  }

  lemma QueueStart(h0: Heap, g: Heap, src: Node, dst: Node, v: Json)
    requires Sound(h0, src, dst) && Denotes(h0, src, v) && !h0[src].Leaf?
    requires dst in g && g[dst] == EmptyLike(h0[src])
    ensures var work := [Item(src, dst)];
            AllQueued(h0, g, src, dst, work, map[dst := v]) && Spread(h0, work)
  {
    ReachSelf(h0, src);
    var work := [Item(src, dst)];
    assert work[0].dst == dst;
    assert Sources(work) == {src} by { assert work[0].src == src; }
  }

  lemma PopQueued(h0: Heap, g: Heap, src: Node, dst: Node, v: Json, work: seq<Item>, pend: map<Node, Json>)
    requires Sound(h0, src, dst) && Copying(h0, g, dst, v, pend) && AllQueued(h0, g, src, dst, work, pend) && work != []
    ensures var it := work[|work| - 1];
            && it.dst in pend && it.dst in g && it.src in h0 && it.src in g && g[it.src] == h0[it.src]
            && Reaches(h0, src, it.src) && Denotes(h0, it.src, pend[it.dst])
            && !h0[it.src].Leaf? && g[it.dst] == EmptyLike(h0[it.src])
            && AllQueued(h0, g, src, dst, work[..|work| - 1], pend - {it.dst})
  {
    hide Forest, Reaches, Partial, Copying, Sound, Owns, Denotes;
    var n := |work| - 1;
    var it, rest := work[n], work[..n];
    CopyingParts(h0, g, dst, v, pend);
    SoundForest(h0, src, dst, src);
    assert Queued(h0, g, src, dst, it, pend);
    forall i | 0 <= i < n ensures Queued(h0, g, src, dst, rest[i], pend - {it.dst}) {
      assert Queued(h0, g, src, dst, work[i], pend) && work[i].dst != work[n].dst;
    }
    forall x | x in pend - {it.dst} ensures exists i :: 0 <= i < |rest| && rest[i].dst == x {
      var i :| 0 <= i < |work| && work[i].dst == x;
      assert rest[i].dst == x;
    }
  }

  lemma NoneQueued(h0: Heap, g: Heap, src: Node, dst: Node, pend: map<Node, Json>)
    requires AllQueued(h0, g, src, dst, [], pend)
    ensures pend == map[]
  {
  }

  lemma CopyFinished(h0: Heap, g: Heap, dst: Node, v: Json, pend: map<Node, Json>)
    requires Copying(h0, g, dst, v, pend) && pend == map[]
    ensures IsCopy(h0, g, dst, v)
  {
    PartialComplete(g, dst, v);
    ReachSelf(g, dst);
    forall x | x in g && Reaches(g, dst, x) ensures x == dst || x !in h0 {
      var p :| PathFromTo(g, p, dst, x);
      CopyIsFresh(h0, g, dst, p);
    }
  }

  // g is h with a fresh tree holding v rooted at dst, and otherwise the same.
  ghost predicate IsCopy(h: Heap, g: Heap, dst: Node, v: Json) {
    && Denotes(g, dst, v)
    && (forall x :: x in h && x != dst ==> x in g && g[x] == h[x])
    && (forall x :: x in g ==> (Reaches(g, dst, x) <==> x == dst || x !in h))
  }
}
