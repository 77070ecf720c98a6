// Allocation-free teardown: the descendants of a node are destroyed through an
// intrusive pending list threaded through their own private implementations.

module Teardown {
  import opened JsonValue
  import opened DomHeap
  import opened HeapSurgery

  function Elems(s: seq<Node>): set<Node> {
    set x | x in s
  }

  lemma ElemsSplit(s: seq<Node>, i: nat)
    requires i < |s| && forall i, j :: 0 <= i < j < |s| ==> s[i] != s[j]
    ensures Elems(s[i..]) == {s[i]} + Elems(s[i + 1..]) && s[i] !in Elems(s[i + 1..])
  {
    assert s[i..] == [s[i]] + s[i + 1..];
  }

  // Everything at or below the frontier.
  ghost function Below(h: Heap, frontier: set<Node>): set<Node> {
    set x | x in h && exists f :: f in frontier && Reaches(h, f, x)
  }

  ghost predicate Antichain(h: Heap, frontier: set<Node>) {
    frontier <= h.Keys &&
    forall f, g :: f in frontier && g in frontier && Reaches(h, f, g) ==> f == g
  }

  // Replacing a frontier node by its children uncovers exactly that node.
  lemma Expand(h: Heap, frontier: set<Node>, p: Node)
    requires Forest(h) && Antichain(h, frontier) && p in frontier
    ensures var g := frontier - {p} + KidsOf(h, p);
            Antichain(h, g) && p !in Below(h, g) && Below(h, frontier) == Below(h, g) + {p}
            && (frontier - {p}) !! KidsOf(h, p)
  {
    var kids := KidsOf(h, p);
    var g := frontier - {p} + kids;
    forall k | k in kids ensures Reaches(h, p, k) && !Reaches(h, k, p) {
      ReachSelf(h, k);
      ReachKid(h, p, k, k);
      if Reaches(h, k, p) { NoCycle(h, k, p); KidValue(h, p, ValueOf(h, p), k); }
    }
    forall x, y | x in g && y in g && Reaches(h, x, y) ensures x == y {
      ExpandAntichain(h, frontier, p, x, y);
    }
    forall x | x in h ensures x in Below(h, frontier) <==> x in Below(h, g) || x == p {
      if x in Below(h, frontier) && x != p {
        var f :| f in frontier && Reaches(h, f, x);
        if f == p { var k := ReachViaKid(h, p, x); assert k in kids; }
        else { assert f in g; }
      }
      if x in Below(h, g) {
        var f :| f in g && Reaches(h, f, x);
        if f in kids { ReachTransitive(h, p, f, x); }
      }
      if x == p { ReachSelf(h, p); }
    }
  }

  lemma ExpandAntichain(h: Heap, frontier: set<Node>, p: Node, x: Node, y: Node)
    requires Forest(h) && Antichain(h, frontier) && p in frontier
    requires x in frontier - {p} + KidsOf(h, p) && y in frontier - {p} + KidsOf(h, p)
    requires Reaches(h, x, y)
    ensures x == y
  {
    if x in KidsOf(h, p) { ReachKid(h, p, x, y); }
    if x in KidsOf(h, p) && y in KidsOf(h, p) {
      ReachSelf(h, y);
      SiblingsDisjoint(h, p, x, y, y);
    } else if y in KidsOf(h, p) && x != y {
      var o := ReachViaOwner(h, x, y);
    }
  }

  // base is out of reach of the teardown; the rest of the heap is what hangs
  // below the frontier, still as it was in h.
  ghost predicate Shrunk(h: Heap, cells: Heap, base: set<Node>, frontier: set<Node>) {
    && Antichain(h, frontier)
    && base !! Below(h, frontier)
    && cells.Keys == base + Below(h, frontier)
    && forall x :: x in Below(h, frontier) ==> cells[x] == h[x]
  }

  lemma ShrinkLeaf(h: Heap, cells: Heap, base: set<Node>, frontier: set<Node>, c: Node)
    requires Forest(h) && Shrunk(h, cells, base, frontier) && c in frontier && c in h
    requires h[c].Leaf?
    ensures c in cells && cells[c] == h[c]
    ensures Shrunk(h, cells - {c}, base, frontier - {c})
  {
    ReachSelf(h, c);
    assert c in Below(h, frontier);
    Expand(h, frontier, c);
    assert frontier - {c} + KidsOf(h, c) == frontier - {c};
  }

  lemma ShrinkPop(h: Heap, cells: Heap, base: set<Node>, frontier: set<Node>, p: Node)
    requires Forest(h) && Shrunk(h, cells, base, frontier) && p in frontier
    ensures p in h && p in cells && cells[p] == h[p] && p !in base && GoodBody(h[p])
    ensures forall k :: Owns(h[p], k) <==> k in KidsOf(h, p)
    ensures Shrunk(h, cells, base + {p}, frontier - {p} + KidsOf(h, p))
    ensures (frontier - {p}) !! KidsOf(h, p)
  {
    ReachSelf(h, p);
    assert p in Below(h, frontier);
    Expand(h, frontier, p);
  }

  lemma FrontierOutsideBase(h: Heap, cells: Heap, base: set<Node>, frontier: set<Node>)
    requires Shrunk(h, cells, base, frontier)
    ensures frontier !! base
  {
    forall f | f in frontier ensures f in Below(h, frontier) { ReachSelf(h, f); }
  }

  lemma ShrunkAway(h: Heap, cells: Heap, n: Node)
    requires Forest(h) && n in h
    requires Shrunk(h, cells, h.Keys - Below(h, KidsOf(h, n)), {})
    requires n in cells && forall x :: x in cells && x != n ==> cells[x] == h[x]
    ensures cells == Cleared(h, n, cells[n])
    ensures h.Keys - cells.Keys == Tree(h, n) - {n}
  {
    BelowKids(h, n);
    assert Below(h, {}) == {};
    ReachSelf(h, n);
    assert forall x :: x in h ==> (x in Tree(h, n) <==> Reaches(h, n, x));
  }

  lemma FreedExactly(before: multiset<Node>, after: multiset<Node>, all: set<Node>, left: set<Node>)
    requires left <= all && after + multiset(left) == before + multiset(all)
    ensures after == before + multiset(all - left)
  {
    var expected := before + multiset(all - left);
    forall x ensures after[x] == expected[x] {
      assert (after + multiset(left))[x] == (before + multiset(all))[x];
    }
  }

  ghost predicate Linked(links: map<Node, Node>, chain: seq<Node>, i: nat)
    requires i < |chain|
  {
    if i + 1 < |chain| then chain[i] in links && links[chain[i]] == chain[i + 1] else chain[i] !in links
  }

  // chain is the pending list, front first.
  ghost predicate Pending(cells: Heap, links: map<Node, Node>, first: Option<Node>, chain: seq<Node>) {
    && (forall i, j :: 0 <= i < j < |chain| ==> chain[i] != chain[j])
    && (forall c :: c in chain ==> c in cells && cells[c] != NULL_BODY)
    && first == (if chain == [] then None else Some(chain[0]))
    && (forall x :: x in links ==> x in chain)
    && (forall i :: 0 <= i < |chain| ==> Linked(links, chain, i))
  }

  lemma PopPending(cells: Heap, links: map<Node, Node>, first: Option<Node>, chain: seq<Node>)
    requires Pending(cells, links, first, chain) && chain != []
    ensures var rest := links - {chain[0]};
            Pending(cells, rest, if chain[0] in links then Some(links[chain[0]]) else None, chain[1..])
  {
    var rest := links - {chain[0]};
    assert Linked(links, chain, 0);
    forall i | 0 <= i < |chain| - 1 ensures Linked(rest, chain[1..], i) {
      assert Linked(links, chain, i + 1);
    }
  }

  lemma BelowKids(h: Heap, n: Node)
    requires Forest(h) && n in h
    ensures Antichain(h, KidsOf(h, n)) && n !in Below(h, KidsOf(h, n))
    ensures Tree(h, n) == Below(h, KidsOf(h, n)) + {n}
  {
    assert Antichain(h, {n});
    Expand(h, {n}, n);
    assert {n} - {n} + KidsOf(h, n) == KidsOf(h, n);
    assert Below(h, {n}) == Tree(h, n) by {
      forall x | x in Tree(h, n) ensures x in Below(h, {n}) { assert n in {n}; }
    }
  }

  lemma FreshAddress(h: Heap)
    ensures exists n: Node :: n !in h
  {
    var s := h.Keys;
    if s != {} {
      var top := MaxAddress(s);
      assert top + 1 !in h;
    } else {
      assert 0 !in h;
    }
  }

  lemma {:induction false} MaxAddress(s: set<Node>) returns (top: Node)
    requires s != {}
    ensures top in s && forall x :: x in s ==> x <= top
  {
    var first :| first in s;
    var rest := s - {first};
    assert s == rest + {first};
    top := first;
    if rest != {} {
      top := MaxAddress(rest);
      if first > top { top := first; }
    }
  }

  class Dom {
    // Live nodes, and the intrusive _disposeNext pointers that are set.
    var cells: Heap
    var links: map<Node, Node>
    // Every node ever destroyed, with multiplicity.
    ghost var freed: multiset<Node>

    constructor ()
      ensures Valid() && cells == map[]
    {
      cells := map[];
      links := map[];
      freed := multiset{};
    }

    ghost predicate Valid()
      reads this
    {
      Forest(cells) && links == map[]
    }

    // Returns a node's storage to the allocator. Only a live node without
    // children can be destroyed, so nothing is freed twice.
    method FreeNode(n: Node)
      requires n in cells && n !in links && forall k :: !Owns(cells[n], k)
      modifies this
      ensures cells == old(cells) - {n} && links == old(links)
      ensures freed == old(freed) + multiset{n}
      ensures freed + multiset(cells.Keys) == old(freed) + multiset(old(cells).Keys)
    {
      cells := cells - {n};
      freed := freed + multiset{n};
    }

    // The owned children in the container's own iteration order.
    method Children(b: Body) returns (kids: seq<Node>)
      requires GoodBody(b)
      ensures forall k :: k in kids <==> Owns(b, k)
      ensures forall i, j :: 0 <= i < j < |kids| ==> kids[i] != kids[j]
    {
      kids := [];
      match b {
        case Leaf(_) =>
        case Vec(elements) => kids := elements;
        case Table(members) =>
          var rest := members.Keys;
          while rest != {}
            invariant rest <= members.Keys
            invariant forall k :: k in kids <==> exists key :: key in members && key !in rest && members[key] == k
            invariant forall i, j :: 0 <= i < j < |kids| ==> kids[i] != kids[j]
          {
            var key :| key in rest;
            assert members[key] !in kids;
            kids := kids + [members[key]];
            rest := rest - {key};
          }
      }
    }

    method PushPending(c: Node, first: Option<Node>, ghost chain: seq<Node>)
      requires Pending(cells, links, first, chain) && c in cells && cells[c] != NULL_BODY && c !in chain
      modifies this`links
      ensures Pending(cells, links, Some(c), [c] + chain)
    {
      ghost var was := links;
      if first.Some? { links := links[c := first.value]; }
      ghost var longer := [c] + chain;
      forall i | 0 <= i < |longer|
        ensures Linked(links, longer, i)
      {
        if i > 0 { assert Linked(was, chain, i - 1); }
      }
    }

    // Queues one child. A child that holds the shared null sentinel has no
    // private link, so it is destroyed at once instead.
    method LinkChild(ghost h: Heap, ghost base: set<Node>, c: Node, ghost others: set<Node>,
                     first: Option<Node>, ghost chain0: seq<Node>)
      returns (pending: Option<Node>, ghost chain: seq<Node>)
      requires Forest(h) && c !in chain0 && c !in others && Elems(chain0) !! others
      requires Shrunk(h, cells, base, Elems(chain0) + {c} + others)
      requires Pending(cells, links, first, chain0)
      modifies this
      ensures Shrunk(h, cells, base, Elems(chain) + others) && Pending(cells, links, pending, chain)
      ensures Elems(chain) !! others
      ensures cells == old(cells) || cells == old(cells) - {c}
      ensures freed + multiset(cells.Keys) == old(freed) + multiset(old(cells).Keys)
    {
      ghost var frontier := Elems(chain0) + {c} + others;
      ReachSelf(h, c);
      assert c in Below(h, frontier);
      if cells[c] == NULL_BODY {
        ShrinkLeaf(h, cells, base, frontier, c);
        assert frontier - {c} == Elems(chain0) + others;
        FreeNode(c);
        pending, chain := first, chain0;
      } else {
        PushPending(c, first, chain0);
        pending, chain := Some(c), [c] + chain0;
        assert Elems(chain) + others == frontier;
      }
    }

    // Queues every child of one container.
    method LinkChildren(ghost h: Heap, ghost base: set<Node>, kids: seq<Node>,
                        first: Option<Node>, ghost chain0: seq<Node>)
      returns (pending: Option<Node>, ghost chain: seq<Node>)
      requires Forest(h)
      requires forall i, j :: 0 <= i < j < |kids| ==> kids[i] != kids[j]
      requires Elems(chain0) !! Elems(kids)
      requires Shrunk(h, cells, base, Elems(chain0) + Elems(kids))
      requires Pending(cells, links, first, chain0)
      modifies this
      ensures Shrunk(h, cells, base, Elems(chain)) && Pending(cells, links, pending, chain)
      ensures cells.Keys <= old(cells).Keys
      ensures forall x :: x in cells ==> cells[x] == old(cells)[x]
      ensures freed + multiset(cells.Keys) == old(freed) + multiset(old(cells).Keys)
    {
      hide Forest, Shrunk, Pending;
      pending, chain := first, chain0;
      var i := 0;
      while i < |kids|
        invariant 0 <= i <= |kids|
        invariant Elems(chain) !! Elems(kids[i..])
        invariant Shrunk(h, cells, base, Elems(chain) + Elems(kids[i..]))
        invariant Pending(cells, links, pending, chain)
        invariant cells.Keys <= old(cells).Keys
        invariant forall x :: x in cells ==> cells[x] == old(cells)[x]
        invariant freed + multiset(cells.Keys) == old(freed) + multiset(old(cells).Keys)
      {
        var c := kids[i];
        ghost var others := Elems(kids[i + 1..]);
        ElemsSplit(kids, i);
        assert Elems(chain) + Elems(kids[i..]) == Elems(chain) + {c} + others;
        pending, chain := LinkChild(h, base, c, others, pending, chain);
        i := i + 1;
      }
      assert Elems(chain) + Elems(kids[i..]) == Elems(chain);
    }

    // Destroys every proper descendant of node exactly once, and nothing else.
    method DisposeChildren(node: Node)
      requires Valid() && node in cells
      modifies this
      ensures links == map[]
      ensures cells == Cleared(old(cells), node, EmptyLike(old(cells)[node]))
      ensures freed == old(freed) + multiset(Tree(old(cells), node) - {node})
    {
      ghost var h := cells;
      hide Forest, Owns, GoodBody, Antichain, Below;
      assert GoodBody(cells[node]) by { ForestKids(cells, node); }
      if cells[node].Leaf? {
        LeafCleared(h, node);
        return;
      }
      BelowKids(h, node);
      ghost var base := h.Keys - Below(h, KidsOf(h, node));
      var kids := Children(cells[node]);
      assert Elems([]) + Elems(kids) == KidsOf(h, node) by { ForestKids(h, node); }
      var pending, chain := LinkChildren(h, base, kids, None, []);
      cells := cells[node := EmptyLike(cells[node])];
      DrainPending(h, base, pending, chain);
      ShrunkAway(h, cells, node);
      FreedExactly(old(freed), freed, h.Keys, cells.Keys);
    }

    method DrainPending(ghost h: Heap, ghost base: set<Node>, first: Option<Node>, ghost chain0: seq<Node>)
      requires Forest(h)
      requires Shrunk(h, cells, base, Elems(chain0)) && Pending(cells, links, first, chain0)
      modifies this
      ensures Shrunk(h, cells, base, {}) && links == map[]
      ensures forall x :: x in cells ==> x in old(cells) && cells[x] == old(cells)[x]
      ensures freed + multiset(cells.Keys) == old(freed) + multiset(old(cells).Keys)
    {
      var pending := first;
      ghost var chain := chain0;
      while pending.Some?
        invariant Shrunk(h, cells, base, Elems(chain)) && Pending(cells, links, pending, chain)
        invariant forall x :: x in cells ==> x in old(cells) && cells[x] == old(cells)[x]
        invariant freed + multiset(cells.Keys) == old(freed) + multiset(old(cells).Keys)
        decreases cells.Keys
      {
        pending, chain := DisposeOne(h, base, pending, chain);
      }
      assert Elems(chain) == {};
    }

    // Takes the front of the pending list and clears its link.
    method PopFront(first: Option<Node>, ghost chain: seq<Node>) returns (pending: Option<Node>)
      requires first.Some? && Pending(cells, links, first, chain)
      modifies this`links
      ensures chain != [] && first.value == chain[0]
      ensures Pending(cells, links, pending, chain[1..])
    {
      PopPending(cells, links, first, chain);
      pending := if first.value in links then Some(links[first.value]) else None;
      links := links - {first.value};
    }

    // Empties a container whose children are all queued elsewhere, then frees it.
    method FreeEmptied(p: Node)
      requires p in cells && p !in links
      modifies this
      ensures cells == old(cells) - {p} && links == old(links)
      ensures freed + multiset(cells.Keys) == old(freed) + multiset(old(cells).Keys)
    {
      cells := cells[p := EmptyLike(cells[p])];
      FreeNode(p);
      assert cells == old(cells) - {p};
    }

    // Pops one pending node, queues its children and destroys it.
    method DisposeOne(ghost h: Heap, ghost base: set<Node>, first: Option<Node>, ghost chain0: seq<Node>)
      returns (pending: Option<Node>, ghost chain: seq<Node>)
      requires Forest(h) && first.Some?
      requires Shrunk(h, cells, base, Elems(chain0)) && Pending(cells, links, first, chain0)
      modifies this
      ensures Shrunk(h, cells, base, Elems(chain)) && Pending(cells, links, pending, chain)
      ensures forall x :: x in cells ==> x in old(cells) && cells[x] == old(cells)[x]
      ensures freed + multiset(cells.Keys) == old(freed) + multiset(old(cells).Keys)
      ensures cells.Keys < old(cells).Keys
    {
      hide Forest, Owns, GoodBody, Antichain, Below;
      var p := first.value;
      pending := PopFront(first, chain0);
      assert chain0 == [p] + chain0[1..];
      ShrinkPop(h, cells, base, Elems(chain0), p);
      var kids := Children(cells[p]);
      assert Elems(kids) == KidsOf(h, p);
      assert Elems(chain0) - {p} + KidsOf(h, p) == Elems(chain0[1..]) + Elems(kids);
      pending, chain := LinkChildren(h, base + {p}, kids, pending, chain0[1..]);
      FrontierOutsideBase(h, cells, base + {p}, Elems(chain));
      FreeEmptied(p);
    }

    // Releases whatever the node stores and leaves it null.
    method Reset(node: Node)
      requires Valid() && node in cells
      modifies this
      ensures Valid()
      ensures cells == Cleared(old(cells), node, NULL_BODY)
      ensures freed == old(freed) + multiset(Tree(old(cells), node) - {node})
    {
      ghost var h := cells;
      assert Denotes(map[node := NULL_BODY], node, Null);
      ClearedForest(h, node, NULL_BODY);
      DisposeChildren(node);
      cells := cells[node := NULL_BODY];
      assert cells == Cleared(h, node, NULL_BODY);
    }

    // Any allocation may fail.
    method Allocate() returns (ok: bool) {
      ok := *;
    }

    // Allocates a null node.
    method MakeNode() returns (n: Node, ok: bool)
      requires Valid()
      modifies this`cells
      ensures Valid()
      ensures if ok then n !in old(cells) && cells == old(cells)[n := NULL_BODY] else cells == old(cells)
    {
      n := 0;
      ok := Allocate();
      if ok {
        FreshAddress(cells);
        n :| n !in cells;
        FreshForest(cells, n, NULL_BODY);
        cells := cells[n := NULL_BODY];
      }
    }

    // Rebuilds the node as an empty value of b's kind. The new storage is
    // allocated before the old one is torn down.
    method ResetTo(node: Node, b: Body) returns (ok: bool)
      requires Valid() && node in cells && Childless(b)
      modifies this
      ensures Valid()
      ensures cells == if ok then Cleared(old(cells), node, b) else old(cells)
      ensures ok ==> freed == old(freed) + multiset(Tree(old(cells), node) - {node})
      ensures !ok ==> freed == old(freed)
    {
      ok := Allocate();
      if ok {
        ghost var h := cells;
        ChildlessHasValue(node, b);
        ClearedForest(h, node, b);
        Reset(node);
        cells := cells[node := b];
        assert cells == Cleared(h, node, b);
      }
    }
  }
}
