// The heap of pjson nodes: who owns whom, which nodes are reachable, and what
// value the tree below a node stores.

module DomHeap {
  import opened JsonValue

  // The address of a live pjson object.
  type Node = nat

  // What a node's private implementation holds. Children are owned nodes.
  datatype Body =
    | Leaf(v: Json)
    | Vec(kids: seq<Node>)
    | Table(members: map<Bytes, Node>)

  type Heap = map<Node, Body>

  const NULL_BODY: Body := Leaf(Null)

  ghost predicate Owns(b: Body, k: Node) {
    match b
    case Leaf(_) => false
    case Vec(kids) => exists i :: 0 <= i < |kids| && kids[i] == k
    case Table(members) => exists key :: key in members && members[key] == k
  }

  // No child occupies two slots of one container, and leaves hold scalars.
  ghost predicate GoodBody(b: Body) {
    match b
    case Leaf(v) => !IsContainer(v)
    case Vec(kids) => forall i, j :: 0 <= i < j < |kids| ==> kids[i] != kids[j]
    case Table(members) =>
      forall j, k :: j in members && k in members && members[j] == members[k] ==> j == k
  }

  // Node n is the root of a tree that stores exactly v.
  ghost predicate Denotes(h: Heap, n: Node, v: Json)
    decreases v
  {
    n in h &&
    match v
    case Arr(items) =>
      && h[n].Vec?
      && |h[n].kids| == |items|
      && forall i :: 0 <= i < |items| ==> Denotes(h, h[n].kids[i], items[i])
    case Obj(members) =>
      && h[n].Table?
      && h[n].members.Keys == members.Keys
      && forall k :: k in members ==> Denotes(h, h[n].members[k], members[k])
    case _ => h[n] == Leaf(v)
  }

  ghost predicate HasValue(h: Heap, n: Node) {
    exists v :: Denotes(h, n, v)
  }

  ghost function ValueOf(h: Heap, n: Node): (v: Json)
    requires HasValue(h, n)
    ensures Denotes(h, n, v)
  {
    var v :| Denotes(h, n, v);
    v
  }

  // Every child is live and has one owner, and every node roots a finite tree:
  // the heap is a forest.
  ghost predicate Forest(h: Heap) {
    SingleOwner(h) && forall n :: n in h ==> HasValue(h, n)
  }

  ghost predicate SingleOwner(h: Heap) {
    && (forall n :: n in h ==> GoodBody(h[n]))
    && (forall n, k :: n in h && Owns(h[n], k) ==> k in h)
    && (forall a, b, k :: a in h && b in h && Owns(h[a], k) && Owns(h[b], k) ==> a == b)
  }

  ghost predicate IsRoot(h: Heap, n: Node) {
    n in h && forall a :: a in h ==> !Owns(h[a], n)
  }

  // ---- Reachability ----

  ghost predicate IsPath(h: Heap, p: seq<Node>) {
    |p| > 0 && p[0] in h &&
    forall i :: 0 <= i < |p| - 1 ==> p[i] in h && Owns(h[p[i]], p[i + 1])
  }

  ghost predicate PathFromTo(h: Heap, p: seq<Node>, a: Node, b: Node) {
    IsPath(h, p) && p[0] == a && p[|p| - 1] == b
  }

  // b is a or a descendant of a.
  ghost predicate Reaches(h: Heap, a: Node, b: Node) {
    exists p :: PathFromTo(h, p, a, b)
  }

  ghost function Tree(h: Heap, n: Node): set<Node> {
    set x | x in h && Reaches(h, n, x)
  }

  lemma ReachSelf(h: Heap, n: Node)
    requires n in h
    ensures Reaches(h, n, n)
  {
    assert PathFromTo(h, [n], n, n);
  }

  lemma ReachKid(h: Heap, a: Node, k: Node, b: Node)
    requires a in h && Owns(h[a], k) && Reaches(h, k, b)
    ensures Reaches(h, a, b)
  {
    var p :| PathFromTo(h, p, k, b);
    var q := [a] + p;
    forall i | 0 <= i < |q| - 1 ensures q[i] in h && Owns(h[q[i]], q[i + 1]) {
      if i > 0 { assert q[i] == p[i - 1] && q[i + 1] == p[i]; }
    }
    assert PathFromTo(h, q, a, b);
  }

  lemma ReachTransitive(h: Heap, a: Node, b: Node, c: Node)
    requires Reaches(h, a, b) && Reaches(h, b, c)
    ensures Reaches(h, a, c)
  {
    var p :| PathFromTo(h, p, a, b);
    var q :| PathFromTo(h, q, b, c);
    var r := p + q[1..];
    forall i | 0 <= i < |r| - 1 ensures r[i] in h && Owns(h[r[i]], r[i + 1]) {
      if i >= |p| - 1 { assert r[i] == q[i - (|p| - 1)] && r[i + 1] == q[i + 1 - (|p| - 1)]; }
    }
    assert PathFromTo(h, r, a, c);
  }

  // A path that leaves its start goes through one of the start's children.
  lemma ReachViaKid(h: Heap, a: Node, b: Node) returns (k: Node)
    requires Reaches(h, a, b) && a != b
    ensures a in h && Owns(h[a], k) && (k in h ==> Reaches(h, k, b))
  {
    var p :| PathFromTo(h, p, a, b);
    k := p[1];
    assert Owns(h[p[0]], p[1]);
    if k in h { assert PathFromTo(h, p[1..], k, b); }
  }

  // A path that reaches b from elsewhere arrives through an owner of b.
  lemma ReachViaOwner(h: Heap, a: Node, b: Node) returns (o: Node)
    requires Reaches(h, a, b) && a != b
    ensures o in h && Owns(h[o], b) && Reaches(h, a, o)
  {
    var p :| PathFromTo(h, p, a, b);
    o := p[|p| - 2];
    assert p[|p| - 2 + 1] == b;
    assert PathFromTo(h, p[..|p| - 1], a, o);
  }

  lemma ReachLive(h: Heap, a: Node, b: Node)
    requires Forest(h) && Reaches(h, a, b)
    ensures a in h && b in h
  {
    if a != b { var o := ReachViaOwner(h, a, b); }
  }

  // ---- Values ----

  lemma {:induction false} DenotesUnique(h: Heap, n: Node, v: Json, w: Json)
    requires Denotes(h, n, v) && Denotes(h, n, w)
    ensures v == w
    decreases v
  {
    match v
    case Arr(items) =>
      assert w.Arr?;
      forall i | 0 <= i < |items| ensures items[i] == w.items[i] {
        DenotesUnique(h, h[n].kids[i], items[i], w.items[i]);
      }
    case Obj(members) =>
      assert w.Obj?;
      forall k | k in members ensures members[k] == w.members[k] {
        DenotesUnique(h, h[n].members[k], members[k], w.members[k]);
      }
      assert members == w.members;
    case _ =>
  }

  lemma ValueIs(h: Heap, n: Node, v: Json)
    requires Denotes(h, n, v)
    ensures HasValue(h, n) && ValueOf(h, n) == v
  {
    DenotesUnique(h, n, ValueOf(h, n), v);
  }

  // A child's value is strictly inside its owner's.
  lemma KidValue(h: Heap, n: Node, v: Json, k: Node)
    requires Denotes(h, n, v) && Owns(h[n], k)
    ensures HasValue(h, k) && ValueOf(h, k) < v
  {
    match h[n]
    case Vec(kids) =>
      var i :| 0 <= i < |kids| && kids[i] == k;
      ValueIs(h, k, v.items[i]);
    case Table(members) =>
      var key :| key in members && members[key] == k;
      ValueIs(h, k, v.members[key]);
    case Leaf(_) =>
  }

  lemma {:induction false} PathValue(h: Heap, p: seq<Node>, v: Json, w: Json)
    requires IsPath(h, p) && Denotes(h, p[0], v) && Denotes(h, p[|p| - 1], w)
    ensures |p| == 1 ==> v == w
    ensures |p| > 1 ==> w < v
    decreases |p|
  {
    if |p| == 1 {
      DenotesUnique(h, p[0], v, w);
    } else {
      assert Owns(h[p[0]], p[0 + 1]);
      KidValue(h, p[0], v, p[1]);
      PathValue(h, p[1..], ValueOf(h, p[1]), w);
    }
  }

  // A node with a value is on no cycle.
  lemma NoCycle(h: Heap, a: Node, b: Node)
    requires Forest(h) && Reaches(h, a, b) && Reaches(h, b, a)
    ensures a == b
  {
    if a != b {
      ReachLive(h, a, b);
      var p :| PathFromTo(h, p, a, b);
      var q :| PathFromTo(h, q, b, a);
      PathValue(h, p, ValueOf(h, a), ValueOf(h, b));
      PathValue(h, q, ValueOf(h, b), ValueOf(h, a));
    }
  }

  // Two trees that share a node are nested.
  lemma {:induction false} NestedOrDisjointPath(h: Heap, a: Node, b: Node, p: seq<Node>)
    requires Forest(h) && IsPath(h, p) && p[0] == a && Reaches(h, b, p[|p| - 1])
    ensures Reaches(h, a, b) || Reaches(h, b, a)
    decreases |p|
  {
    var x := p[|p| - 1];
    if b == x {
      assert PathFromTo(h, p, a, b);
    } else if |p| > 1 {
      var o := ReachViaOwner(h, b, x);
      assert p[|p| - 2 + 1] == x;
      assert o == p[|p| - 2];
      NestedOrDisjointPath(h, a, b, p[..|p| - 1]);
    }
  }

  lemma NestedOrDisjoint(h: Heap, a: Node, b: Node, x: Node)
    requires Forest(h) && Reaches(h, a, x) && Reaches(h, b, x)
    ensures Reaches(h, a, b) || Reaches(h, b, a)
  {
    var p :| PathFromTo(h, p, a, x);
    NestedOrDisjointPath(h, a, b, p);
  }

  lemma SiblingsDisjoint(h: Heap, n: Node, j: Node, k: Node, x: Node)
    requires Forest(h) && n in h && Owns(h[n], j) && Owns(h[n], k)
    requires Reaches(h, j, x) && Reaches(h, k, x)
    ensures j == k
  {
    NestedOrDisjoint(h, j, k, x);
    if j != k {
      var inner, outer := j, k;
      if Reaches(h, j, k) { inner, outer := k, j; }
      var o := ReachViaOwner(h, outer, inner);
      assert o == n;
      ReachSelf(h, outer);
      ReachKid(h, n, outer, outer);
      NoCycle(h, n, outer);
      KidValue(h, n, ValueOf(h, n), outer);
    }
  }

  // Nodes below n decide n's value.
  lemma {:induction false} DenotesFrame(h: Heap, g: Heap, n: Node, v: Json)
    requires Denotes(h, n, v)
    requires forall x :: x in h && Reaches(h, n, x) ==> x in g && g[x] == h[x]
    ensures Denotes(g, n, v)
    decreases v
  {
    ReachSelf(h, n);
    match v
    case Arr(items) =>
      forall i | 0 <= i < |items| ensures Denotes(g, h[n].kids[i], items[i]) {
        var k := h[n].kids[i];
        assert Owns(h[n], k);
        forall x | x in h && Reaches(h, k, x) ensures x in g && g[x] == h[x] { ReachKid(h, n, k, x); }
        DenotesFrame(h, g, k, items[i]);
      }
    case Obj(members) =>
      forall key | key in members ensures Denotes(g, h[n].members[key], members[key]) {
        var k := h[n].members[key];
        assert Owns(h[n], k);
        forall x | x in h && Reaches(h, k, x) ensures x in g && g[x] == h[x] { ReachKid(h, n, k, x); }
        DenotesFrame(h, g, k, members[key]);
      }
    case _ =>
  }

  // A heap whose changed nodes all have values still gives every node a value.
  lemma {:induction false} Rebuild(h: Heap, g: Heap, n: Node, v: Json)
    requires Denotes(h, n, v) && n in g
    requires forall x, k :: x in g && Owns(g[x], k) ==> k in g
    requires forall x :: x in g ==> (x in h && g[x] == h[x]) || HasValue(g, x)
    ensures HasValue(g, n)
    decreases v
  {
    if n in h && g[n] == h[n] {
      match v
      case Arr(items) =>
        forall i | 0 <= i < |items| ensures HasValue(g, g[n].kids[i]) {
          assert Owns(g[n], g[n].kids[i]);
          Rebuild(h, g, g[n].kids[i], items[i]);
        }
        var w := Arr(seq(|items|, i requires 0 <= i < |items| => ValueOf(g, g[n].kids[i])));
        assert Denotes(g, n, w);
      case Obj(members) =>
        forall k | k in members ensures HasValue(g, g[n].members[k]) {
          assert Owns(g[n], g[n].members[k]);
          Rebuild(h, g, g[n].members[k], members[k]);
        }
        var w := Obj(map k | k in members :: ValueOf(g, g[n].members[k]));
        assert Denotes(g, n, w);
      case _ => assert Denotes(g, n, v);
    }
  }

  lemma RebuildAll(h: Heap, g: Heap)
    requires Forest(h) && SingleOwner(g)
    requires forall x :: x in g ==> (x in h && g[x] == h[x]) || HasValue(g, x)
    ensures Forest(g)
  {
    forall x | x in g ensures HasValue(g, x) {
      if !HasValue(g, x) { Rebuild(h, g, x, ValueOf(h, x)); }
    }
  }
}
