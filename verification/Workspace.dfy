// A private working document beside the caller's tree: which nodes belong to
// it, and how editing a node below its root edits the document.

module Workspace {
  import opened JsonValue
  import opened DomHeap
  import opened HeapSurgery
  import opened Teardown
  import opened DeepCopy
  import opened Ownership
  import opened Pointer
  import opened PatchSpec

  ghost predicate Intact(h: Heap, g: Heap) {
    forall x :: x in h ==> x in g && g[x] == h[x]
  }

  // Nodes beyond h own only nodes beyond h.
  ghost predicate Apart(h: Heap, g: Heap) {
    forall o, k :: o in g && o !in h && Owns(g[o], k) ==> k !in h
  }

  // h is intact in g, and every other node of g hangs below one of the roots:
  // nothing is shared with h and nothing leaked.
  ghost predicate Rooted(h: Heap, g: Heap, roots: set<Node>) {
    && Forest(g) && Intact(h, g) && Apart(h, g)
    && roots <= g.Keys - h.Keys
    && (forall x :: x in g && x !in h ==> (x in roots <==> IsRoot(g, x)))
  }

  lemma {:induction false} NewPath(h: Heap, g: Heap, p: seq<Node>)
    requires Apart(h, g) && IsPath(g, p) && p[0] !in h
    ensures p[|p| - 1] !in h
    decreases |p|
  {
    if |p| > 1 {
      NewPath(h, g, p[..|p| - 1]);
      assert Owns(g[p[|p| - 2]], p[|p| - 2 + 1]);
    }
  }

  lemma NewBelow(h: Heap, g: Heap, a: Node, x: Node)
    requires Apart(h, g) && a !in h && Reaches(g, a, x)
    ensures x !in h
  {
    var p :| PathFromTo(g, p, a, x);
    NewPath(h, g, p);
  }

  // Climbing from owner to owner ends at a root: trees only get larger.
  lemma {:induction false} UnderRoot(h: Heap, g: Heap, roots: set<Node>, x: Node) returns (r: Node)
    requires Forest(h) && Rooted(h, g, roots) && x in g && x !in h
    ensures r in roots && Reaches(g, r, x)
    decreases |g.Keys| - |Tree(g, x)|
  {
    if x in roots {
      ReachSelf(g, x);
      return x;
    }
    var o :| o in g && Owns(g[o], x);
    OwnerAbove(g, o, x);
    forall y | y in Tree(g, x) ensures y in Tree(g, o) { ReachKid(g, o, x, y); }
    ReachSelf(g, o);
    SmallerSet(Tree(g, x), Tree(g, o), o);
    SmallerSet(Tree(g, o) - {o}, g.Keys, o);
    r := UnderRoot(h, g, roots, o);
    ReachSelf(g, x);
    ReachKid(g, o, x, x);
    ReachTransitive(g, r, o, x);
  }

  lemma {:induction false} SmallerSet(a: set<Node>, b: set<Node>, x: Node)
    requires a <= b && x in b && x !in a
    ensures |a| < |b| && |a + {x}| <= |b|
  {
    var c := b - a - {x};
    assert b == a + {x} + c;
    assert |b| == |a| + 1 + |c|;
    assert |a + {x}| == |a| + 1;
  }

  lemma RootedIsFresh(h: Heap, g: Heap, s: Node, doc: Json)
    requires Forest(h) && Rooted(h, g, {s}) && Denotes(g, s, doc)
    ensures IsFreshTree(h, g, s, doc)
  {
    forall x | x in g ensures Reaches(g, s, x) <==> x !in h {
      if x !in h { var r := UnderRoot(h, g, {s}, x); }
      if Reaches(g, s, x) { NewBelow(h, g, s, x); }
    }
  }

  // ---- Who is a root after each step ----

  // Ownership does not cross between a fresh tree and what was there before.
  lemma FreshOwns(g0: Heap, g: Heap, t: Node, v: Json, o: Node, k: Node)
    requires Forest(g0) && IsFreshTree(g0, g, t, v) && o in g && Owns(g[o], k)
    ensures k in g && (o in g0 <==> k in g0) && (o in g0 ==> g[o] == g0[o])
  {
    if o in g0 {
      assert g[o] == g0[o];
    } else {
      ReachSelf(g, k);
      ReachKid(g, o, k, k);
      ReachTransitive(g, t, o, k);
    }
  }

  lemma FreshRoots(g0: Heap, g: Heap, t: Node, v: Json, x: Node)
    requires Forest(g0) && IsFreshTree(g0, g, t, v) && x in g
    ensures IsRoot(g, x) <==> if x in g0 then IsRoot(g0, x) else x == t
  {
    if x in g0 {
      forall o | o in g && Owns(g[o], x) ensures o in g0 && g0[o] == g[o] { FreshOwns(g0, g, t, v, o, x); }
    } else if x != t {
      var o := ReachViaOwner(g, t, x);
    }
  }

  lemma RootLive(g: Heap, t: Node)
    requires IsRoot(g, t)
    ensures t in g
  {
  }

  lemma CopyAdds(h: Heap, g0: Heap, g: Heap, roots: set<Node>, t: Node, v: Json)
    requires Forest(h) && Rooted(h, g0, roots) && IsFreshTree(g0, g, t, v)
    ensures Rooted(h, g, roots + {t}) && t !in roots
  {
    hide Forest, Reaches, Owns, IsRoot, Denotes;
    assert t in g by { RootLive(g, t); }
    forall o, k | o in g && o !in h && Owns(g[o], k) ensures k !in h { FreshOwns(g0, g, t, v, o, k); }
    forall x | x in g && x !in h ensures x in roots + {t} <==> IsRoot(g, x) { FreshRoots(g0, g, t, v, x); }
  }

  lemma InstallRoots(g: Heap, dst: Node, t: Node, x: Node)
    requires Forest(g) && IsRoot(g, t) && dst in g && dst != t && !Reaches(g, t, dst) && x in Installed(g, dst, t)
    ensures IsRoot(Installed(g, dst, t), x) <==> IsRoot(g, x)
  {
    var r := Installed(g, dst, t);
    if !IsRoot(g, x) {
      var o :| o in g && Owns(g[o], x);
      if o == t {
        assert Owns(r[dst], x);
      } else if o == dst || Reaches(g, dst, o) {
        ReachSelf(g, x);
        ReachKid(g, o, x, x);
        if o != dst { ReachTransitive(g, dst, o, x); }
        OwnerAbove(g, o, x);
      } else {
        assert Owns(r[o], x);
      }
    } else {
      forall o | o in r ensures !Owns(r[o], x) { assert !Owns(g[if o == dst then t else o], x); }
    }
  }

  lemma InstallRooted(h: Heap, g: Heap, roots: set<Node>, dst: Node, t: Node)
    requires Forest(h) && Rooted(h, g, roots) && t in roots && dst in g && dst !in h && dst != t && !Reaches(g, t, dst)
    ensures Rooted(h, Installed(g, dst, t), roots - {t})
  {
    hide Forest, Reaches, Owns, IsRoot, Denotes;
    var r := Installed(g, dst, t);
    InstallForest(g, dst, t);
    forall x | x in h ensures x in r && r[x] == h[x] {
      if Reaches(g, dst, x) { NewBelow(h, g, dst, x); }
    }
    forall x | x in r && x !in h ensures x in roots - {t} <==> IsRoot(r, x) { InstallRoots(g, dst, t, x); }
    forall x | x in roots - {t} ensures x in r { RootUntouched(g, dst, x); }
    forall o, k | o in r && o !in h && Owns(r[o], k) ensures k !in h { assert Owns(g[if o == dst then t else o], k); }
  }

  lemma RootUntouched(g: Heap, n: Node, x: Node)
    requires IsRoot(g, x)
    ensures Reaches(g, n, x) ==> x == n
  {
    if Reaches(g, n, x) && x != n { var o := ReachViaOwner(g, n, x); }
  }

  lemma WithoutRoots(g: Heap, t: Node, x: Node)
    requires Forest(g) && IsRoot(g, t) && x in Without(g, t)
    ensures IsRoot(Without(g, t), x) <==> IsRoot(g, x)
  {
    var r := Without(g, t);
    if !IsRoot(g, x) {
      var o :| o in g && Owns(g[o], x);
      if Reaches(g, t, o) {
        ReachSelf(g, x);
        ReachKid(g, o, x, x);
        ReachTransitive(g, t, o, x);
      } else {
        assert Owns(r[o], x);
      }
    }
  }

  lemma WithoutRooted(h: Heap, g: Heap, roots: set<Node>, t: Node)
    requires Forest(h) && Rooted(h, g, roots) && t in roots
    ensures Rooted(h, Without(g, t), roots - {t})
    ensures forall n, v :: n in roots - {t} && Denotes(g, n, v) ==> Denotes(Without(g, t), n, v)
  {
    hide Forest, Reaches, Owns, IsRoot, Denotes;
    var r := Without(g, t);
    WithoutForest(g, t);
    ReachSelf(g, t);
    forall x | x in h ensures x in r && r[x] == h[x] { if Reaches(g, t, x) { NewBelow(h, g, t, x); } }
    forall x | x in r && x !in h ensures x in roots - {t} <==> IsRoot(r, x) { WithoutRoots(g, t, x); }
    forall x | x in roots - {t} ensures x in r { RootUntouched(g, t, x); }
    forall n, v | n in roots - {t} && Denotes(g, n, v) ensures Denotes(r, n, v) {
      forall x | x in g && Reaches(g, n, x) ensures x in r && r[x] == g[x] {
        if Reaches(g, t, x) { RootsApart(g, n, t, x); }
      }
      DenotesFrame(g, r, n, v);
    }
  }

  lemma RootsApart(g: Heap, a: Node, b: Node, x: Node)
    requires Forest(g) && IsRoot(g, a) && IsRoot(g, b) && Reaches(g, a, x) && Reaches(g, b, x)
    ensures a == b
  {
    NestedOrDisjoint(g, a, b, x);
    RootUntouched(g, a, b);
    RootUntouched(g, b, a);
  }

  // ---- Changing one container's list of children ----

  lemma RebodyKid(g: Heap, t: Node, b: Body, k: Node, u: Json)
    requires Forest(g) && t in g && !Reaches(g, k, t) && Denotes(g, k, u)
    ensures Denotes(g[t := b], k, u)
  {
    DenotesFrame(g, g[t := b], k, u);
  }

  // Every child the container keeps or gains still holds its value.
  lemma RebodyKids(g: Heap, t: Node, b: Body, c: Node)
    requires Forest(g) && t in g && (forall k :: Owns(b, k) ==> Owns(g[t], k) || k == c)
    requires (exists k :: Owns(b, k) && k == c) ==> c in g && !Reaches(g, c, t)
    ensures forall k :: Owns(b, k) ==> HasValue(g, k) && Denotes(g[t := b], k, ValueOf(g, k))
  {
    forall k | Owns(b, k) ensures HasValue(g, k) && Denotes(g[t := b], k, ValueOf(g, k)) {
      if k != c { OwnerAbove(g, t, k); }
      LiveHasValue(g, k);
      RebodyKid(g, t, b, k, ValueOf(g, k));
    }
  }

  lemma RebodyForest(g: Heap, t: Node, b: Body, c: Node)
    requires Forest(g) && t in g && GoodBody(b) && HasValue(g[t := b], t)
    requires forall k :: Owns(b, k) ==> Owns(g[t], k) || (k == c && IsRoot(g, c))
    ensures Forest(g[t := b])
  {
    var r := g[t := b];
    forall x, k | x in r && Owns(r[x], k) ensures k in r { assert x != t ==> r[x] == g[x]; }
    forall x, y, k | x in r && y in r && Owns(r[x], k) && Owns(r[y], k) ensures x == y {
      assert y != t ==> r[y] == g[y];
    }
    RebuildAll(g, r);
  }

  ghost predicate Gains(before: Body, after: Body, c: Node) {
    forall k :: Owns(after, k) <==> Owns(before, k) || k == c
  }

  // The root c becomes a child of p.
  lemma AdoptRooted(h: Heap, g: Heap, roots: set<Node>, p: Node, b: Body, c: Node)
    requires Forest(h) && Rooted(h, g, roots) && c in roots && p in g && p !in h
    requires Gains(g[p], b, c) && Forest(g[p := b])
    ensures Rooted(h, g[p := b], roots - {c})
  {
    hide Forest, Owns;
    var r := g[p := b];
    forall x | x in r && x !in h ensures x in roots - {c} <==> IsRoot(r, x) {
      if IsRoot(g, x) && x != c { forall o | o in r ensures !Owns(r[o], x) { assert !Owns(g[o], x); } }
      if !IsRoot(g, x) { var o :| o in g && Owns(g[o], x); assert Owns(r[o], x); }
      if x == c { assert Owns(r[p], c); }
    }
  }

  lemma ReleaseRoots(g: Heap, p: Node, b: Body, c: Node, x: Node)
    requires SingleOwner(g) && p in g && Gains(b, g[p], c) && !Owns(b, c) && x in g
    ensures IsRoot(g[p := b], x) <==> IsRoot(g, x) || x == c
  {
    var r := g[p := b];
    assert Owns(g[p], c);
    assert forall o :: o in g && o != p ==> r[o] == g[o];
    if !IsRoot(g, x) && x != c {
      var o :| o in g && Owns(g[o], x);
      assert Owns(r[o], x);
    }
  }

  // The child c of p becomes a root.
  lemma ReleaseRooted(h: Heap, g: Heap, roots: set<Node>, p: Node, b: Body, c: Node)
    requires Forest(h) && Rooted(h, g, roots) && p in g && p !in h && c in g
    requires Gains(b, g[p], c) && !Owns(b, c) && Forest(g[p := b])
    ensures c !in h && Rooted(h, g[p := b], roots + {c})
  {
    hide Forest, Owns, IsRoot;
    var r := g[p := b];
    assert Owns(g[p], c);
    assert SingleOwner(g) by { ForestSingle(g); }
    forall x | x in r && x !in h ensures x in roots + {c} <==> IsRoot(r, x) { ReleaseRoots(g, p, b, c, x); }
  }

  lemma ForestSingle(g: Heap)
    requires Forest(g)
    ensures SingleOwner(g)
  {
  }

  // ---- Where a token leads in the heap ----

  datatype Hop = To(node: Node) | Off(code: PointerCode)

  function ChildNode(b: Body, token: Bytes): (s: Hop)
    ensures s.To? ==> Owns(b, s.node)
  {
    match b
    case Table(members) => if token in members then To(members[token]) else Off(MissingTarget)
    case Vec(kids) =>
      (match ExistingIndex(token, |kids|)
       case At(i) => To(kids[i])
       case NoPosition(code) => Off(code))
    case Leaf(_) => Off(ExpectedContainer)
  }

  lemma ChildAgrees(g: Heap, n: Node, v: Json, token: Bytes)
    requires Denotes(g, n, v)
    ensures match ChildNode(g[n], token)
            case Off(code) => Child(v, token) == Missing(code)
            case To(k) => Child(v, token).Found? && Denotes(g, k, Child(v, token).value)
  {
  }

  ghost predicate Leads(g: Heap, n: Node, path: Path, p: Node)
    decreases |path|
  {
    n in g &&
    if path == [] then p == n
    else match ChildNode(g[n], path[0])
      case Off(_) => false
      case To(k) => Leads(g, k, path[1..], p)
  }

  lemma {:induction false} LeadsDown(g: Heap, n: Node, v: Json, path: Path, p: Node)
    requires Denotes(g, n, v) && Leads(g, n, path, p)
    ensures Reaches(g, n, p) && p in g
    ensures Lookup(v, path).Found? && Denotes(g, p, Lookup(v, path).value)
    decreases |path|
  {
    ReachSelf(g, n);
    if path != [] {
      ChildAgrees(g, n, v, path[0]);
      var k := ChildNode(g[n], path[0]).node;
      LeadsDown(g, k, Child(v, path[0]).value, path[1..], p);
      ReachKid(g, n, k, p);
    }
  }

  // Editing the tree at p, and nothing else of n's tree, edits n's value at the
  // path that leads to p.
  lemma {:induction false} EditAtPath(g: Heap, r: Heap, n: Node, v: Json, path: Path, p: Node, w: Json)
    requires Forest(g) && Denotes(g, n, v) && Leads(g, n, path, p) && Denotes(r, p, w)
    requires forall x :: x in g && Reaches(g, n, x) && !Reaches(g, p, x) ==> x in r && r[x] == g[x]
    ensures Lookup(v, path).Found? && Denotes(r, n, PutAt(v, path, w))
    decreases |path|
  {
    LeadsDown(g, n, v, path, p);
    if path != [] {
      ChildAgrees(g, n, v, path[0]);
      var k := ChildNode(g[n], path[0]).node;
      var c := Child(v, path[0]).value;
      forall x | x in g && Reaches(g, k, x) && !Reaches(g, p, x) ensures x in r && r[x] == g[x] {
        ReachKid(g, n, k, x);
      }
      EditAtPath(g, r, k, c, path[1..], p, w);
      LeadsDown(g, k, c, path[1..], p);
      OwnerAbove(g, n, k);
      assert !Reaches(g, p, n) by { if Reaches(g, p, n) { ReachTransitive(g, k, p, n); } }
      ReachSelf(g, n);
      assert r[n] == g[n];
      forall j, u | Owns(g[n], j) && j != k && Denotes(g, j, u) ensures Denotes(r, j, u) {
        SiblingKept(g, r, n, k, p, j, u);
      }
      EditChild(g, r, n, v, path[0], PutAt(c, path[1..], w));
    }
  }

  lemma SiblingKept(g: Heap, r: Heap, n: Node, k: Node, p: Node, j: Node, u: Json)
    requires Forest(g) && n in g && Owns(g[n], k) && Owns(g[n], j) && j != k && Reaches(g, k, p) && Denotes(g, j, u)
    requires forall x :: x in g && Reaches(g, n, x) && !Reaches(g, p, x) ==> x in r && r[x] == g[x]
    ensures Denotes(r, j, u)
  {
    forall x | x in g && Reaches(g, j, x) ensures x in r && r[x] == g[x] {
      ReachKid(g, n, j, x);
      if Reaches(g, p, x) {
        ReachTransitive(g, k, p, x);
        SiblingsDisjoint(g, n, j, k, x);
      }
    }
    DenotesFrame(g, r, j, u);
  }

  lemma EditChild(g: Heap, r: Heap, n: Node, v: Json, token: Bytes, w: Json)
    requires Denotes(g, n, v) && n in r && r[n] == g[n] && GoodBody(g[n]) && ChildNode(g[n], token).To?
    requires Child(v, token).Found?
    requires Denotes(r, ChildNode(g[n], token).node, w)
    requires forall j, u :: Owns(g[n], j) && j != ChildNode(g[n], token).node && Denotes(g, j, u) ==> Denotes(r, j, u)
    ensures Denotes(r, n, WithChild(v, token, w))
  {
    hide ExistingIndex;
    match v
    case Arr(items) => EditElement(g, r, n, v, ExistingIndex(token, |items|).index, w);
    case Obj(members) => EditMember(g, r, n, v, token, w);
    case _ =>
  }

  lemma EditElement(g: Heap, r: Heap, n: Node, v: Json, i: nat, w: Json)
    requires v.Arr? && Denotes(g, n, v) && n in r && r[n] == g[n] && GoodBody(g[n]) && i < |v.items|
    requires Denotes(r, g[n].kids[i], w)
    requires forall j, u :: Owns(g[n], j) && j != g[n].kids[i] && Denotes(g, j, u) ==> Denotes(r, j, u)
    ensures Denotes(r, n, Arr(v.items[i := w]))
  {
    forall j | 0 <= j < |v.items| ensures Denotes(r, g[n].kids[j], v.items[i := w][j]) {
      if j != i {
        assert Owns(g[n], g[n].kids[j]) && g[n].kids[j] != g[n].kids[i];
        assert Denotes(g, g[n].kids[j], v.items[j]);
      }
    }
  }

  lemma EditMember(g: Heap, r: Heap, n: Node, v: Json, key: Bytes, w: Json)
    requires v.Obj? && Denotes(g, n, v) && n in r && r[n] == g[n] && GoodBody(g[n]) && key in v.members
    requires Denotes(r, g[n].members[key], w)
    requires forall j, u :: Owns(g[n], j) && j != g[n].members[key] && Denotes(g, j, u) ==> Denotes(r, j, u)
    ensures Denotes(r, n, Obj(v.members[key := w]))
  {
    forall k | k in v.members ensures Denotes(r, g[n].members[k], v.members[key := w][k]) {
      if k != key {
        assert Owns(g[n], g[n].members[k]) && g[n].members[k] != g[n].members[key];
        assert Denotes(g, g[n].members[k], v.members[k]);
      }
    }
  }

  lemma LeadsKid(g: Heap, n: Node, v: Json, a: Path, pa: Node) returns (j: Node, c: Json)
    requires Forest(g) && Denotes(g, n, v) && Leads(g, n, a, pa) && a != []
    ensures n in g && GoodBody(g[n]) && ChildNode(g[n], a[0]) == To(j) && Owns(g[n], j)
    ensures Denotes(g, j, c) && Leads(g, j, a[1..], pa)
    ensures Reaches(g, j, pa) && !Reaches(g, pa, n)
  {
    ChildAgrees(g, n, v, a[0]);
    j, c := ChildNode(g[n], a[0]).node, Child(v, a[0]).value;
    LeadsDown(g, j, c, a[1..], pa);
    OwnerAbove(g, n, j);
    if Reaches(g, pa, n) { ReachTransitive(g, j, pa, n); }
  }

  // One location is inside another exactly when its path extends the other's:
  // so the proper-prefix test on paths rejects just the moves into the source's
  // own descendants.
  lemma {:induction false} PrefixIsAncestry(g: Heap, n: Node, v: Json, a: Path, pa: Node, b: Path, pb: Node)
    requires Forest(g) && Denotes(g, n, v) && Leads(g, n, a, pa) && Leads(g, n, b, pb)
    ensures Reaches(g, pa, pb) <==> a <= b
    decreases |a|
  {
    hide Forest, Denotes, Reaches, Owns, ChildNode, GoodBody;
    if a == [] {
      LeadsDown(g, n, v, b, pb);
      assert pa == n;
    } else {
      var j, c := LeadsKid(g, n, v, a, pa);
      if b == [] {
        assert pb == n;
      } else {
        var k, u := LeadsKid(g, n, v, b, pb);
        if a[0] == b[0] {
          DenotesUnique(g, j, c, u);
          PrefixIsAncestry(g, j, c, a[1..], pa, b[1..], pb);
          assert a == [a[0]] + a[1..] && b == [b[0]] + b[1..];
        } else {
          TokensDiffer(g[n], a[0], b[0]);
          if Reaches(g, pa, pb) {
            ReachTransitive(g, j, pa, pb);
            SiblingsDisjoint(g, n, j, k, pb);
          }
        }
      }
    }
  }

  lemma TokensDiffer(b: Body, s: Bytes, t: Bytes)
    requires GoodBody(b) && ChildNode(b, s).To? && ChildNode(b, t).To? && s != t
    ensures ChildNode(b, s) != ChildNode(b, t)
  {
    if b.Vec? && ExistingIndex(s, |b.kids|) == ExistingIndex(t, |b.kids|) { IndexInjective(s, t); }
  }
}
