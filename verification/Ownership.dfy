// Assignment, swap and insertion when the source may be an ancestor, a
// descendant or a sibling of the destination.

module Ownership {
  import opened JsonValue
  import opened DomHeap
  import opened HeapSurgery
  import opened Teardown
  import opened DeepCopy

  // ---- Reachability inside a part of the heap that did not change ----

  lemma {:induction false} PathFrame(h: Heap, g: Heap, p: seq<Node>)
    requires IsPath(h, p)
    requires forall x :: x in h && Reaches(h, p[0], x) ==> x in g && g[x] == h[x]
    ensures IsPath(g, p)
  {
    ReachSelf(h, p[0]);
    forall i | 0 <= i < |p| - 1 ensures p[i] in g && Owns(g[p[i]], p[i + 1]) {
      assert PathFromTo(h, p[..i + 1], p[0], p[i]);
    }
  }

  lemma {:induction false} PathFrameBack(h: Heap, g: Heap, p: seq<Node>)
    requires IsPath(g, p) && p[0] in h
    requires forall x :: x in h && Reaches(h, p[0], x) ==> x in g && g[x] == h[x]
    requires forall x, k :: x in h && Owns(h[x], k) ==> k in h
    ensures Reaches(h, p[0], p[|p| - 1])
    decreases |p|
  {
    ReachSelf(h, p[0]);
    if |p| > 1 {
      var q := p[..|p| - 1];
      PathFrameBack(h, g, q);
      var o, k := p[|p| - 2], p[|p| - 2 + 1];
      assert Owns(g[o], k);
      assert o in h by { if o != p[0] { var m := ReachViaOwner(h, p[0], o); } }
      ReachSelf(h, k);
      ReachKid(h, o, k, k);
      ReachTransitive(h, p[0], o, k);
    }
  }

  lemma ReachFrame(h: Heap, g: Heap, a: Node, b: Node)
    requires Forest(h) && a in h
    requires forall x :: x in h && Reaches(h, a, x) ==> x in g && g[x] == h[x]
    ensures Reaches(h, a, b) <==> Reaches(g, a, b)
  {
    if Reaches(h, a, b) {
      var p :| PathFromTo(h, p, a, b);
      PathFrame(h, g, p);
      assert PathFromTo(g, p, a, b);
    }
    if Reaches(g, a, b) {
      var p :| PathFromTo(g, p, a, b);
      PathFrameBack(h, g, p);
    }
  }

  // A node that took over b's body reaches what b reached below itself.
  lemma ReachMoved(h: Heap, g: Heap, b: Node, a: Node, x: Node)
    requires Forest(h) && b in h && a in g && g[a] == h[b] && x != a && x != b
    requires forall y :: y in h && y != b && Reaches(h, b, y) ==> y in g && g[y] == h[y]
    ensures Reaches(g, a, x) <==> Reaches(h, b, x)
  {
    forall k | Owns(h[b], k) ensures k in h && (Reaches(h, k, x) <==> Reaches(g, k, x)) {
      OwnerAbove(h, b, k);
      forall y | y in h && Reaches(h, k, y) ensures y in g && g[y] == h[y] { ReachKid(h, b, k, y); }
      ReachFrame(h, g, k, x);
    }
    if Reaches(g, a, x) {
      var k := ReachViaKid(g, a, x);
      assert k in g by { ReachSelf(h, k); ReachKid(h, b, k, k); OwnerAbove(h, b, k); }
      ReachKid(h, b, k, x);
    }
    if Reaches(h, b, x) {
      var k := ReachViaKid(h, b, x);
      ReachKid(g, a, k, x);
    }
  }

  // ---- Basic steps ----

  // Is target inside root's tree? The search needs memory; when it runs out the
  // answer is the conservative one.
  method ContainsNode(d: Dom, root: Node, target: Node) returns (found: bool, exhausted: bool)
    requires Forest(d.cells) && root in d.cells
    ensures exhausted ==> found
    ensures !exhausted ==> (found <==> Reaches(d.cells, root, target))
  {
    hide Forest, Reaches, Owns, GoodBody, Antichain, Below;
    var work := [root];
    exhausted := false;
    SearchStart(d.cells, root, target);
    while work != []
      invariant Unsearched(d.cells, work)
      invariant Reaches(d.cells, root, target) <==> target in Below(d.cells, Elems(work))
      decreases Below(d.cells, Elems(work))
    {
      var n := work[|work| - 1];
      ghost var was := work;
      SearchPop(d.cells, work);
      if n == target {
        return true, false;
      }
      var kids := d.Children(d.cells[n]);
      var room := d.Allocate();
      if !room {
        return true, true;
      }
      work := work[..|work| - 1] + kids;
      SearchPush(d.cells, was, n, kids, work);
    }
    SearchEnd(d.cells);
    found := false;
  }

  ghost predicate Unsearched(h: Heap, work: seq<Node>) {
    Antichain(h, Elems(work)) && forall i, j :: 0 <= i < j < |work| ==> work[i] != work[j]
  }

  lemma SearchStart(h: Heap, root: Node, target: Node)
    requires Forest(h) && root in h
    ensures Unsearched(h, [root])
    ensures Reaches(h, root, target) <==> target in Below(h, Elems([root]))
  {
    assert Elems([root]) == {root};
    if Reaches(h, root, target) { ReachLive(h, root, target); }
  }

  lemma SearchPop(h: Heap, work: seq<Node>)
    requires Forest(h) && Unsearched(h, work) && work != []
    ensures work[|work| - 1] in h && GoodBody(h[work[|work| - 1]])
    ensures work[|work| - 1] in Below(h, Elems(work))
  {
    assert work[|work| - 1] in Elems(work);
    ReachSelf(h, work[|work| - 1]);
  }

  lemma SearchPush(h: Heap, was: seq<Node>, n: Node, kids: seq<Node>, work: seq<Node>)
    requires Forest(h) && Unsearched(h, was) && was != [] && n == was[|was| - 1] && n in h
    requires forall k :: k in kids <==> Owns(h[n], k)
    requires forall i, j :: 0 <= i < j < |kids| ==> kids[i] != kids[j]
    requires work == was[..|was| - 1] + kids
    ensures Unsearched(h, work)
    ensures Below(h, Elems(work)) == Below(h, Elems(was)) - {n} && n in Below(h, Elems(was))
  {
    var rest := was[..|was| - 1];
    assert was == rest + [n];
    Expand(h, Elems(was), n);
    assert Elems(kids) == KidsOf(h, n);
    assert Elems(was) - {n} == Elems(rest);
    assert Elems(work) == Elems(rest) + Elems(kids);
    forall i, j | 0 <= i < j < |work| ensures work[i] != work[j] {
      if j < |rest| { assert work[i] == was[i] && work[j] == was[j]; }
      else if i < |rest| { assert work[i] in Elems(rest) && work[j] in Elems(kids); }
    }
  }

  lemma SearchEnd(h: Heap)
    ensures Below(h, Elems([])) == {}
  {
  }

  // The exchange of two private pointers, without any check.
  method SwapStorage(d: Dom, a: Node, b: Node)
    requires a in d.cells && b in d.cells
    modifies d`cells
    ensures d.cells == Swapped(old(d.cells), a, b)
  {
    d.cells := d.cells[a := d.cells[b]][b := d.cells[a]];
  }

  // A local value on the caller's stack; needs no allocation.
  method NewTemp(d: Dom) returns (t: Node)
    requires d.Valid()
    modifies d`cells
    ensures d.Valid() && t !in old(d.cells) && d.cells == old(d.cells)[t := NULL_BODY] && IsRoot(d.cells, t)
  {
    FreshAddress(d.cells);
    t :| t !in d.cells;
    FreshForest(d.cells, t, NULL_BODY);
    d.cells := d.cells[t := NULL_BODY];
  }

  // The heap without the tree at t.
  ghost function Without(h: Heap, t: Node): Heap {
    map x | x in h && !Reaches(h, t, x) :: h[x]
  }

  lemma WithoutForest(h: Heap, t: Node)
    requires Forest(h) && IsRoot(h, t)
    ensures Forest(Without(h, t)) && Without(h, t) == Cleared(h, t, NULL_BODY) - {t}
  {
    hide Denotes;
    var c, g := Cleared(h, t, NULL_BODY), Without(h, t);
    ReachSelf(h, t);
    ChildlessHasValue(t, NULL_BODY);
    ClearedForest(h, t, NULL_BODY);
    assert g == c - {t};
    RebuildAll(c, g);
  }

  // Runs a destructor: the whole tree goes.
  method DestroyRoot(d: Dom, t: Node)
    requires d.Valid() && IsRoot(d.cells, t)
    modifies d
    ensures d.Valid() && d.cells == Without(old(d.cells), t)
    ensures d.freed == old(d.freed) + multiset(Tree(old(d.cells), t))
  {
    hide Forest, Denotes, Owns;
    ghost var h := d.cells;
    ReachSelf(h, t);
    WithoutForest(h, t);
    d.Reset(t);
    assert forall k :: !Owns(NULL_BODY, k) by { ChildlessHasValue(t, NULL_BODY); }
    d.FreeNode(t);
    assert multiset(Tree(h, t)) == multiset(Tree(h, t) - {t}) + multiset{t};
  }

  // Moves the contents of the root t into dst and destroys t, which by then
  // holds dst's old contents.
  method Install(d: Dom, dst: Node, t: Node)
    requires d.Valid() && IsRoot(d.cells, t) && dst in d.cells && dst != t && !Reaches(d.cells, t, dst)
    modifies d
    ensures d.Valid() && d.cells == Installed(old(d.cells), dst, t)
    ensures Denotes(d.cells, dst, ValueOf(old(d.cells), t))
  {
    hide Forest, Denotes, Reaches, Owns;
    ghost var h := d.cells;
    SwapThenDestroy(h, dst, t);
    InstallForest(h, dst, t);
    SwapStorage(d, dst, t);
    DestroyRoot(d, t);
    assert d.cells == Installed(h, dst, t);
  }

  lemma SwapThenDestroy(h: Heap, dst: Node, t: Node)
    requires Forest(h) && IsRoot(h, t) && dst in h && dst != t && !Reaches(h, t, dst)
    ensures var g := Swapped(h, dst, t);
            Forest(g) && IsRoot(g, t) && HasValue(h, t)
            && forall x :: x in h ==> (Reaches(g, t, x) <==> x == t || (x != dst && Reaches(h, dst, x)))
  {
    var g := Swapped(h, dst, t);
    if Reaches(h, dst, t) { var o := ReachViaOwner(h, dst, t); }
    SwapForest(h, dst, t);
    forall x | x in g ensures !Owns(g[x], t) {
      assert !Owns(h[if x == dst then t else if x == t then dst else x], t);
    }
    ReachSelf(g, t);
    forall x | x in h && x != t ensures Reaches(g, t, x) <==> x != dst && Reaches(h, dst, x) {
      if x != dst {
        ReachMoved(h, g, dst, t, x);
      } else if Reaches(g, t, dst) {
        var k := ReachViaKid(g, t, dst);
        OwnerAbove(h, dst, k);
        forall y | y in h && Reaches(h, k, y) ensures y in g && g[y] == h[y] { ReachKid(h, dst, k, y); }
        ReachFrame(h, g, k, dst);
      }
    }
  }

  // ---- Replacing a value by a copy ----

  // t is the root of a tree holding v that h did not have; h is intact in g.
  ghost predicate IsFreshTree(h: Heap, g: Heap, t: Node, v: Json) {
    && Forest(g) && IsRoot(g, t) && t !in h && Denotes(g, t, v)
    && (forall x :: x in h ==> x in g && g[x] == h[x])
    && (forall x :: x in g ==> (Reaches(g, t, x) <==> x !in h))
  }

  // In g, dst holds v in nodes of its own, its former descendants are gone, and
  // the rest of h is untouched.
  ghost predicate Replaced(h: Heap, g: Heap, dst: Node, v: Json) {
    && Denotes(g, dst, v)
    && (forall x :: x in h && x != dst && !Reaches(h, dst, x) ==> x in g && g[x] == h[x])
    && (forall x :: x in h && x != dst && Reaches(h, dst, x) ==> x !in g)
    && (forall x :: x in g ==> (Reaches(g, dst, x) <==> x == dst || x !in h))
  }

  lemma InstallFresh(h: Heap, g: Heap, dst: Node, t: Node, v: Json)
    requires Forest(h) && dst in h && IsFreshTree(h, g, t, v)
    ensures dst != t && !Reaches(g, t, dst) && Replaced(h, Installed(g, dst, t), dst, v)
  {
    var r := Installed(g, dst, t);
    assert !Reaches(g, t, dst);
    InstallForest(g, dst, t);
    DenotesUnique(g, t, v, ValueOf(g, t));
    forall x | x in h ensures Reaches(h, dst, x) <==> Reaches(g, dst, x) { ReachFrame(h, g, dst, x); }
    forall x | x in r && x != dst ensures Reaches(r, dst, x) <==> x !in h {
      InstallReach(g, dst, t, x);
    }
    ReachSelf(r, dst);
  }

  lemma InstallReach(h: Heap, dst: Node, t: Node, x: Node)
    requires Forest(h) && IsRoot(h, t) && dst in h && dst != t && !Reaches(h, t, dst) && x != dst && x != t
    ensures Reaches(Installed(h, dst, t), dst, x) <==> Reaches(h, t, x)
  {
    var r := Installed(h, dst, t);
    forall y | y in h && y != t && Reaches(h, t, y) ensures y in r && r[y] == h[y] { InstallKept(h, dst, t, y); }
    ReachMoved(h, r, t, dst, x);
  }

  // copyFrom(), and copy assignment: the copy is complete before anything of
  // dst is freed, so src may be anywhere, dst's own subtree included.
  method CopyFrom(d: Dom, dst: Node, src: Node) returns (ok: bool)
    requires d.Valid() && dst in d.cells && src in d.cells
    modifies d
    ensures d.Valid()
    ensures !ok || dst == src ==> d.cells == old(d.cells)
    ensures ok && dst != src ==> Replaced(old(d.cells), d.cells, dst, ValueOf(old(d.cells), src))
  {
    hide Forest, Denotes, Reaches, Owns, Sound, IsCopy, IsRoot, Replaced;
    if dst == src { return true; }
    ghost var h := d.cells;
    assert HasValue(h, src) by { LiveHasValue(h, src); }
    var t := NewTemp(d);
    TempIsSound(h, d.cells, src, t);
    ok := CopyContentsInto(d, t, src);
    if ok {
      TempCopied(h, d.cells, t, ValueOf(h, src));
      InstallFresh(h, d.cells, dst, t, ValueOf(h, src));
      Install(d, dst, t);
    } else {
      TempGone(h, t);
      DestroyRoot(d, t);
      assert d.cells == h;
    }
  }

  lemma LiveHasValue(h: Heap, n: Node)
    requires Forest(h) && n in h
    ensures HasValue(h, n)
  {
  }

  lemma TempIsSound(h: Heap, h1: Heap, src: Node, t: Node)
    requires Forest(h) && src in h && t !in h && h1 == h[t := NULL_BODY] && IsRoot(h1, t) && Forest(h1)
    ensures Sound(h1, src, t) && HasValue(h, src) && HasValue(h1, src) && ValueOf(h1, src) == ValueOf(h, src)
  {
    if Reaches(h1, src, t) { var o := ReachViaOwner(h1, src, t); }
    DenotesFrame(h, h1, src, ValueOf(h, src));
    ValueIs(h1, src, ValueOf(h, src));
  }

  lemma TempCopied(h: Heap, g: Heap, t: Node, v: Json)
    requires Forest(h) && t !in h && Forest(g) && IsCopy(h[t := NULL_BODY], g, t, v)
    ensures IsFreshTree(h, g, t, v)
  {
    forall a | a in g ensures !Owns(g[a], t) {
      if Owns(g[a], t) && a !in h { OwnerAbove(g, a, t); }
    }
  }

  lemma TempGone(h: Heap, t: Node)
    requires Forest(h) && t !in h
    ensures var h1 := h[t := NULL_BODY];
            IsRoot(h1, t) && forall x :: x in h1 ==> (Reaches(h1, t, x) <==> x == t)
  {
    var h1 := h[t := NULL_BODY];
    FreshForest(h, t, NULL_BODY);
    ChildlessHasValue(t, NULL_BODY);
    ReachSelf(h1, t);
    forall x | x in h1 && Reaches(h1, t, x) ensures x == t { LeafReach(h1, t, x); }
  }

  // ---- Move assignment ----

  // dst has src's former contents, src is null, and dst's former descendants
  // are gone, except those that were moved.
  ghost function Moved(h: Heap, dst: Node, src: Node): Heap
    requires src in h
  {
    map x | x in h && (x == dst || !Reaches(h, dst, x) || (x != src && Reaches(h, src, x))) ::
      if x == dst then h[src] else if x == src then NULL_BODY else h[x]
  }

  // Move assignment: the contents move, unless src contains dst or the search
  // for that ran out of memory; then dst gets a copy.
  method MoveAssign(d: Dom, dst: Node, src: Node) returns (ok: bool, exhausted: bool)
    requires d.Valid() && dst in d.cells && src in d.cells
    modifies d
    ensures d.Valid()
    ensures !ok || dst == src ==> d.cells == old(d.cells)
    ensures dst == src ==> ok && !exhausted
    ensures ok ==> Denotes(d.cells, dst, ValueOf(old(d.cells), src))
    ensures ok && dst != src && (exhausted || Reaches(old(d.cells), src, dst)) ==>
      Replaced(old(d.cells), d.cells, dst, ValueOf(old(d.cells), src))
    ensures dst != src && !exhausted && !Reaches(old(d.cells), src, dst) ==>
      ok && d.cells == Moved(old(d.cells), dst, src)
  {
    hide Forest, Denotes, Reaches, Owns, IsRoot, Replaced;
    ghost var h := d.cells;
    assert HasValue(h, src) && Denotes(h, src, ValueOf(h, src)) by { LiveHasValue(h, src); }
    if dst == src { return true, false; }
    var inside;
    inside, exhausted := ContainsNode(d, src, dst);
    if inside {
      ok := CopyFrom(d, dst, src);
      assert ok ==> Denotes(d.cells, dst, ValueOf(h, src)) by {
        if ok { ReplacedDenotes(h, d.cells, dst, ValueOf(h, src)); }
      }
      return;
    }
    ok := true;
    var snapshot := NewTemp(d);
    TakeContents(h, src, snapshot);
    TakeThenInstall(h, dst, src, snapshot);
    SwapStorage(d, snapshot, src);
    Install(d, dst, snapshot);
    assert d.cells == Moved(h, dst, src);
  }

  lemma ReplacedDenotes(h: Heap, g: Heap, dst: Node, v: Json)
    requires Replaced(h, g, dst, v)
    ensures Denotes(g, dst, v)
  {
  }

  // Emptying src into the fresh temporary t: t is the root of src's former tree.
  lemma TakeContents(h: Heap, src: Node, t: Node)
    requires Forest(h) && src in h && t !in h
    ensures var h2 := Swapped(h[t := NULL_BODY], t, src);
            && HasValue(h, src) && HasValue(h2, t)
            && Forest(h2) && IsRoot(h2, t)
            && ValueOf(h2, t) == ValueOf(h, src) && Denotes(h2, src, Null)
  {
    hide Denotes, SingleOwner;
    var h1 := h[t := NULL_BODY];
    var h2 := Swapped(h1, t, src);
    FreshForest(h, t, NULL_BODY);
    TempIsSound(h, h1, src, t);
    TempGone(h, t);
    NullDenotes(h1, t);
    SwapForest(h1, t, src);
    ValueIs(h2, t, ValueOf(h1, src));
    ValueIs(h1, t, Null);
    forall x | x in h2 ensures !Owns(h2[x], t) {
      assert !Owns(h1[if x == t then src else if x == src then t else x], t);
    }
  }

  lemma TakeThenInstall(h: Heap, dst: Node, src: Node, t: Node)
    requires Forest(h) && dst in h && src in h && t !in h && !Reaches(h, src, dst)
    requires IsRoot(Swapped(h[t := NULL_BODY], t, src), t)
    ensures var h2 := Swapped(h[t := NULL_BODY], t, src);
            !Reaches(h2, t, dst) && Installed(h2, dst, t) == Moved(h, dst, src)
  {
    hide Forest;
    var h2 := Swapped(h[t := NULL_BODY], t, src);
    assert dst != src by { ReachSelf(h, src); }
    TakenReach(h, h2, src, t, dst);
    forall x | x in h && x != dst
      ensures Reaches(h2, dst, x) <==> Reaches(h, dst, x) && !(x != src && Reaches(h, src, x))
    {
      DetachedReach(h, h2, dst, src, t, x);
    }
  }

  lemma NullDenotes(h: Heap, n: Node)
    requires n in h && h[n] == NULL_BODY
    ensures Denotes(h, n, Null)
  {
  }

  // t took over src's body.
  lemma TakenReach(h: Heap, h2: Heap, src: Node, t: Node, x: Node)
    requires Forest(h) && src in h && t !in h && h2 == h[t := h[src]][src := NULL_BODY] && x != src && x != t
    ensures Reaches(h2, t, x) <==> Reaches(h, src, x)
  {
    assert forall y :: y in h && y != src && Reaches(h, src, y) ==> y in h2 && h2[y] == h[y];
    ReachMoved(h, h2, src, t, x);
  }

  // Elsewhere, exactly the nodes below src have become unreachable.
  lemma DetachedReach(h: Heap, h2: Heap, a: Node, src: Node, t: Node, x: Node)
    requires Forest(h) && a in h && src in h && t !in h && h2 == h[t := h[src]][src := NULL_BODY]
    requires !Reaches(h, src, a) && x in h && IsRoot(h2, t)
    ensures Reaches(h2, a, x) <==> Reaches(h, a, x) && !(x != src && Reaches(h, src, x))
  {
    hide Forest;
    ChildlessHasValue(src, NULL_BODY);
    if Reaches(h2, a, x) {
      var p :| PathFromTo(h2, p, a, x);
      DetachedPath(h, h2, src, t, p);
      assert PathFromTo(h, p, a, x);
    }
    if Reaches(h, a, x) && !(x != src && Reaches(h, src, x)) {
      var p :| PathFromTo(h, p, a, x);
      forall i | 0 <= i < |p| - 1 ensures p[i] in h2 && Owns(h2[p[i]], p[i + 1]) {
        if p[i] == src { PathDescends(h, p, i); }
      }
      assert PathFromTo(h2, p, a, x);
    }
  }

  // A node before the end of a path is strictly above that end.
  lemma PathDescends(h: Heap, p: seq<Node>, i: nat)
    requires Forest(h) && IsPath(h, p) && i < |p| - 1
    ensures Reaches(h, p[i], p[|p| - 1]) && p[i] != p[|p| - 1]
  {
    assert Owns(h[p[i]], p[i + 1]);
    assert PathFromTo(h, p[i + 1..], p[i + 1], p[|p| - 1]);
    ReachKid(h, p[i], p[i + 1], p[|p| - 1]);
    OwnerAbove(h, p[i], p[i + 1]);
  }

  lemma {:induction false} DetachedPath(h: Heap, h2: Heap, src: Node, t: Node, p: seq<Node>)
    requires Forest(h) && src in h && t !in h && h2 == h[t := h[src]][src := NULL_BODY]
    requires IsPath(h2, p) && p[0] in h && !Reaches(h, src, p[0]) && IsRoot(h2, t)
    ensures IsPath(h, p) && p[|p| - 1] != t
    ensures p[|p| - 1] == src || !Reaches(h, src, p[|p| - 1])
    decreases |p|
  {
    if |p| > 1 {
      var q, o, k := p[..|p| - 1], p[|p| - 2], p[|p| - 2 + 1];
      DetachedPath(h, h2, src, t, q);
      assert Owns(h2[o], k);
      ChildlessHasValue(src, NULL_BODY);
      assert o != src && Owns(h[o], k);
      forall i | 0 <= i < |p| - 1 ensures p[i] in h && Owns(h[p[i]], p[i + 1]) {
        if i < |q| - 1 { assert q[i] == p[i] && q[i + 1] == p[i + 1]; }
      }
      if k != src && Reaches(h, src, k) {
        var m := ReachViaOwner(h, src, k);
      }
    }
  }

  // ---- Swap ----

  // Exchanges two values; overlapping operands are left alone.
  method Swap(d: Dom, a: Node, b: Node) returns (done: bool, exhausted: bool)
    requires d.Valid() && a in d.cells && b in d.cells
    modifies d`cells
    ensures d.Valid()
    ensures d.cells == if done then Swapped(old(d.cells), a, b) else old(d.cells)
    ensures !exhausted ==> (done <==> !Reaches(old(d.cells), a, b) && !Reaches(old(d.cells), b, a))
    ensures done ==>
      && Denotes(d.cells, a, ValueOf(old(d.cells), b))
      && Denotes(d.cells, b, ValueOf(old(d.cells), a))
  {
    hide Forest, Denotes, Reaches;
    ReachSelf(d.cells, a);
    if a == b { return false, false; }
    var over, out1 := ContainsNode(d, a, b);
    if over { return false, out1; }
    var under, out2 := ContainsNode(d, b, a);
    if under { return false, out2; }
    SwapForest(d.cells, a, b);
    SwapStorage(d, a, b);
    done, exhausted := true, false;
  }
}
