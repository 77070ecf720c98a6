// Generic child insertion: pushBack() and insertOrAssign(), by copy and by move.

module Insertion {
  import opened JsonValue
  import opened DomHeap
  import opened HeapSurgery
  import opened Teardown
  import opened DeepCopy
  import opened Ownership

  function EmptyFor(slot: Slot): (b: Body)
    ensures SlotFits(b, slot)
  {
    match slot
    case End => Vec([])
    case Key(_) => Table(map[])
  }

  function EmptyValueFor(slot: Slot): Json {
    match slot
    case End => Arr([])
    case Key(_) => Obj(map[])
  }

  // n gained the child c, which holds v in nodes of its own; nothing else changed.
  ghost predicate Inserted(h: Heap, g: Heap, n: Node, slot: Slot, c: Node, v: Json)
    requires n in h && SlotFits(h[n], slot) && HasValue(h, n)
  {
    && c !in h && Denotes(g, c, v)
    && n in g && g[n] == Attached(h[n], slot, c)
    && Denotes(g, n, AttachedValue(ValueOf(h, n), slot, v))
    && (forall x :: x in h && x != n ==> x in g && g[x] == h[x])
    && (forall x :: x in g ==> (Reaches(g, c, x) <==> x !in h))
  }

  lemma AttachFresh(h: Heap, g: Heap, n: Node, slot: Slot, c: Node, v: Json)
    requires Forest(h) && n in h && SlotFits(h[n], slot) && IsFreshTree(h, g, c, v)
    ensures n in g && SlotFits(g[n], slot) && HasValue(h, n)
    ensures var r := g[n := Attached(g[n], slot, c)];
            Forest(r) && Inserted(h, r, n, slot, c, v)
  {
    hide Forest, Owns;
    LiveHasValue(h, n);
    var r := g[n := Attached(g[n], slot, c)];
    AttachTree(g, n, slot, c);
    forall x | x in h && Reaches(h, n, x) ensures x in g && g[x] == h[x] { }
    DenotesFrame(h, g, n, ValueOf(h, n));
    ValueIs(g, n, ValueOf(h, n));
    ValueIs(g, c, v);
    DenotesFrame(g, r, c, v);
    forall x | x in r ensures Reaches(r, c, x) <==> x !in h { ReachFrame(g, r, c, x); }
  }

  // Hangs a copy of src under a container with room for it.
  method InsertCopy(d: Dom, n: Node, slot: Slot, src: Node) returns (ok: bool, c: Node)
    requires d.Valid() && n in d.cells && src in d.cells && SlotFits(d.cells[n], slot)
    modifies d
    ensures d.Valid()
    ensures !ok ==> d.cells == old(d.cells)
    ensures ok ==> Inserted(old(d.cells), d.cells, n, slot, c, ValueOf(old(d.cells), src))
  {
    hide Forest, Denotes, Reaches, Owns, Sound, IsCopy, IsRoot;
    ghost var h := d.cells;
    LiveHasValue(h, src);
    LiveHasValue(h, n);
    c, ok := d.MakeNode();
    if !ok { return; }
    FreshRoot(h, c);
    TempIsSound(h, d.cells, src, c);
    ok := CopyContentsInto(d, c, src);
    if !ok {
      TempGone(h, c);
      DestroyRoot(d, c);
      assert d.cells == h;
      return;
    }
    TempCopied(h, d.cells, c, ValueOf(h, src));
    ok := d.Allocate();
    if !ok {
      DestroyRoot(d, c);
      assert d.cells == h;
      return;
    }
    AttachFresh(h, d.cells, n, slot, c, ValueOf(h, src));
    d.cells := d.cells[n := Attached(d.cells[n], slot, c)];
  }

  lemma FreshRoot(h: Heap, c: Node)
    requires Forest(h) && c !in h
    ensures IsRoot(h[c := NULL_BODY], c) && Forest(h[c := NULL_BODY])
  {
    FreshForest(h, c, NULL_BODY);
  }

  // A target of another kind is rebuilt as a container around a copy of src,
  // which may be one of the target's own descendants.
  method PromoteCopy(d: Dom, n: Node, slot: Slot, src: Node) returns (ok: bool)
    requires d.Valid() && n in d.cells && src in d.cells
    modifies d
    ensures d.Valid()
    ensures !ok ==> d.cells == old(d.cells)
    ensures ok ==>
      Replaced(old(d.cells), d.cells, n, AttachedValue(EmptyValueFor(slot), slot, ValueOf(old(d.cells), src)))
  {
    hide Forest, Denotes, Reaches, Owns, IsRoot, Replaced, AttachedValue;
    ghost var h := d.cells;
    LiveHasValue(h, src);
    var r := NewTemp(d);
    LeafSet(d.cells, r, EmptyFor(slot));
    ok := d.ResetTo(r, EmptyFor(slot));
    if ok {
      ok := FillCopied(d, n, r, slot, src, h);
      if ok { return; }
    }
    DropEmpty(d, r, h);
  }

  // Gives up a container that is still empty.
  method DropEmpty(d: Dom, r: Node, ghost h: Heap)
    requires d.Valid() && Forest(h) && r !in h && r in d.cells && d.cells == h[r := d.cells[r]]
    requires Childless(d.cells[r])
    modifies d
    ensures d.Valid() && d.cells == h
  {
    hide Forest, Denotes, Reaches, Owns, IsRoot;
    TempLeaf(h, d.cells, r);
    DestroyRoot(d, r);
    assert d.cells == h;
  }

  // The second half: the empty container r takes a copy of src, and n takes r's
  // contents.
  method FillCopied(d: Dom, n: Node, r: Node, slot: Slot, src: Node, ghost h: Heap) returns (ok: bool)
    requires d.Valid() && Forest(h) && n in h && src in h && r !in h && d.cells == h[r := EmptyFor(slot)]
    modifies d
    ensures d.Valid()
    ensures !ok ==> d.cells == old(d.cells)
    ensures HasValue(h, src)
    ensures ok ==> Replaced(h, d.cells, n, AttachedValue(EmptyValueFor(slot), slot, ValueOf(h, src)))
  {
    hide Forest, Denotes, Reaches, Owns, IsRoot, Replaced, Inserted;
    LiveHasValue(h, src);
    assert Forest(d.cells);
    ghost var h1, v := d.cells, ValueOf(h, src);
    PromotionStart(h, h1, r, slot, src);
    var c;
    ok, c := InsertCopy(d, r, slot, src);
    if ok {
      PromotionBuilt(h, h1, d.cells, r, slot, c, v);
      InstallFresh(h, d.cells, n, r, AttachedValue(EmptyValueFor(slot), slot, v));
      Install(d, n, r);
    }
  }

  lemma TempLeaf(h: Heap, h1: Heap, r: Node)
    requires Forest(h) && r !in h && r in h1 && h1 == h[r := h1[r]] && Childless(h1[r])
    ensures IsRoot(h1, r) && Forest(h1) && forall x :: x in h1 ==> (Reaches(h1, r, x) <==> x == r)
  {
    FreshForest(h, r, h1[r]);
    ChildlessHasValue(r, h1[r]);
    ReachSelf(h1, r);
    forall x | x in h1 && Reaches(h1, r, x) ensures x == r { LeafReach(h1, r, x); }
  }

  lemma PromotionStart(h: Heap, h1: Heap, r: Node, slot: Slot, src: Node)
    requires Forest(h) && src in h && r !in h && h1 == h[r := EmptyFor(slot)]
    ensures HasValue(h, src) && Denotes(h1, r, EmptyValueFor(slot)) && HasValue(h1, r)
    ensures ValueOf(h1, r) == EmptyValueFor(slot)
    ensures HasValue(h1, src) && ValueOf(h1, src) == ValueOf(h, src)
  {
    LiveHasValue(h, src);
    ValueIs(h1, r, EmptyValueFor(slot));
    forall x | x in h && Reaches(h, src, x) ensures x in h1 && h1[x] == h[x] { }
    DenotesFrame(h, h1, src, ValueOf(h, src));
    ValueIs(h1, src, ValueOf(h, src));
  }

  lemma PromotionBuilt(h: Heap, h1: Heap, g: Heap, r: Node, slot: Slot, c: Node, v: Json)
    requires Forest(h) && Forest(h1) && Forest(g) && r !in h && h1 == h[r := EmptyFor(slot)]
    requires HasValue(h1, r) && ValueOf(h1, r) == EmptyValueFor(slot) && Inserted(h1, g, r, slot, c, v)
    ensures IsFreshTree(h, g, r, AttachedValue(EmptyValueFor(slot), slot, v))
  {
    hide Denotes, GoodBody;
    OnlyChild(slot, c);
    BuiltRoot(h, h1, g, r, slot, c, v);
    hide Forest, Owns;
    forall x | x in g ensures Reaches(g, r, x) <==> x !in h {
      if x == r { ReachSelf(g, r); }
      else if Reaches(g, r, x) { var k := ReachViaKid(g, r, x); }
      else if x !in h { ReachKid(g, r, c, x); }
    }
  }

  lemma OnlyChild(slot: Slot, c: Node)
    ensures forall k :: Owns(Attached(EmptyFor(slot), slot, c), k) <==> k == c
  {
    ChildlessHasValue(c, EmptyFor(slot));
    forall k ensures Owns(Attached(EmptyFor(slot), slot, c), k) <==> k == c {
      AttachedOwns(EmptyFor(slot), slot, c, k);
    }
  }

  lemma BuiltRoot(h: Heap, h1: Heap, g: Heap, r: Node, slot: Slot, c: Node, v: Json)
    requires Forest(h) && Forest(g) && r !in h && h1 == h[r := EmptyFor(slot)]
    requires HasValue(h1, r) && Inserted(h1, g, r, slot, c, v)
    ensures IsRoot(g, r)
  {
    hide Denotes, GoodBody;
    OnlyChild(slot, c);
    forall a | a in g ensures !Owns(g[a], r) {
      if Owns(g[a], r) && a !in h {
        ReachSelf(g, r);
        ReachKid(g, a, r, r);
        ReachTransitive(g, c, a, r);
      }
    }
  }

  // ---- Insertion by move ----

  // c took over src's contents and hangs under n.
  ghost function MovedUnder(h: Heap, n: Node, slot: Slot, c: Node, src: Node): Heap
    requires n in h && src in h && SlotFits(h[n], slot)
  {
    h[c := h[src]][src := NULL_BODY][n := Attached(h[n], slot, c)]
  }

  // Consumes src, which must not contain n, without copying anything.
  method InsertMove(d: Dom, n: Node, slot: Slot, src: Node) returns (ok: bool, c: Node)
    requires d.Valid() && n in d.cells && src in d.cells && SlotFits(d.cells[n], slot)
    requires !Reaches(d.cells, src, n)
    modifies d
    ensures d.Valid()
    ensures !ok ==> d.cells == old(d.cells)
    ensures ok ==>
      && c !in old(d.cells)
      && d.cells == MovedUnder(old(d.cells), n, slot, c, src)
      && Denotes(d.cells, c, ValueOf(old(d.cells), src))
  {
    hide Forest, Denotes, Reaches, Owns, IsRoot;
    ghost var h := d.cells;
    LiveHasValue(h, src);
    c, ok := d.MakeNode();
    if !ok { return; }
    // Room in the container comes first, so that nothing fails past this point.
    ok := d.Allocate();
    if !ok {
      TempLeaf(h, d.cells, c);
      DestroyRoot(d, c);
      assert d.cells == h;
      return;
    }
    MoveUnder(h, n, slot, c, src);
    SwapStorage(d, c, src);
    d.cells := d.cells[n := Attached(d.cells[n], slot, c)];
  }

  lemma MoveUnder(h: Heap, n: Node, slot: Slot, c: Node, src: Node)
    requires Forest(h) && n in h && src in h && c !in h && SlotFits(h[n], slot) && !Reaches(h, src, n)
    ensures var h2 := Swapped(h[c := NULL_BODY], c, src);
            var g := MovedUnder(h, n, slot, c, src);
            && n in h2 && h2[n] == h[n] && g == h2[n := Attached(h2[n], slot, c)]
            && Forest(g) && HasValue(h, src) && Denotes(g, c, ValueOf(h, src))
  {
    hide Forest, Denotes;
    var h2 := Swapped(h[c := NULL_BODY], c, src);
    assert n != src by { ReachSelf(h, src); }
    TakeContents(h, src, c);
    TakenReach(h, h2, src, c, n);
    AttachTree(h2, n, slot, c);
    DenotesFrame(h2, MovedUnder(h, n, slot, c, src), c, ValueOf(h, src));
  }

  // n was rebuilt around c, which took over src's contents; the rest of n's
  // former tree is gone.
  ghost function Promoted(h: Heap, n: Node, slot: Slot, c: Node, src: Node): Heap
    requires src in h
  {
    map x | x in h.Keys + {c} && (x == c || x == n || !Reaches(h, n, x) || (x != src && Reaches(h, src, x))) ::
      if x == n then Attached(EmptyFor(slot), slot, c)
      else if x == c then h[src]
      else if x == src then NULL_BODY
      else h[x]
  }

  // A target of another kind is rebuilt as a container around src's contents.
  // The new container searches src for itself first, like any other; when that
  // search runs out of memory it takes a copy, and src keeps its value.
  method PromoteMove(d: Dom, n: Node, slot: Slot, src: Node) returns (ok: bool, exhausted: bool)
    requires d.Valid() && n in d.cells && src in d.cells && !Reaches(d.cells, src, n)
    modifies d
    ensures d.Valid()
    ensures !ok ==> d.cells == old(d.cells)
    ensures ok && exhausted ==>
      Replaced(old(d.cells), d.cells, n, AttachedValue(EmptyValueFor(slot), slot, ValueOf(old(d.cells), src)))
    ensures ok && !exhausted ==>
      && Denotes(d.cells, n, AttachedValue(EmptyValueFor(slot), slot, ValueOf(old(d.cells), src)))
      && exists c :: c !in old(d.cells) && d.cells == Promoted(old(d.cells), n, slot, c, src)
  {
    hide Forest, Denotes, Reaches, Owns, IsRoot, Promoted, Replaced, AttachedValue;
    ghost var h := d.cells;
    exhausted := false;
    LiveHasValue(h, src);
    var r := NewTemp(d);
    LeafSet(d.cells, r, EmptyFor(slot));
    ok := d.ResetTo(r, EmptyFor(slot));
    if ok {
      assert !Reaches(d.cells, src, r) by { TempUnreached(h, d.cells, src, r); }
      var inside;
      inside, exhausted := ContainsNode(d, src, r);
      if inside {
        ok := FillCopied(d, n, r, slot, src, h);
      } else {
        ok := FillMoved(d, n, r, slot, src, h);
      }
      if ok { return; }
    }
    DropEmpty(d, r, h);
  }

  // The same with src's contents instead of a copy.
  method FillMoved(d: Dom, n: Node, r: Node, slot: Slot, src: Node, ghost h: Heap) returns (ok: bool)
    requires d.Valid() && Forest(h) && n in h && src in h && r !in h && d.cells == h[r := EmptyFor(slot)]
    requires !Reaches(h, src, n) && !Reaches(d.cells, src, r)
    modifies d
    ensures d.Valid()
    ensures !ok ==> d.cells == old(d.cells)
    ensures ok ==>
      && HasValue(h, src) && Denotes(d.cells, n, AttachedValue(EmptyValueFor(slot), slot, ValueOf(h, src)))
      && exists c :: c !in h && d.cells == Promoted(h, n, slot, c, src)
  {
    hide Forest, Denotes, Reaches, Owns, IsRoot, Promoted;
    ghost var h1 := d.cells;
    assert Forest(h1);
    PromotionStart(h, h1, r, slot, src);
    var c;
    ok, c := InsertMove(d, r, slot, src);
    if ok {
      PromotionMoved(h, h1, d.cells, n, r, slot, c, src);
      Install(d, n, r);
    }
  }

  lemma TempUnreached(h: Heap, h1: Heap, a: Node, r: Node)
    requires Forest(h) && a in h && r !in h && r in h1 && h1 == h[r := h1[r]] && Childless(h1[r])
    ensures !Reaches(h1, a, r)
  {
    TempLeaf(h, h1, r);
    RootUnreached(h, h1, a, r);
  }

  lemma RootUnreached(h: Heap, h1: Heap, a: Node, r: Node)
    requires IsRoot(h1, r) && a in h && r !in h
    ensures !Reaches(h1, a, r)
  {
    if Reaches(h1, a, r) { var o := ReachViaOwner(h1, a, r); }
  }

  lemma PromotionMoved(h: Heap, h1: Heap, g: Heap, n: Node, r: Node, slot: Slot, c: Node, src: Node)
    requires Forest(h) && Forest(h1) && Forest(g) && n in h && src in h && r !in h && !Reaches(h, src, n)
    requires h1 == h[r := EmptyFor(slot)] && c !in h1 && g == MovedUnder(h1, r, slot, c, src)
    requires HasValue(h, src) && Denotes(g, c, ValueOf(h, src))
    ensures IsRoot(g, r) && n != r && !Reaches(g, r, n) && HasValue(g, r)
    ensures ValueOf(g, r) == AttachedValue(EmptyValueFor(slot), slot, ValueOf(h, src))
    ensures Installed(g, n, r) == Promoted(h, n, slot, c, src)
  {
    hide Forest, Denotes, Installed, Promoted;
    PromotedRoot(h, h1, g, r, slot, c, src);
    PromotedDenotes(h, h1, g, r, slot, c, src);
    assert n != src by { ReachSelf(h, src); }
    ReachSelf(h, n);
    ReachMoved(h, g, src, c, n);
    if Reaches(g, r, n) { var k := ReachViaKid(g, r, n); }
    assert !Reaches(g, n, c) by { if Reaches(g, n, c) { OldFromOld(h, g, src, n, c); } }
    forall x | x in h
      ensures Reaches(g, n, x) <==> Reaches(h, n, x) && !(x != src && Reaches(h, src, x))
    {
      PromotedReach(h, g, n, c, src, x);
    }
    PromotedMap(h, h1, g, n, r, slot, c, src);
  }

  lemma PromotedMap(h: Heap, h1: Heap, g: Heap, n: Node, r: Node, slot: Slot, c: Node, src: Node)
    requires n in h && src in h && r !in h && h1 == h[r := EmptyFor(slot)] && c !in h1 && n != src
    requires g == MovedUnder(h1, r, slot, c, src) && !Reaches(g, n, c)
    requires forall x :: x in h ==> (Reaches(g, n, x) <==> Reaches(h, n, x) && !(x != src && Reaches(h, src, x)))
    ensures Installed(g, n, r) == Promoted(h, n, slot, c, src)
  {
    hide Reaches;
  }

  lemma OldFromOld(h: Heap, g: Heap, src: Node, a: Node, x: Node)
    requires Forest(h) && a in h && Reaches(g, a, x)
    requires forall y :: y in h ==> y in g && g[y] == if y == src then NULL_BODY else h[y]
    ensures x in h && Reaches(h, a, x)
  {
    var p :| PathFromTo(g, p, a, x);
    PathInOldHeap(h, g, src, p);
    assert PathFromTo(h, p, a, x);
  }

  // From n, exactly the nodes below src have become unreachable.
  lemma PromotedReach(h: Heap, g: Heap, n: Node, c: Node, src: Node, x: Node)
    requires Forest(h) && Forest(g) && n in h && src in h && c !in h && x in h && !Reaches(h, src, n)
    requires c in g && g[c] == h[src] && !Reaches(g, n, c) && (Reaches(g, c, n) ==> Reaches(h, src, n))
    requires forall y :: y in h ==> y in g && g[y] == if y == src then NULL_BODY else h[y]
    ensures Reaches(g, n, x) <==> Reaches(h, n, x) && !(x != src && Reaches(h, src, x))
  {
    hide Forest;
    if Reaches(g, n, x) {
      OldFromOld(h, g, src, n, x);
      if x != src && Reaches(h, src, x) {
        ReachMoved(h, g, src, c, x);
        NestedOrDisjoint(g, n, c, x);
      }
    }
    if Reaches(h, n, x) && !(x != src && Reaches(h, src, x)) {
      var p :| PathFromTo(h, p, n, x);
      forall i | 0 <= i < |p| - 1 ensures p[i] in g && Owns(g[p[i]], p[i + 1]) {
        if p[i] == src { PathDescends(h, p, i); }
      }
      assert PathFromTo(g, p, n, x);
    }
  }

  lemma PromotedDenotes(h: Heap, h1: Heap, g: Heap, r: Node, slot: Slot, c: Node, src: Node)
    requires r !in h && src in h && h1 == h[r := EmptyFor(slot)] && c !in h1 && g == MovedUnder(h1, r, slot, c, src)
    requires HasValue(h, src) && Denotes(g, c, ValueOf(h, src))
    ensures HasValue(g, r) && ValueOf(g, r) == AttachedValue(EmptyValueFor(slot), slot, ValueOf(h, src))
  {
    assert Denotes(g, r, AttachedValue(EmptyValueFor(slot), slot, ValueOf(h, src)));
    ValueIs(g, r, AttachedValue(EmptyValueFor(slot), slot, ValueOf(h, src)));
  }

  lemma PromotedRoot(h: Heap, h1: Heap, g: Heap, r: Node, slot: Slot, c: Node, src: Node)
    requires Forest(h) && r !in h && src in h && h1 == h[r := EmptyFor(slot)] && c !in h1
    requires g == MovedUnder(h1, r, slot, c, src)
    ensures forall k :: Owns(g[r], k) <==> k == c
    ensures IsRoot(g, r)
    ensures forall x :: x in h ==> x in g && g[x] == if x == src then NULL_BODY else h[x]
  {
    OnlyChild(slot, c);
    ChildlessHasValue(src, NULL_BODY);
    hide Denotes, GoodBody, Attached;
    forall a | a in g ensures !Owns(g[a], r) { }
  }

  // A path that starts among old nodes, none of which gained a child, stays
  // among them.
  lemma {:induction false} PathInOldHeap(h: Heap, g: Heap, src: Node, p: seq<Node>)
    requires Forest(h) && IsPath(g, p) && p[0] in h
    requires forall x :: x in h ==> x in g && g[x] == if x == src then NULL_BODY else h[x]
    ensures IsPath(h, p) && p[|p| - 1] in h
    decreases |p|
  {
    if |p| > 1 {
      var q := p[..|p| - 1];
      PathInOldHeap(h, g, src, q);
      var o, k := p[|p| - 2], p[|p| - 2 + 1];
      assert Owns(g[o], k);
      ChildlessHasValue(o, NULL_BODY);
      assert Owns(h[o], k);
      forall i | 0 <= i < |p| - 1 ensures p[i] in h && Owns(h[p[i]], p[i + 1]) {
        if i < |q| - 1 { assert q[i] == p[i] && q[i + 1] == p[i + 1]; }
      }
    }
  }

  // ---- The public operations ----

  // Appends a copy; a target that is not an array becomes one first.
  method PushBackCopy(d: Dom, n: Node, src: Node) returns (ok: bool)
    requires d.Valid() && n in d.cells && src in d.cells
    modifies d
    ensures d.Valid()
    ensures !ok ==> d.cells == old(d.cells)
    ensures ok && old(d.cells)[n].Vec? ==>
      exists c :: Inserted(old(d.cells), d.cells, n, End, c, ValueOf(old(d.cells), src))
    ensures ok && !old(d.cells)[n].Vec? ==>
      Replaced(old(d.cells), d.cells, n, Arr([ValueOf(old(d.cells), src)]))
  {
    hide Forest, Denotes, Reaches, Inserted, Replaced;
    ghost var h := d.cells;
    LiveHasValue(d.cells, src);
    LiveHasValue(d.cells, n);
    if d.cells[n].Vec? {
      var c;
      ok, c := InsertCopy(d, n, End, src);
    } else {
      ok := PromoteCopy(d, n, End, src);
      assert [] + [ValueOf(h, src)] == [ValueOf(h, src)];
    }
  }

  // Appends src's contents and leaves src null, unless src contains the target:
  // then a snapshot is appended.
  method PushBackMove(d: Dom, n: Node, src: Node) returns (ok: bool, exhausted: bool)
    requires d.Valid() && n in d.cells && src in d.cells
    modifies d
    ensures d.Valid()
    ensures !ok ==> d.cells == old(d.cells)
    ensures ok && old(d.cells)[n].Vec? && (exhausted || Reaches(old(d.cells), src, n)) ==>
      exists c :: Inserted(old(d.cells), d.cells, n, End, c, ValueOf(old(d.cells), src))
    ensures ok && old(d.cells)[n].Vec? && !exhausted && !Reaches(old(d.cells), src, n) ==>
      exists c ::
        && c !in old(d.cells) && d.cells == MovedUnder(old(d.cells), n, End, c, src)
        && Denotes(d.cells, c, ValueOf(old(d.cells), src))
    ensures ok && !old(d.cells)[n].Vec? && (exhausted || Reaches(old(d.cells), src, n)) ==>
      Replaced(old(d.cells), d.cells, n, Arr([ValueOf(old(d.cells), src)]))
    ensures ok && !old(d.cells)[n].Vec? && !exhausted && !Reaches(old(d.cells), src, n) ==>
      && Denotes(d.cells, n, Arr([ValueOf(old(d.cells), src)]))
      && exists c :: c !in old(d.cells) && d.cells == Promoted(old(d.cells), n, End, c, src)
  {
    hide Forest, Denotes, Reaches, Inserted, Replaced, Promoted;
    ghost var h := d.cells;
    LiveHasValue(d.cells, src);
    LiveHasValue(d.cells, n);
    var inside;
    inside, exhausted := ContainsNode(d, src, n);
    if inside {
      ok := PushBackCopy(d, n, src);
    } else if d.cells[n].Vec? {
      var c;
      ok, c := InsertMove(d, n, End, src);
    } else {
      ok, exhausted := PromoteMove(d, n, End, src);
      assert [] + [ValueOf(h, src)] == [ValueOf(h, src)];
    }
  }

  // A source that lies apart from n ends null, and the only new node is the
  // element that holds its contents.
  lemma PromotedEmpties(h: Heap, n: Node, slot: Slot, c: Node, src: Node)
    requires Forest(h) && n in h && src in h && c !in h && !Reaches(h, src, n)
    ensures var g := Promoted(h, n, slot, c, src);
            && n in g && g[n] == Attached(EmptyFor(slot), slot, c) && c in g && g[c] == h[src]
            && (forall x :: x in g && x !in h ==> x == c)
            && (!Reaches(h, n, src) ==> src in g && g[src] == NULL_BODY)
            && (forall x :: x in h && x != n && Reaches(h, n, x) && !Reaches(h, src, x) ==> x !in g)
            && (forall x :: x in h && x != src && Reaches(h, src, x) ==> x in g && g[x] == h[x])
            && (forall x :: x in h && x != src && !Reaches(h, n, x) ==> x in g && g[x] == h[x])
  {
    ReachSelf(h, n);
    ReachSelf(h, src);
  }

  // The member at key holds v, and every other slot of n still holds the child
  // it held.
  ghost predicate Assigned(h: Heap, g: Heap, n: Node, key: Bytes, v: Json)
    requires n in h
  {
    && n in g && g[n].Table? && key in g[n].members
    && Denotes(g, g[n].members[key], v)
    && g[n].members - {key} == if h[n].Table? then h[n].members - {key} else map[]
  }

  // What assigning to key lets go of: the member's tree, or, when n is rebuilt,
  // all of n's.
  ghost predicate Within(h: Heap, n: Node, key: Bytes, x: Node)
    requires n in h
  {
    if h[n].Table? then key in h[n].members && Reaches(h, h[n].members[key], x) else Reaches(h, n, x)
  }

  // The node the assigned value goes to, if it existed.
  predicate IsSlot(h: Heap, n: Node, key: Bytes, x: Node)
    requires n in h
  {
    x == n || (h[n].Table? && key in h[n].members && x == h[n].members[key])
  }

  // What was let go of is gone unless it was moved, the rest is as it was, and
  // every new node hangs under n.
  ghost predicate Confined(h: Heap, g: Heap, n: Node, key: Bytes, src: Node, moved: bool)
    requires n in h
  {
    && (forall x :: x in h && x != n && !Within(h, n, key, x) && !(moved && x == src) ==> x in g && g[x] == h[x])
    && (forall x :: x in h && Within(h, n, key, x) && !IsSlot(h, n, key, x) && !(moved && Reaches(h, src, x)) ==>
         x !in g)
    && (forall x :: x in g && x !in h ==> Reaches(g, n, x))
  }

  // What src held is under n or still under src.
  ghost predicate Gathered(h: Heap, g: Heap, n: Node, src: Node) {
    forall x :: x in g && Reaches(h, src, x) ==> Reaches(g, n, x) || Reaches(g, src, x)
  }

  // A root that is consumed stays a root apart from n, and its tree gains
  // nothing.
  ghost predicate Consumed(h: Heap, g: Heap, n: Node, src: Node) {
    IsRoot(h, src) ==>
      IsRoot(g, src) && !Reaches(g, src, n) && forall x :: Reaches(g, src, x) ==> Reaches(h, src, x)
  }

  // insertOrAssign() from a source outside n's ancestry.
  method AssignDetached(d: Dom, n: Node, key: Bytes, src: Node) returns (ok: bool, exhausted: bool)
    requires d.Valid() && n in d.cells && src in d.cells && !Reaches(d.cells, src, n)
    modifies d
    ensures d.Valid()
    ensures !ok ==> d.cells == old(d.cells)
    ensures ok ==>
      && Assigned(old(d.cells), d.cells, n, key, ValueOf(old(d.cells), src))
      && Confined(old(d.cells), d.cells, n, key, src, !exhausted)
      && Gathered(old(d.cells), d.cells, n, src)
      && Consumed(old(d.cells), d.cells, n, src)
    ensures ok && !exhausted && !Reaches(old(d.cells), n, src) ==> src in d.cells && d.cells[src] == NULL_BODY
  {
    hide Forest, Denotes, Reaches, Owns, IsRoot, Replaced, Promoted, Assigned, Confined, Gathered, Consumed;
    ghost var h := d.cells;
    LiveHasValue(h, src);
    ghost var v := ValueOf(h, src);
    exhausted := false;
    if !d.cells[n].Table? {
      ok, exhausted := PromoteMove(d, n, Key(key), src);
      if ok && exhausted {
        AssignedRebuilt(h, d.cells, n, key, v, src);
      } else if ok {
        ghost var c :| c !in h && d.cells == Promoted(h, n, Key(key), c, src);
        AssignedPromoted(h, d.cells, n, key, c, v, src);
      }
    } else if key in d.cells[n].members {
      var e := d.cells[n].members[key];
      SlotOwned(h, n, key, src);
      ok, exhausted := MoveAssign(d, e, src);
      if ok { AssignedExisting(h, d.cells, n, key, v, src, exhausted); }
    } else {
      var c;
      ok, c := InsertMove(d, n, Key(key), src);
      if ok { AssignedNew(h, d.cells, n, key, c, v, src); }
    }
  }

  lemma SlotOwned(h: Heap, n: Node, key: Bytes, src: Node)
    requires Forest(h) && n in h && h[n].Table? && key in h[n].members && !Reaches(h, src, n)
    ensures Owns(h[n], h[n].members[key]) && h[n].members[key] in h
    ensures Reaches(h, src, h[n].members[key]) ==> src == h[n].members[key]
  {
    var e := h[n].members[key];
    assert Owns(h[n], e);
    if Reaches(h, src, e) && src != e { var o := ReachViaOwner(h, src, e); }
  }

  lemma AssignedPromoted(h: Heap, g: Heap, n: Node, key: Bytes, c: Node, v: Json, src: Node)
    requires Forest(h) && Forest(g) && n in h && src in h && !h[n].Table? && !Reaches(h, src, n)
    requires Denotes(g, n, AttachedValue(EmptyValueFor(Key(key)), Key(key), v))
    requires c !in h && g == Promoted(h, n, Key(key), c, src)
    ensures Assigned(h, g, n, key, v) && Consumed(h, g, n, src)
    ensures Confined(h, g, n, key, src, true) && Gathered(h, g, n, src)
    ensures !Reaches(h, n, src) ==> src in g && g[src] == NULL_BODY
  {
    hide Forest, Promoted;
    PromotedEmpties(h, n, Key(key), c, src);
    assert g[n].members.Keys == {key};
    assert g[n].members - {key} == map[];
    assert n != src by { ReachSelf(h, src); }
    ReachSelf(g, c);
    ReachKid(g, n, c, c);
    TakenGathered(h, g, n, c, src);
    if IsRoot(h, src) {
      assert !Reaches(h, n, src) by { if Reaches(h, n, src) { var o := ReachViaOwner(h, n, src); } }
      OwnSelf(h, src);
      forall a | a in g ensures !Owns(g[a], src) { }
      EmptiedConsumed(h, g, n, src);
    }
  }

  // n was rebuilt around a copy of src.
  lemma AssignedRebuilt(h: Heap, g: Heap, n: Node, key: Bytes, v: Json, src: Node)
    requires Forest(h) && Forest(g) && n in h && src in h && !h[n].Table? && !Reaches(h, src, n)
    requires Replaced(h, g, n, AttachedValue(EmptyValueFor(Key(key)), Key(key), v))
    ensures Assigned(h, g, n, key, v) && Consumed(h, g, n, src)
    ensures Confined(h, g, n, key, src, false) && Gathered(h, g, n, src)
  {
    hide Forest, Denotes, Assigned, Confined, Gathered, Consumed, Replaced, Reaches;
    var w := AttachedValue(EmptyValueFor(Key(key)), Key(key), v);
    CopiedPromoted(h, g, n, key, v, src);
    ReplacedGathered(h, g, n, w, n, src);
    if IsRoot(h, src) {
      assert n != src by { ReachSelf(h, src); }
      if Reaches(h, n, src) { var o := ReachViaOwner(h, n, src); }
      RootStaysApart(h, g, n, w, n, src);
    }
    NotRootConsumed(h, g, n, src);
  }

  // c, owned by n, took over src's contents.
  lemma TakenGathered(h: Heap, g: Heap, n: Node, c: Node, src: Node)
    requires Forest(h) && src in h && n in g && Owns(g[n], c) && c in g && g[c] == h[src]
    requires c !in h || !Reaches(h, src, c)
    requires forall y :: y in h && y != src && Reaches(h, src, y) ==> y in g && g[y] == h[y]
    ensures Gathered(h, g, n, src)
  {
    hide Forest;
    forall x | x in g && Reaches(h, src, x) ensures Reaches(g, n, x) || Reaches(g, src, x) {
      ReachLive(h, src, x);
      if x == src {
        ReachSelf(g, src);
      } else {
        ReachMoved(h, g, src, c, x);
        ReachKid(g, n, c, x);
      }
    }
  }

  // An emptied source reaches only itself.
  lemma EmptiedConsumed(h: Heap, g: Heap, n: Node, src: Node)
    requires src in h && src in g && g[src] == NULL_BODY && src != n && IsRoot(g, src)
    ensures Consumed(h, g, n, src)
  {
    ChildlessHasValue(src, NULL_BODY);
    forall x | Reaches(g, src, x) ensures x == src {
      LeafReach(g, src, x);
    }
    ReachSelf(h, src);
  }

  lemma AssignedExisting(h: Heap, g: Heap, n: Node, key: Bytes, v: Json, src: Node, exhausted: bool)
    requires Forest(h) && Forest(g) && n in h && h[n].Table? && key in h[n].members && src in h && !Reaches(h, src, n)
    requires var e := h[n].members[key];
      && e in h && Owns(h[n], e) && Denotes(g, e, v) && (src == e ==> g == h && !exhausted)
      && (e != src ==> if exhausted then Replaced(h, g, e, v) else g == Moved(h, e, src))
    ensures Assigned(h, g, n, key, v) && Consumed(h, g, n, src)
    ensures Confined(h, g, n, key, src, !exhausted) && Gathered(h, g, n, src)
    ensures !exhausted && !Reaches(h, n, src) ==> src in g && g[src] == NULL_BODY
  {
    hide Forest, Denotes, Consumed, Gathered, Confined;
    var e := h[n].members[key];
    OwnerAbove(h, n, e);
    assert n != src by { ReachSelf(h, src); }
    assert n in g && g[n] == h[n];
    SlotOwned(h, n, key, src);
    ReachSelf(h, e);
    ReachKid(h, n, e, e);
    if Reaches(h, e, src) { ReachTransitive(h, n, e, src); }
    if src == e {
      SameConfined(h, n, key, src);
      SameGathered(h, n, src);
    } else if exhausted {
      ReplacedConfined(h, g, n, key, v, src);
      ReplacedGathered(h, g, e, v, n, src);
    } else {
      MovedConfined(h, g, n, key, src);
      TakenGathered(h, g, n, e, src);
    }
    ExistingConsumed(h, g, n, key, v, src, exhausted);
  }

  lemma SameConfined(h: Heap, n: Node, key: Bytes, src: Node)
    requires n in h && h[n].Table? && key in h[n].members && src == h[n].members[key]
    ensures Confined(h, h, n, key, src, true)
  {
  }

  lemma SameGathered(h: Heap, n: Node, src: Node)
    ensures Gathered(h, h, n, src)
  {
  }

  lemma MovedConfined(h: Heap, g: Heap, n: Node, key: Bytes, src: Node)
    requires Forest(h) && n in h && h[n].Table? && key in h[n].members && src in h
    requires h[n].members[key] in h && g == Moved(h, h[n].members[key], src)
    ensures Confined(h, g, n, key, src, true)
  {
    hide Reaches;
    ReachSelf(h, h[n].members[key]);
  }

  lemma ReplacedConfined(h: Heap, g: Heap, n: Node, key: Bytes, v: Json, src: Node)
    requires n in h && n in g && g[n] == h[n] && h[n].Table? && key in h[n].members
    requires var e := h[n].members[key]; e in h && Owns(h[n], e) && Replaced(h, g, e, v)
    ensures Confined(h, g, n, key, src, false)
  {
    var e := h[n].members[key];
    ReachSelf(h, e);
    forall x | x in g && x !in h ensures Reaches(g, n, x) { ReachKid(g, n, e, x); }
    hide Reaches, Denotes;
  }

  // A source tree is apart from a node e that was replaced, or inside e.
  lemma ReplacedGathered(h: Heap, g: Heap, e: Node, v: Json, n: Node, src: Node)
    requires Forest(h) && e in h && src in h && Replaced(h, g, e, v) && !Reaches(h, src, e)
    ensures Gathered(h, g, n, src)
  {
    hide Forest, Denotes;
    forall x | x in g && Reaches(h, src, x) ensures Reaches(g, src, x) {
      ReachLive(h, src, x);
      if Reaches(h, e, src) {
        ReachTransitive(h, e, src, x);
      } else {
        forall y | y in h && Reaches(h, src, y) ensures y in g && g[y] == h[y] {
          if Reaches(h, e, y) { NestedOrDisjoint(h, e, src, y); }
        }
        ReachFrame(h, g, src, x);
      }
    }
  }

  lemma ExistingConsumed(h: Heap, g: Heap, n: Node, key: Bytes, v: Json, src: Node, exhausted: bool)
    requires Forest(h) && Forest(g) && n in h && h[n].Table? && key in h[n].members && src in h && !Reaches(h, src, n)
    requires var e := h[n].members[key];
      && e in h && Owns(h[n], e) && e != n && n != src
      && (e != src ==> if exhausted then Replaced(h, g, e, v) else g == Moved(h, e, src))
    ensures Consumed(h, g, n, src)
  {
    hide Forest, Denotes;
    var e := h[n].members[key];
    if IsRoot(h, src) {
      if Reaches(h, e, src) { var o := ReachViaOwner(h, e, src); }
      SlotOwned(h, n, key, src);
      if exhausted { RootStaysApart(h, g, e, v, n, src); }
      else {
        assert g[src] == NULL_BODY;
        forall a | a in g ensures !Owns(g[a], src) { if a == e { OwnSelf(h, src); } }
        EmptiedConsumed(h, g, n, src);
      }
    }
  }

  lemma OwnSelf(h: Heap, n: Node)
    requires Forest(h) && n in h
    ensures !Owns(h[n], n)
  {
    hide Denotes;
    if Owns(h[n], n) { OwnerAbove(h, n, n); }
  }

  // Replacing a node elsewhere leaves another root a root, with the same tree.
  lemma RootStaysApart(h: Heap, g: Heap, e: Node, v: Json, n: Node, src: Node)
    requires Forest(h) && Forest(g) && e in h && Replaced(h, g, e, v) && IsRoot(h, src) && src != e
    requires !Reaches(h, e, src)
    requires n in h && !Reaches(h, src, n) && !Reaches(h, src, e)
    ensures Consumed(h, g, n, src)
  {
    forall x | x in h && Reaches(h, src, x) ensures x in g && g[x] == h[x] {
      if Reaches(h, e, x) { NestedOrDisjoint(h, e, src, x); }
    }
    forall x ensures Reaches(h, src, x) <==> Reaches(g, src, x) {
      ReachFrame(h, g, src, x);
    }
    ReachSelf(h, src);
    forall a | a in g ensures !Owns(g[a], src) {
      if Owns(g[a], src) && (a == e || a !in h) {
        ReachSelf(g, src);
        ReachKid(g, a, src, src);
        assert Reaches(g, e, a);
        ReachTransitive(g, e, a, src);
      }
    }
  }

  lemma AssignedNew(h: Heap, g: Heap, n: Node, key: Bytes, c: Node, v: Json, src: Node)
    requires Forest(h) && Forest(g) && n in h && h[n].Table? && key !in h[n].members && src in h && !Reaches(h, src, n)
    requires c !in h && g == MovedUnder(h, n, Key(key), c, src) && Denotes(g, c, v)
    ensures Assigned(h, g, n, key, v) && Consumed(h, g, n, src)
    ensures Confined(h, g, n, key, src, true) && Gathered(h, g, n, src) && g[src] == NULL_BODY
  {
    hide Forest, Denotes, Reaches, Gathered, Consumed;
    assert n != src by { ReachSelf(h, src); }
    ReachSelf(g, c);
    AttachedOwns(h[n], Key(key), c, c);
    ReachKid(g, n, c, c);
    assert g[n].members - {key} == h[n].members - {key};
    TakenGathered(h, g, n, c, src);
    if IsRoot(h, src) { NewConsumed(h, g, n, key, c, src); }
    NotRootConsumed(h, g, n, src);
  }

  lemma NewConsumed(h: Heap, g: Heap, n: Node, key: Bytes, c: Node, src: Node)
    requires Forest(h) && n in h && h[n].Table? && key !in h[n].members && IsRoot(h, src) && n != src
    requires c !in h && g == MovedUnder(h, n, Key(key), c, src)
    ensures Consumed(h, g, n, src)
  {
    hide Forest, Reaches;
    OwnSelf(h, src);
    forall a | a in g ensures !Owns(g[a], src) { AttachedOwns(h[n], Key(key), c, src); }
    EmptiedConsumed(h, g, n, src);
  }

  lemma NotRootConsumed(h: Heap, g: Heap, n: Node, src: Node)
    requires IsRoot(h, src) ==> Consumed(h, g, n, src)
    ensures Consumed(h, g, n, src)
  {
  }

  // The snapshot taken of an ancestor is consumed and then destroyed; what it
  // may still hold is apart from n.
  method AssignSnapshot(d: Dom, n: Node, key: Bytes, src: Node) returns (ok: bool)
    requires d.Valid() && n in d.cells && src in d.cells
    modifies d
    ensures d.Valid()
    ensures !ok ==> d.cells == old(d.cells)
    ensures ok ==>
      && Assigned(old(d.cells), d.cells, n, key, ValueOf(old(d.cells), src))
      && Confined(old(d.cells), d.cells, n, key, src, false)
  {
    hide Forest, Denotes, Reaches, Owns, IsRoot, Assigned, Sound, IsCopy, Confined, Gathered;
    ghost var h := d.cells;
    LiveHasValue(h, src);
    ghost var v := ValueOf(h, src);
    var copy := NewTemp(d);
    TempIsSound(h, d.cells, src, copy);
    ok := CopyContentsInto(d, copy, src);
    if !ok {
      TempGone(h, copy);
      DestroyRoot(d, copy);
      assert d.cells == h;
      return;
    }
    TempCopied(h, d.cells, copy, v);
    ghost var h1 := d.cells;
    FreshParts(h, h1, copy, v, n);
    var exhausted;
    ok, exhausted := AssignDetached(d, n, key, copy);
    if ok {
      AssignedAfter(h1, d.cells, n, key, v, copy);
      AssignedSameSlots(h, h1, Without(d.cells, copy), n, key, v);
      ConfinedAfter(h, h1, d.cells, n, key, copy, src, !exhausted);
    }
    DestroyRoot(d, copy);
    assert !ok ==> d.cells == h;
  }

  // Nothing of h hangs under the snapshot, and what does not hang under n is
  // destroyed with it.
  lemma ConfinedAfter(h: Heap, h1: Heap, g: Heap, n: Node, key: Bytes, copy: Node, src: Node, moved: bool)
    requires Forest(h) && Forest(g) && n in h && n in h1 && copy in h1 && copy !in h && IsRoot(h1, copy)
    requires forall x :: x in h ==> x in h1 && h1[x] == h[x]
    requires forall x :: x in h1 ==> (Reaches(h1, copy, x) <==> x !in h)
    requires Confined(h1, g, n, key, copy, moved) && Consumed(h1, g, n, copy) && Gathered(h1, g, n, copy)
    requires n in g
    ensures Confined(h, Without(g, copy), n, key, src, false)
  {
    hide Forest;
    var r := Without(g, copy);
    forall x | x in h ensures Within(h, n, key, x) == Within(h1, n, key, x) && !Reaches(g, copy, x) {
      SameWithin(h, h1, n, key, x);
    }
    forall x | x in r && x !in h ensures Reaches(r, n, x) {
      assert Reaches(g, n, x);
      forall y | y in g && Reaches(g, n, y) ensures y in r && r[y] == g[y] {
        if Reaches(g, copy, y) {
          NestedOrDisjoint(g, copy, n, y);
          assert n != copy;
          if Reaches(g, n, copy) { var o := ReachViaOwner(g, n, copy); }
        }
      }
      ReachFrame(g, r, n, x);
    }
    hide Reaches;
  }

  lemma SameWithin(h: Heap, h1: Heap, n: Node, key: Bytes, x: Node)
    requires Forest(h) && n in h && forall x :: x in h ==> x in h1 && h1[x] == h[x]
    ensures Within(h, n, key, x) == Within(h1, n, key, x)
  {
    if h[n].Table? && key in h[n].members {
      assert Owns(h[n], h[n].members[key]);
      ReachFrame(h, h1, h[n].members[key], x);
    }
    ReachFrame(h, h1, n, x);
  }

  lemma AssignedAfter(h: Heap, g: Heap, n: Node, key: Bytes, v: Json, copy: Node)
    requires Forest(g) && n in h && Assigned(h, g, n, key, v) && IsRoot(g, copy) && !Reaches(g, copy, n)
    ensures Assigned(h, Without(g, copy), n, key, v)
  {
    var m := g[n].members[key];
    assert Owns(g[n], m);
    forall x | x in g && Reaches(g, m, x) ensures !Reaches(g, copy, x) {
      ReachKid(g, n, m, x);
      if Reaches(g, copy, x) {
        NestedOrDisjoint(g, copy, n, x);
        assert n != copy by { ReachSelf(g, n); }
        if Reaches(g, n, copy) { var o := ReachViaOwner(g, n, copy); }
      }
    }
    DenotesFrame(g, Without(g, copy), m, v);
  }

  lemma AssignedSameSlots(h: Heap, h1: Heap, g: Heap, n: Node, key: Bytes, v: Json)
    requires n in h && n in h1 && h1[n] == h[n] && Assigned(h1, g, n, key, v)
    ensures Assigned(h, g, n, key, v)
  {
  }

  lemma FreshParts(h: Heap, h1: Heap, t: Node, v: Json, n: Node)
    requires IsFreshTree(h, h1, t, v) && n in h
    ensures t in h1 && IsRoot(h1, t) && !Reaches(h1, t, n) && n in h1 && h1[n] == h[n]
    ensures HasValue(h1, t) && ValueOf(h1, t) == v
    ensures forall x :: x in h ==> x in h1 && h1[x] == h[x]
    ensures forall x :: x in h1 ==> (Reaches(h1, t, x) <==> x !in h)
  {
    ValueIs(h1, t, v);
  }

  // Consumes src, unless src contains n or a search for that ran out of memory:
  // then n gets a copy and src is as it was.
  method InsertOrAssignMove(d: Dom, n: Node, key: Bytes, src: Node) returns (ok: bool, exhausted: bool)
    requires d.Valid() && n in d.cells && src in d.cells
    modifies d
    ensures d.Valid()
    ensures !ok ==> d.cells == old(d.cells)
    ensures ok ==> Assigned(old(d.cells), d.cells, n, key, ValueOf(old(d.cells), src))
    ensures ok ==>
      Confined(old(d.cells), d.cells, n, key, src, !exhausted && !Reaches(old(d.cells), src, n))
    ensures ok && !exhausted && !Reaches(old(d.cells), src, n) && !Reaches(old(d.cells), n, src) ==>
      src in d.cells && d.cells[src] == NULL_BODY
  {
    hide Forest, Denotes, Reaches, Assigned, Confined, Gathered, Consumed;
    var inside;
    inside, exhausted := ContainsNode(d, src, n);
    if inside {
      ok := AssignSnapshot(d, n, key, src);
    } else {
      ok, exhausted := AssignDetached(d, n, key, src);
    }
  }

  // Copying the member onto itself changes nothing.
  method InsertOrAssignCopy(d: Dom, n: Node, key: Bytes, src: Node) returns (ok: bool)
    requires d.Valid() && n in d.cells && src in d.cells
    modifies d
    ensures d.Valid()
    ensures !ok ==> d.cells == old(d.cells)
    ensures ok ==>
      && Assigned(old(d.cells), d.cells, n, key, ValueOf(old(d.cells), src))
      && Confined(old(d.cells), d.cells, n, key, src, src != n && IsSlot(old(d.cells), n, key, src))
  {
    hide Forest, Denotes, Reaches, Owns, Assigned, Replaced, Inserted, Confined;
    ghost var h := d.cells;
    LiveHasValue(h, src);
    LiveHasValue(h, n);
    ReachSelf(h, n);
    ghost var v := ValueOf(h, src);
    var inside, exhausted := ContainsNode(d, src, n);
    if inside {
      ok := AssignSnapshot(d, n, key, src);
      if ok { ConfinedMore(h, d.cells, n, key, src); }
    } else if !d.cells[n].Table? {
      ok := PromoteCopy(d, n, Key(key), src);
      if ok { CopiedPromoted(h, d.cells, n, key, v, src); }
    } else if key in d.cells[n].members {
      var e := d.cells[n].members[key];
      SlotOwned(h, n, key, src);
      ok := CopyFrom(d, e, src);
      if ok { CopiedExisting(h, d.cells, n, key, v, src); }
    } else {
      var c;
      ok, c := InsertCopy(d, n, Key(key), src);
      if ok { CopiedNew(h, d.cells, n, key, c, v, src); }
    }
  }

  lemma ConfinedMore(h: Heap, g: Heap, n: Node, key: Bytes, src: Node)
    requires n in h && Confined(h, g, n, key, src, false)
    ensures Confined(h, g, n, key, src, src != n && IsSlot(h, n, key, src))
  {
    hide Reaches;
  }

  lemma CopiedPromoted(h: Heap, g: Heap, n: Node, key: Bytes, v: Json, src: Node)
    requires n in h && !h[n].Table? && Replaced(h, g, n, AttachedValue(EmptyValueFor(Key(key)), Key(key), v))
    ensures Assigned(h, g, n, key, v) && Confined(h, g, n, key, src, false)
  {
    hide Reaches;
    ReachSelf(h, n);
    assert g[n].members.Keys == {key};
    assert g[n].members - {key} == map[];
  }

  lemma CopiedExisting(h: Heap, g: Heap, n: Node, key: Bytes, v: Json, src: Node)
    requires Forest(h) && n in h && h[n].Table? && key in h[n].members && HasValue(h, src) && v == ValueOf(h, src)
    requires var e := h[n].members[key]; if src == e then g == h else Replaced(h, g, e, v)
    ensures Assigned(h, g, n, key, v) && Confined(h, g, n, key, src, src == h[n].members[key])
  {
    hide Confined;
    var e := h[n].members[key];
    assert Owns(h[n], e);
    OwnerAbove(h, n, e);
    if src == e { SameConfined(h, n, key, src); } else { ReplacedConfined(h, g, n, key, v, src); }
  }

  lemma CopiedNew(h: Heap, g: Heap, n: Node, key: Bytes, c: Node, v: Json, src: Node)
    requires n in h && h[n].Table? && key !in h[n].members && HasValue(h, n) && Inserted(h, g, n, Key(key), c, v)
    ensures Assigned(h, g, n, key, v) && Confined(h, g, n, key, src, false)
  {
    assert g[n].members - {key} == h[n].members - {key};
    AttachedOwns(h[n], Key(key), c, c);
    forall x | x in g && x !in h ensures Reaches(g, n, x) { ReachKid(g, n, c, x); }
  }
}
