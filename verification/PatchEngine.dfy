// JSON Patch (RFC 6902) on the heap: operations edit a private copy of the
// target, and one exchange of storage publishes the result.

module PatchEngine {
  import opened JsonValue
  import opened DomHeap
  import opened HeapSurgery
  import opened Teardown
  import opened DeepCopy
  import opened Ownership
  import opened Pointer
  import opened Numbers
  import opened PatchSpec
  import opened PatchBudgets
  import opened NodeEquality
  import opened Workspace

  // The working document s holds doc, next to the untouched heap h.
  ghost predicate Working(h: Heap, g: Heap, s: Node, doc: Json) {
    Forest(h) && Rooted(h, g, {s}) && Denotes(g, s, doc)
  }

  // Besides it, the engine owns one detached value t.
  ghost predicate Holding(h: Heap, g: Heap, s: Node, doc: Json, t: Node, v: Json) {
    Forest(h) && Rooted(h, g, {s, t}) && s != t && Denotes(g, s, doc) && Denotes(g, t, v)
  }

  predicate OutOfResources(code: PatchCode) {
    code == ResourceLimit || code == AllocationFailure
  }

  // ---- What one edit does to the working document ----

  lemma HoldStart(h: Heap, g0: Heap, g: Heap, s: Node, doc: Json, t: Node, v: Json)
    requires Working(h, g0, s, doc) && IsFreshTree(g0, g, t, v)
    ensures Holding(h, g, s, doc, t, v)
  {
    hide Forest, Reaches, IsRoot;
    CopyAdds(h, g0, g, {s}, t, v);
    assert {s} + {t} == {s, t};
    forall x | x in g0 && Reaches(g0, s, x) ensures x in g && g[x] == g0[x] { }
    DenotesFrame(g0, g, s, doc);
  }

  lemma HoldParts(h: Heap, g: Heap, s: Node, doc: Json, t: Node, v: Json)
    requires Holding(h, g, s, doc, t, v)
    ensures Forest(g) && IsRoot(g, t) && IsRoot(g, s) && t in g && s in g && s != t
    ensures ValueOf(g, t) == v && ValueOf(g, s) == doc
    ensures !Reaches(g, t, s) && !Reaches(g, s, t)
  {
    RootUntouched(g, t, s);
    RootUntouched(g, s, t);
    ValueIs(g, t, v);
    ValueIs(g, s, doc);
  }

  lemma WorkParts(h: Heap, g: Heap, s: Node, doc: Json)
    requires Working(h, g, s, doc)
    ensures Forest(h) && Forest(g) && s in g && s !in h && HasValue(g, s) && ValueOf(g, s) == doc
  {
    ValueIs(g, s, doc);
  }

  lemma HoldDrop(h: Heap, g: Heap, s: Node, doc: Json, t: Node, v: Json)
    requires Holding(h, g, s, doc, t, v)
    ensures Working(h, Without(g, t), s, doc)
  {
    WithoutRooted(h, g, {s, t}, t);
    assert {s, t} - {t} == {s};
  }

  lemma BelowWork(h: Heap, g: Heap, roots: set<Node>, s: Node, doc: Json, path: Path, p: Node)
    requires Rooted(h, g, roots) && s in roots && Denotes(g, s, doc) && Leads(g, s, path, p)
    ensures p in g && p !in h && Reaches(g, s, p)
    ensures Lookup(doc, path).Found? && Denotes(g, p, Lookup(doc, path).value)
  {
    LeadsDown(g, s, doc, path, p);
    NewBelow(h, g, s, p);
  }

  // Exchanging an existing value for the held one, which is then destroyed.
  lemma InstallAtPath(h: Heap, g: Heap, s: Node, doc: Json, path: Path, e: Node, t: Node, v: Json)
    requires Holding(h, g, s, doc, t, v) && Leads(g, s, path, e)
    ensures e in g && e != t && !Reaches(g, t, e) && Lookup(doc, path).Found?
    ensures Working(h, Installed(g, e, t), s, PutAt(doc, path, v))
  {
    hide Forest, Reaches, IsRoot;
    HoldParts(h, g, s, doc, t, v);
    BelowWork(h, g, {s, t}, s, doc, path, e);
    if Reaches(g, t, e) { RootsApart(g, s, t, e); }
    ReachSelf(g, t);
    InstallRooted(h, g, {s, t}, e, t);
    assert {s, t} - {t} == {s};
    InstallForest(g, e, t);
    var r := Installed(g, e, t);
    forall x | x in g && Reaches(g, s, x) && !Reaches(g, e, x) ensures x in r && r[x] == g[x] { ReachSelf(g, e); }
    EditAtPath(g, r, s, doc, path, e, v);
  }

  // Hanging the held value under a container of the working document.
  lemma AttachAtPath(h: Heap, g: Heap, s: Node, doc: Json, path: Path, p: Node, b: Body, t: Node, v: Json, w: Json)
    requires Holding(h, g, s, doc, t, v) && Leads(g, s, path, p)
    requires p in g && Gains(g[p], b, t) && GoodBody(b) && Denotes(g[p := b], p, w)
    ensures Lookup(doc, path).Found? && Working(h, g[p := b], s, PutAt(doc, path, w))
  {
    hide Reaches, Owns, GoodBody, Denotes, SingleOwner, IsRoot, Lookup, PutAt;
    HoldParts(h, g, s, doc, t, v);
    BelowWork(h, g, {s, t}, s, doc, path, p);
    RebodyForest(g, p, b, t);
    AdoptRooted(h, g, {s, t}, p, b, t);
    assert {s, t} - {t} == {s};
    var r := g[p := b];
    forall x | x in g && Reaches(g, s, x) && !Reaches(g, p, x) ensures x in r && r[x] == g[x] { ReachSelf(g, p); }
    EditAtPath(g, r, s, doc, path, p, w);
  }

  // Cutting a child loose.
  lemma ReleaseAtPath(h: Heap, g: Heap, s: Node, doc: Json, path: Path, p: Node, b: Body, c: Node, u: Json, w: Json)
    requires Working(h, g, s, doc) && Leads(g, s, path, p) && c in g && Denotes(g, c, u)
    requires p in g && Gains(b, g[p], c) && !Owns(b, c) && GoodBody(b) && Denotes(g[p := b], p, w)
    ensures Lookup(doc, path).Found? && Holding(h, g[p := b], s, PutAt(doc, path, w), c, u)
  {
    hide Reaches, Owns, GoodBody, Denotes, SingleOwner, IsRoot, Lookup, PutAt;
    BelowWork(h, g, {s}, s, doc, path, p);
    RebodyForest(g, p, b, c);
    assert Owns(g[p], c);
    OwnerAbove(g, p, c);
    ReleaseRooted(h, g, {s}, p, b, c);
    assert {s} + {c} == {s, c};
    var r := g[p := b];
    forall x | x in g && Reaches(g, s, x) && !Reaches(g, p, x) ensures x in r && r[x] == g[x] { ReachSelf(g, p); }
    EditAtPath(g, r, s, doc, path, p, w);
    RebodyKid(g, p, b, c, u);
    assert c != s by { OwnedNotRoot(g, p, c); }
  }

  lemma OwnedNotRoot(g: Heap, p: Node, c: Node)
    requires p in g && Owns(g[p], c)
    ensures !IsRoot(g, c)
  {
  }

  // ---- Bodies with one child more or less ----

  function InsertedKids(kids: seq<Node>, i: nat, c: Node): seq<Node>
    requires i <= |kids|
  {
    kids[..i] + [c] + kids[i..]
  }

  function ErasedKids(kids: seq<Node>, i: nat): seq<Node>
    requires i < |kids|
  {
    kids[..i] + kids[i + 1..]
  }

  lemma InsertElement(g: Heap, p: Node, pv: Json, i: nat, c: Node, v: Json)
    requires Forest(g) && Denotes(g, p, pv) && g[p].Vec? && i <= |g[p].kids|
    requires IsRoot(g, c) && !Reaches(g, c, p) && Denotes(g, c, v)
    ensures var b := Vec(InsertedKids(g[p].kids, i, c));
            Gains(g[p], b, c) && GoodBody(b) && pv.Arr? && Denotes(g[p := b], p, Arr(Spliced(pv.items, i, v)))
  {
    hide Forest, Reaches;
    var kids := g[p].kids;
    var b := Vec(InsertedKids(kids, i, c));
    InsertGains(g[p], i, c);
    assert GoodBody(b) by { ForestKids(g, p); InsertDistinct(g[p], i, c); }
    RebodyKids(g, p, b, c);
    ValueIs(g, c, v);
    forall j | 0 <= j < |b.kids| ensures Denotes(g[p := b], b.kids[j], Spliced(pv.items, i, v)[j]) {
      assert Owns(b, b.kids[j]);
      if j != i { ValueIs(g, b.kids[j], pv.items[if j < i then j else j - 1]); }
    }
  }

  lemma InsertDistinct(a: Body, i: nat, c: Node)
    requires a.Vec? && i <= |a.kids| && GoodBody(a) && !Owns(a, c)
    ensures GoodBody(Vec(InsertedKids(a.kids, i, c)))
  {
    var b := Vec(InsertedKids(a.kids, i, c));
    forall j, k | 0 <= j < k < |b.kids| ensures b.kids[j] != b.kids[k] {
      if j == i || k == i { var o := if j == i then k - 1 else j; assert Owns(a, a.kids[o]); }
    }
  }

  lemma InsertGains(a: Body, i: nat, c: Node)
    requires a.Vec? && i <= |a.kids|
    ensures Gains(a, Vec(InsertedKids(a.kids, i, c)), c)
  {
    var b := Vec(InsertedKids(a.kids, i, c));
    forall k ensures Owns(b, k) <==> Owns(a, k) || k == c {
      assert b.kids[i] == c;
      if Owns(a, k) {
        var j :| 0 <= j < |a.kids| && a.kids[j] == k;
        assert b.kids[if j < i then j else j + 1] == k;
      }
      if Owns(b, k) && k != c {
        var j :| 0 <= j < |b.kids| && b.kids[j] == k;
        assert a.kids[if j < i then j else j - 1] == k;
      }
    }
  }

  lemma EraseElement(g: Heap, p: Node, pv: Json, i: nat)
    requires Forest(g) && Denotes(g, p, pv) && g[p].Vec? && i < |g[p].kids|
    ensures var b := Vec(ErasedKids(g[p].kids, i)); var c := g[p].kids[i];
            && Gains(b, g[p], c) && !Owns(b, c) && GoodBody(b)
            && pv.Arr? && i < |pv.items| && Denotes(g[p := b], p, Arr(Cut(pv.items, i)))
            && c in g && Denotes(g, c, pv.items[i])
  {
    hide Forest, Reaches;
    var kids := g[p].kids;
    var b := Vec(ErasedKids(kids, i));
    var c := kids[i];
    assert GoodBody(g[p]) by { ForestKids(g, p); }
    EraseGains(g[p], i);
    RebodyKids(g, p, b, c);
    forall j | 0 <= j < |b.kids| ensures Denotes(g[p := b], b.kids[j], Cut(pv.items, i)[j]) {
      assert Owns(b, b.kids[j]);
      ValueIs(g, b.kids[j], pv.items[if j < i then j else j + 1]);
    }
  }

  lemma EraseGains(a: Body, i: nat)
    requires a.Vec? && i < |a.kids| && GoodBody(a)
    ensures var b := Vec(ErasedKids(a.kids, i));
            Gains(b, a, a.kids[i]) && !Owns(b, a.kids[i]) && GoodBody(b)
  {
    var b := Vec(ErasedKids(a.kids, i));
    forall k ensures Owns(a, k) <==> Owns(b, k) || k == a.kids[i] {
      if Owns(a, k) && k != a.kids[i] {
        var j :| 0 <= j < |a.kids| && a.kids[j] == k;
        assert b.kids[if j < i then j else j - 1] == k;
      }
    }
  }

  lemma InsertMember(g: Heap, p: Node, pv: Json, key: Bytes, c: Node, v: Json)
    requires Forest(g) && Denotes(g, p, pv) && g[p].Table? && key !in g[p].members
    requires IsRoot(g, c) && !Reaches(g, c, p) && Denotes(g, c, v)
    ensures var b := Table(g[p].members[key := c]);
            Gains(g[p], b, c) && GoodBody(b) && pv.Obj? && Denotes(g[p := b], p, Obj(pv.members[key := v]))
  {
    hide Forest, Reaches;
    var b := Table(g[p].members[key := c]);
    forall k ensures Owns(b, k) <==> Owns(g[p], k) || k == c { AttachedOwns(g[p], Key(key), c, k); }
    AttachShape(g, p, Key(key), c) by { DenotesLive(g, p, pv); }
    RebodyKids(g, p, b, c);
    ValueIs(g, c, v);
    forall k | k in b.members ensures Denotes(g[p := b], b.members[k], pv.members[key := v][k]) {
      assert Owns(b, b.members[k]);
      if k != key { ValueIs(g, b.members[k], pv.members[k]); }
    }
  }

  lemma DenotesLive(g: Heap, p: Node, pv: Json)
    requires Denotes(g, p, pv)
    ensures p in g
  {
  }

  lemma EraseMember(g: Heap, p: Node, pv: Json, key: Bytes)
    requires Forest(g) && Denotes(g, p, pv) && g[p].Table? && key in g[p].members
    ensures var b := Table(g[p].members - {key}); var c := g[p].members[key];
            && Gains(b, g[p], c) && !Owns(b, c) && GoodBody(b)
            && pv.Obj? && key in pv.members && Denotes(g[p := b], p, Obj(pv.members - {key}))
            && c in g && Denotes(g, c, pv.members[key])
  {
    hide Forest, Reaches;
    var b := Table(g[p].members - {key});
    var c := g[p].members[key];
    assert GoodBody(g[p]) by { ForestKids(g, p); }
    EraseKeyGains(g[p], key);
    RebodyKids(g, p, b, c);
    forall k | k in b.members ensures Denotes(g[p := b], b.members[k], (pv.members - {key})[k]) {
      assert Owns(b, b.members[k]);
      ValueIs(g, b.members[k], pv.members[k]);
    }
  }

  lemma EraseKeyGains(a: Body, key: Bytes)
    requires a.Table? && key in a.members && GoodBody(a)
    ensures var b := Table(a.members - {key});
            Gains(b, a, a.members[key]) && !Owns(b, a.members[key]) && GoodBody(b)
  {
    var b := Table(a.members - {key});
    forall k ensures Owns(a, k) <==> Owns(b, k) || k == a.members[key] {
      if Owns(a, k) && k != a.members[key] {
        var j :| j in a.members && a.members[j] == k;
        assert j in b.members && b.members[j] == k;
      }
    }
  }

  // ---- Resolution ----

  lemma {:induction false} LeadsSnoc(g: Heap, n: Node, path: Path, p: Node, token: Bytes, e: Node)
    requires Leads(g, n, path, p) && p in g && e in g && ChildNode(g[p], token) == To(e)
    ensures Leads(g, n, path + [token], e)
    decreases |path|
  {
    var longer := path + [token];
    if path == [] {
      assert longer[1..] == [];
    } else {
      assert longer[1..] == path[1..] + [token];
      LeadsSnoc(g, ChildNode(g[n], path[0]).node, path[1..], p, token, e);
    }
  }

  // Changing the node a path leads to does not bend the path.
  lemma {:induction false} LeadsKept(g: Heap, r: Heap, n: Node, path: Path, p: Node)
    requires Forest(g) && Leads(g, n, path, p) && p in r
    requires forall x :: x in g && x != p ==> x in r && r[x] == g[x]
    ensures Leads(r, n, path, p)
    decreases |path|
  {
    hide Forest, Denotes;
    if path != [] {
      var k := ChildNode(g[n], path[0]).node;
      OwnerAbove(g, n, k);
      LiveHasValue(g, k);
      LeadsDown(g, k, ValueOf(g, k), path[1..], p);
      LeadsKept(g, r, k, path[1..], p);
    }
  }

  // Where add puts a node: an array that took it at this token had one element
  // less.
  predicate Takes(b: Body, token: Bytes, t: Node) {
    match b
    case Table(members) => token in members && members[token] == t
    case Vec(kids) =>
      |kids| > 0 && (match InsertionIndex(token, |kids| - 1)
                     case At(i) => kids[i] == t
                     case NoPosition(_) => false)
    case Leaf(_) => false
  }

  // t itself stands at the path in the tree at s.
  ghost predicate Landed(g: Heap, s: Node, path: Path, t: Node) {
    path != [] && exists p :: p in g && Leads(g, s, path[..|path| - 1], p) && Takes(g[p], path[|path| - 1], t)
  }

  lemma LandedAt(g: Heap, r: Heap, s: Node, parent: Path, token: Bytes, p: Node, t: Node)
    requires Forest(g) && Leads(g, s, parent, p) && p in r && r == g[p := r[p]] && Takes(r[p], token, t)
    ensures Landed(r, s, parent + [token], t)
  {
    LeadsKept(g, r, s, parent, p);
    var path := parent + [token];
    assert path[..|path| - 1] == parent && path[|path| - 1] == token;
  }

  // Walks the first count tokens down from s.
  method Resolve(d: Dom, s: Node, tokens: Path, count: nat, budget: PatchBudget, ghost doc: Json)
    returns (code: PatchCode, p: Node)
    requires Denotes(d.cells, s, doc) && count <= |tokens| && budget.Valid()
    modifies budget
    ensures budget.Valid()
    ensures code == Fine ==>
      Leads(d.cells, s, tokens[..count], p) && p in d.cells && Lookup(doc, tokens[..count]).Found?
    ensures code != Fine && code != ResourceLimit ==>
      Lookup(doc, tokens[..count]).Missing? && code == PatchCodeOf(Lookup(doc, tokens[..count]).code)
    ensures code != AllocationFailure
  {
    p := s;
    var ok := budget.ChargeWork(count + 1);
    if !ok { return ResourceLimit, p; }
    ghost var here := doc;
    ghost var path := tokens[..count];
    var i := 0;
    assert path[0..] == path;
    while i < count
      invariant 0 <= i <= count && budget.Valid() && Denotes(d.cells, p, here)
      invariant Lookup(doc, path) == Lookup(here, path[i..])
      invariant forall q :: Leads(d.cells, p, path[i..], q) ==> Leads(d.cells, s, path, q)
    {
      var token := tokens[i];
      assert path[i..][0] == token && path[i..][1..] == path[i + 1..];
      ChildAgrees(d.cells, p, here, token);
      match ChildNode(d.cells[p], token) {
        case Off(c) => return PatchCodeOf(c), p;
        case To(k) =>
          p := k;
          here := Child(here, token).value;
      }
      i := i + 1;
    }
    assert path[count..] == [];
    assert Leads(d.cells, p, [], p);
    code := Fine;
  }

  // ---- Owned values ----

  // A private copy of src, on the caller's stack or in a node of its own.
  method CloneTree(d: Dom, src: Node, local: bool) returns (ok: bool, t: Node)
    requires d.Valid() && src in d.cells
    modifies d
    ensures d.Valid()
    ensures !ok ==> d.cells == old(d.cells)
    ensures ok ==> IsFreshTree(old(d.cells), d.cells, t, ValueOf(old(d.cells), src))
  {
    hide Forest, Denotes, Reaches, Owns, Sound, IsCopy, IsRoot, IsFreshTree;
    ghost var h := d.cells;
    assert HasValue(h, src) by { LiveHasValue(h, src); }
    ok := true;
    if local {
      t := NewTemp(d);
    } else {
      t, ok := d.MakeNode();
      if !ok { return; }
      assert IsRoot(d.cells, t) by { TempGone(h, t); }
    }
    TempIsSound(h, d.cells, src, t);
    ok := CopyContentsInto(d, t, src);
    if ok {
      TempCopied(h, d.cells, t, ValueOf(h, src));
    } else {
      TempGone(h, t);
      DestroyRoot(d, t);
      assert d.cells == h;
    }
  }

  // The destructor of an owned value.
  method Discard(d: Dom, t: Node, ghost h: Heap, s: Node, ghost doc: Json, ghost v: Json)
    requires d.Valid() && Holding(h, d.cells, s, doc, t, v)
    modifies d
    ensures d.Valid() && Working(h, d.cells, s, doc)
  {
    hide Forest, Holding, Working;
    HoldParts(h, d.cells, s, doc, t, v);
    HoldDrop(h, d.cells, s, doc, t, v);
    DestroyRoot(d, t);
  }

  // Exchanges the value at e with the owned one, whose destructor then runs.
  method Exchange(d: Dom, e: Node, t: Node, ghost h: Heap, s: Node, ghost doc: Json, ghost path: Path, ghost v: Json)
    requires d.Valid() && Holding(h, d.cells, s, doc, t, v) && Leads(d.cells, s, path, e)
    modifies d
    ensures d.Valid() && Lookup(doc, path).Found? && Working(h, d.cells, s, PutAt(doc, path, v))
  {
    hide Forest, Holding, Working, Leads, IsRoot, Reaches;
    HoldParts(h, d.cells, s, doc, t, v);
    InstallAtPath(h, d.cells, s, doc, path, e, t, v);
    Install(d, e, t);
  }

  // The working document is what the specification says it becomes.
  ghost predicate Edited(h: Heap, g: Heap, s: Node, r: PatchSpec.Result) {
    r.Done? && Working(h, g, s, r.value)
  }

  // What a failed edit may report.
  predicate Blames(code: PatchCode, r: PatchSpec.Result) {
    OutOfResources(code) || (r == Fail(code) && code != Fine)
  }

  lemma LeafParent(g: Heap, p: Node, pv: Json, e: Edit, token: Bytes)
    requires Denotes(g, p, pv) && g[p].Leaf?
    ensures EditHere(e, pv, token) == Fail(TargetMissing)
  {
  }

  // add replaces what is there, rather than making room.
  ghost predicate Occupied(doc: Json, path: Path) {
    path == [] ||
    (var parent := Lookup(doc, path[..|path| - 1]);
     parent.Found? && parent.value.Obj? && path[|path| - 1] in parent.value.members)
  }

  // add: an existing member is replaced, a new one attached, an array element
  // inserted. Consumes t; without a replacement, no node comes or goes and the
  // tree at t moves into the document as it is, to the place named.
  method AddOwned(d: Dom, s: Node, tokens: Path, t: Node, budget: PatchBudget, ghost h: Heap, ghost doc: Json,
                  ghost v: Json)
    returns (code: PatchCode)
    requires d.Valid() && budget.Valid() && Holding(h, d.cells, s, doc, t, v)
    modifies d, budget
    ensures d.Valid() && budget.Valid()
    ensures code == Fine ==> Edited(h, d.cells, s, Apply(Insert(v), doc, tokens))
    ensures code == Fine && !Occupied(doc, tokens) ==>
      && Landed(d.cells, s, tokens, t)
      && d.cells.Keys == old(d.cells).Keys && d.freed == old(d.freed)
      && forall x :: x in old(d.cells) && Reaches(old(d.cells), t, x) ==> d.cells[x] == old(d.cells)[x]
    ensures code != Fine ==> Working(h, d.cells, s, doc) && Blames(code, Apply(Insert(v), doc, tokens))
  {
    hide Forest, Holding, Working, Leads, Denotes, Reaches, Lookup, Apply, EditHere, Landed;
    HoldParts(h, d.cells, s, doc, t, v);
    assert Denotes(d.cells, s, doc) by { HoldDenotes(h, d.cells, s, doc, t, v); }
    if tokens == [] {
      RootEdit(d.cells, s, doc, v);
      Exchange(d, s, t, h, s, doc, [], v);
      return Fine;
    }
    var last := |tokens| - 1;
    ghost var parent := tokens[..last];
    var token := tokens[last];
    ApplyAtParent(Insert(v), doc, tokens);
    var p;
    code, p := Resolve(d, s, tokens, last, budget, doc);
    if code != Fine {
      Discard(d, t, h, s, doc, v);
      return;
    }
    LeadsDown(d.cells, s, doc, parent, p);
    assert d.cells[p].Table? && token in d.cells[p].members ==> Occupied(doc, tokens) by {
      ObjectAt(d.cells, p, Lookup(doc, parent).value);
    }
    assert parent + [token] == tokens;
    match d.cells[p] {
      case Table(members) =>
        code := AddMember(d, s, p, token, t, budget, h, doc, parent, v);
      case Vec(kids) =>
        code := AddElement(d, s, p, token, t, budget, h, doc, parent, v);
      case Leaf(_) =>
        LeafParent(d.cells, p, Lookup(doc, parent).value, Insert(v), token);
        Discard(d, t, h, s, doc, v);
        code := TargetMissing;
    }
  }

  lemma HoldDenotes(h: Heap, g: Heap, s: Node, doc: Json, t: Node, v: Json)
    requires Holding(h, g, s, doc, t, v)
    ensures Denotes(g, s, doc) && Denotes(g, t, v)
  {
  }

  lemma RootEdit(g: Heap, s: Node, doc: Json, v: Json)
    requires s in g
    ensures Leads(g, s, [], s) && Apply(Insert(v), doc, []) == Done(v) && Apply(Overwrite(v), doc, []) == Done(v)
    ensures Lookup(doc, []).Found? && PutAt(doc, [], v) == v
    ensures Apply(Remove, doc, []) == Done(Null) && Lookup(doc, []) == Found(doc)
  {
  }

  method AddMember(d: Dom, s: Node, p: Node, token: Bytes, t: Node, budget: PatchBudget,
                   ghost h: Heap, ghost doc: Json, ghost parent: Path, ghost v: Json)
    returns (code: PatchCode)
    requires d.Valid() && budget.Valid() && Holding(h, d.cells, s, doc, t, v)
    requires Leads(d.cells, s, parent, p) && p in d.cells && d.cells[p].Table? && Lookup(doc, parent).Found?
    modifies d, budget
    ensures d.Valid() && budget.Valid()
    ensures code == Fine ==>
      && EditHere(Insert(v), Lookup(doc, parent).value, token).Done?
      && Working(h, d.cells, s, PutAt(doc, parent, EditHere(Insert(v), Lookup(doc, parent).value, token).value))
    ensures code != Fine ==> Working(h, d.cells, s, doc) && OutOfResources(code)
    ensures code == Fine && token !in old(d.cells)[p].members ==>
      && Landed(d.cells, s, parent + [token], t)
      && d.cells.Keys == old(d.cells).Keys && d.freed == old(d.freed)
      && forall x :: x in old(d.cells) && Reaches(old(d.cells), t, x) ==> d.cells[x] == old(d.cells)[x]
  {
    hide Forest, Holding, Working, Leads, Denotes, Reaches, Lookup, PutAt, Gains, GoodBody, IsRoot, Landed;
    ghost var pv := Lookup(doc, parent).value;
    HoldDenotes(h, d.cells, s, doc, t, v);
    HoldParts(h, d.cells, s, doc, t, v);
    LeadsDown(d.cells, s, doc, parent, p);
    assert pv.Obj? && pv.members.Keys == d.cells[p].members.Keys by { ObjectAt(d.cells, p, pv); }
    if token in d.cells[p].members {
      var e := d.cells[p].members[token];
      assert e in d.cells by { EraseMember(d.cells, p, pv, token); }
      LeadsSnoc(d.cells, s, parent, p, token, e);
      Exchange(d, e, t, h, s, doc, parent + [token], v);
      MemberPut(doc, parent, token, v);
      return Fine;
    }
    var ok := budget.ChargeBytes(|token|);
    if !ok {
      Discard(d, t, h, s, doc, v);
      return ResourceLimit;
    }
    ok := d.Allocate();
    if !ok {
      Discard(d, t, h, s, doc, v);
      return AllocationFailure;
    }
    assert !Reaches(d.cells, t, p) by { NotUnderHeld(h, d.cells, s, doc, t, v, p); }
    InsertMember(d.cells, p, pv, token, t, v);
    AttachAtPath(h, d.cells, s, doc, parent, p, Table(d.cells[p].members[token := t]), t, v,
                 Obj(pv.members[token := v]));
    ghost var g := d.cells;
    d.cells := d.cells[p := Table(d.cells[p].members[token := t])];
    LandedAt(g, d.cells, s, parent, token, p, t);
    assert Forest(d.cells) by { WorkParts(h, d.cells, s, PutAt(doc, parent, Obj(pv.members[token := v]))); }
    code := Fine;
  }

  lemma ObjectAt(g: Heap, p: Node, pv: Json)
    requires Denotes(g, p, pv)
    ensures g[p].Table? ==> pv.Obj? && pv.members.Keys == g[p].members.Keys
    ensures g[p].Vec? ==> pv.Arr? && |pv.items| == |g[p].kids|
  {
  }

  lemma NotUnderHeld(h: Heap, g: Heap, s: Node, doc: Json, t: Node, v: Json, p: Node)
    requires Holding(h, g, s, doc, t, v) && Reaches(g, s, p)
    ensures !Reaches(g, t, p)
  {
    if Reaches(g, t, p) { RootsApart(g, s, t, p); }
  }

  lemma MemberPut(doc: Json, parent: Path, token: Bytes, v: Json)
    requires Lookup(doc, parent + [token]).Found?
    ensures Lookup(doc, parent).Found?
    ensures var pv := Lookup(doc, parent).value;
            && Child(pv, token).Found?
            && PutAt(doc, parent + [token], v) == PutAt(doc, parent, WithChild(pv, token, v))
            && EditHere(Overwrite(v), pv, token) == Done(WithChild(pv, token, v))
            && (pv.Obj? ==> EditHere(Insert(v), pv, token) == Done(WithChild(pv, token, v)))
  {
    var path := parent + [token];
    assert path[..|path| - 1] == parent && path[|path| - 1] == token;
    PutAtParent(doc, path, v);
  }

  method AddElement(d: Dom, s: Node, p: Node, token: Bytes, t: Node, budget: PatchBudget,
                    ghost h: Heap, ghost doc: Json, ghost parent: Path, ghost v: Json)
    returns (code: PatchCode)
    requires d.Valid() && budget.Valid() && Holding(h, d.cells, s, doc, t, v)
    requires Leads(d.cells, s, parent, p) && p in d.cells && d.cells[p].Vec? && Lookup(doc, parent).Found?
    modifies d, budget
    ensures d.Valid() && budget.Valid()
    ensures code == Fine ==>
      && EditHere(Insert(v), Lookup(doc, parent).value, token).Done?
      && Working(h, d.cells, s, PutAt(doc, parent, EditHere(Insert(v), Lookup(doc, parent).value, token).value))
    ensures code != Fine ==>
      Working(h, d.cells, s, doc) && Blames(code, EditHere(Insert(v), Lookup(doc, parent).value, token))
    ensures code == Fine ==>
      && Landed(d.cells, s, parent + [token], t)
      && d.cells.Keys == old(d.cells).Keys && d.freed == old(d.freed)
      && forall x :: x in old(d.cells) && Reaches(old(d.cells), t, x) ==> d.cells[x] == old(d.cells)[x]
  {
    hide Forest, Holding, Working, Leads, Denotes, Reaches, Lookup, PutAt, Gains, GoodBody, IsRoot, Landed;
    ghost var pv := Lookup(doc, parent).value;
    HoldDenotes(h, d.cells, s, doc, t, v);
    HoldParts(h, d.cells, s, doc, t, v);
    LeadsDown(d.cells, s, doc, parent, p);
    assert pv.Arr? && |pv.items| == |d.cells[p].kids| by { ObjectAt(d.cells, p, pv); }
    var kids := d.cells[p].kids;
    var position := InsertionIndex(token, |kids|);
    if position.NoPosition? {
      Discard(d, t, h, s, doc, v);
      return PatchCodeOf(position.code);
    }
    var ok := budget.ChargeWork(|kids| - position.index);
    if !ok {
      Discard(d, t, h, s, doc, v);
      return ResourceLimit;
    }
    ok := d.Allocate();
    if !ok {
      Discard(d, t, h, s, doc, v);
      return AllocationFailure;
    }
    assert !Reaches(d.cells, t, p) by { NotUnderHeld(h, d.cells, s, doc, t, v, p); }
    InsertElement(d.cells, p, pv, position.index, t, v);
    ghost var w := Arr(Spliced(pv.items, position.index, v));
    AttachAtPath(h, d.cells, s, doc, parent, p, Vec(InsertedKids(kids, position.index, t)), t, v, w);
    ghost var g := d.cells;
    d.cells := d.cells[p := Vec(InsertedKids(kids, position.index, t))];
    LandedAt(g, d.cells, s, parent, token, p, t);
    assert Forest(d.cells) by { WorkParts(h, d.cells, s, PutAt(doc, parent, w)); }
    code := Fine;
  }

  // replace: the complete target must exist. Consumes t.
  method ReplaceOwned(d: Dom, s: Node, tokens: Path, t: Node, budget: PatchBudget, ghost h: Heap, ghost doc: Json,
                      ghost v: Json)
    returns (code: PatchCode)
    requires d.Valid() && budget.Valid() && Holding(h, d.cells, s, doc, t, v)
    modifies d, budget
    ensures d.Valid() && budget.Valid()
    ensures code == Fine ==> Edited(h, d.cells, s, Apply(Overwrite(v), doc, tokens))
    ensures code != Fine ==> Working(h, d.cells, s, doc) && Blames(code, Apply(Overwrite(v), doc, tokens))
  {
    hide Forest, Holding, Working, Leads, Denotes, Reaches, Lookup, Apply, EditHere, PutAt;
    HoldParts(h, d.cells, s, doc, t, v);
    assert Denotes(d.cells, s, doc) by { HoldDenotes(h, d.cells, s, doc, t, v); }
    if tokens == [] {
      RootEdit(d.cells, s, doc, v);
      Exchange(d, s, t, h, s, doc, [], v);
      return Fine;
    }
    var last := |tokens| - 1;
    ghost var parent := tokens[..last];
    var token := tokens[last];
    ApplyAtParent(Overwrite(v), doc, tokens);
    var p;
    code, p := Resolve(d, s, tokens, last, budget, doc);
    if code != Fine {
      Discard(d, t, h, s, doc, v);
      return;
    }
    LeadsDown(d.cells, s, doc, parent, p);
    SlotMissing(d.cells, p, Lookup(doc, parent).value, Overwrite(v), token);
    var e;
    match d.cells[p] {
      case Table(members) =>
        if token !in members {
          Discard(d, t, h, s, doc, v);
          return TargetMissing;
        }
        e := members[token];
      case Vec(kids) =>
        var position := ExistingIndex(token, |kids|);
        if position.NoPosition? {
          Discard(d, t, h, s, doc, v);
          return PatchCodeOf(position.code);
        }
        e := kids[position.index];
      case Leaf(_) =>
        Discard(d, t, h, s, doc, v);
        return TargetMissing;
    }
    assert e in d.cells by { KidLive(d.cells, p, e); }
    LeadsSnoc(d.cells, s, parent, p, token, e);
    Exchange(d, e, t, h, s, doc, parent + [token], v);
    MemberPut(doc, parent, token, v);
    code := Fine;
  }

  // Where the slot does not exist, nothing can be replaced or removed.
  lemma SlotMissing(g: Heap, p: Node, pv: Json, e: Edit, token: Bytes)
    requires Denotes(g, p, pv) && !e.Insert?
    ensures match ChildNode(g[p], token)
            case Off(code) => EditHere(e, pv, token) == Fail(PatchCodeOf(code))
            case To(_) => true
  {
  }

  lemma KidLive(g: Heap, p: Node, e: Node)
    requires Forest(g) && p in g && Owns(g[p], e)
    ensures e in g
  {
  }

  // Emptying the root: its contents move to a node of their own.
  lemma SwapWork(h: Heap, g: Heap, s: Node, doc: Json, t: Node, v: Json)
    requires Holding(h, g, s, doc, t, v)
    ensures Holding(h, Swapped(g, s, t), s, v, t, doc) && Forest(Swapped(g, s, t))
  {
    hide Reaches, SingleOwner, Denotes;
    HoldParts(h, g, s, doc, t, v);
    var r := Swapped(g, s, t);
    SwapForest(g, s, t);
    hide Owns, Forest;
    SwapWorkRoots(h, g, s, t);
    SwapWorkApart(h, g, s, t);
  }

  lemma SwapWorkRoots(h: Heap, g: Heap, s: Node, t: Node)
    requires s in g && t in g && (forall x | x in g && x !in h :: x in {s, t} <==> IsRoot(g, x))
    ensures forall x | x in Swapped(g, s, t) && x !in h :: x in {s, t} <==> IsRoot(Swapped(g, s, t), x)
  {
    hide IsRoot;
    forall x | x in Swapped(g, s, t) && x !in h ensures x in {s, t} <==> IsRoot(Swapped(g, s, t), x) {
      SwapRoots(g, s, t, x);
    }
  }

  lemma SwapWorkApart(h: Heap, g: Heap, s: Node, t: Node)
    requires s in g && t in g && s !in h && t !in h && (forall o, k | o in g && o !in h && Owns(g[o], k) :: k !in h)
    ensures forall o, k | o in Swapped(g, s, t) && o !in h && Owns(Swapped(g, s, t)[o], k) :: k !in h
  {
    hide Owns;
    var r := Swapped(g, s, t);
    forall o, k | o in r && o !in h && Owns(r[o], k) ensures k !in h {
      assert Owns(g[if o == s then t else if o == t then s else o], k);
    }
  }

  lemma SwapRoots(g: Heap, a: Node, b: Node, x: Node)
    requires a in g && b in g
    ensures IsRoot(Swapped(g, a, b), x) <==> IsRoot(g, x)
  {
    var r := Swapped(g, a, b);
    if !IsRoot(g, x) && x in g {
      var o :| o in g && Owns(g[o], x);
      assert Owns(r[if o == a then b else if o == b then a else o], x);
    }
    if IsRoot(g, x) {
      forall o | o in r ensures !Owns(r[o], x) { assert !Owns(g[if o == a then b else if o == b then a else o], x); }
    }
  }

  // The working document after a removal, and what was removed.
  ghost predicate Detached(h: Heap, g: Heap, s: Node, doc: Json, path: Path, t: Node) {
    && Lookup(doc, path).Found? && Apply(Remove, doc, path).Done?
    && Holding(h, g, s, Apply(Remove, doc, path).value, t, Lookup(doc, path).value)
  }

  // Cuts the value at a path loose without destroying it. No node comes or
  // goes, unless the whole document is cut loose from its root.
  method DetachAt(d: Dom, s: Node, tokens: Path, budget: PatchBudget, ghost h: Heap, ghost doc: Json)
    returns (code: PatchCode, t: Node)
    requires d.Valid() && budget.Valid() && Working(h, d.cells, s, doc)
    modifies d, budget
    ensures d.Valid() && budget.Valid()
    ensures code == Fine ==> Detached(h, d.cells, s, doc, tokens, t)
    ensures code == Fine && tokens != [] ==> d.cells.Keys == old(d.cells).Keys && d.freed == old(d.freed)
    ensures code == Fine && tokens != [] ==> Leads(old(d.cells), s, tokens, t)
    ensures code != Fine ==> Working(h, d.cells, s, doc) && Blames(code, Apply(Remove, doc, tokens))
  {
    hide Forest, Holding, Working, Leads, Denotes, Reaches, Lookup, Apply, EditHere, PutAt;
    WorkParts(h, d.cells, s, doc);
    assert Denotes(d.cells, s, doc) by { WorkDenotes(h, d.cells, s, doc); }
    t := s;
    if tokens == [] {
      code, t := DetachRoot(d, s, budget, h, doc);
      RootEdit(d.cells, s, doc, Null) by { WorkLive(h, d.cells, s, doc, t, code); }
      return;
    }
    var last := |tokens| - 1;
    ghost var parent := tokens[..last];
    var token := tokens[last];
    ApplyAtParent(Remove, doc, tokens);
    var p;
    code, p := Resolve(d, s, tokens, last, budget, doc);
    if code != Fine { return; }
    LeadsDown(d.cells, s, doc, parent, p);
    ghost var pv := Lookup(doc, parent).value;
    SlotMissing(d.cells, p, pv, Remove, token);
    var b;
    match d.cells[p] {
      case Table(members) =>
        if token !in members { return TargetMissing, s; }
        t := members[token];
        b := Table(members - {token});
        EraseMember(d.cells, p, pv, token);
        assert EditHere(Remove, pv, token) == Done(Obj(pv.members - {token})) by { MemberErased(pv, token); }
      case Vec(kids) =>
        var position := ExistingIndex(token, |kids|);
        if position.NoPosition? { return PatchCodeOf(position.code), s; }
        var ok := budget.ChargeWork(|kids| - position.index - 1);
        if !ok { return ResourceLimit, s; }
        t := kids[position.index];
        b := Vec(ErasedKids(kids, position.index));
        EraseElement(d.cells, p, pv, position.index);
        assert EditHere(Remove, pv, token) == Done(Arr(Cut(pv.items, position.index))) by {
          ElementErased(d.cells, p, pv, token);
        }
      case Leaf(_) => return TargetMissing, s;
    }
    LeadsSnoc(d.cells, s, parent, p, token, t);
    assert parent + [token] == tokens;
    LeadsDown(d.cells, s, doc, tokens, t);
    ReleaseAtPath(h, d.cells, s, doc, parent, p, b, t, Lookup(doc, tokens).value, EditHere(Remove, pv, token).value);
    d.cells := d.cells[p := b];
    HoldParts(h, d.cells, s, Apply(Remove, doc, tokens).value, t, Lookup(doc, tokens).value);
    code := Fine;
  }

  lemma WorkDenotes(h: Heap, g: Heap, s: Node, doc: Json)
    requires Working(h, g, s, doc)
    ensures Denotes(g, s, doc)
  {
  }

  lemma MemberErased(pv: Json, token: Bytes)
    requires pv.Obj? && token in pv.members
    ensures EditHere(Remove, pv, token) == Done(Obj(pv.members - {token}))
  {
  }

  lemma ElementErased(g: Heap, p: Node, pv: Json, token: Bytes)
    requires Denotes(g, p, pv) && g[p].Vec? && ExistingIndex(token, |g[p].kids|).At?
    ensures pv.Arr? && ExistingIndex(token, |g[p].kids|).index < |pv.items|
    ensures EditHere(Remove, pv, token) == Done(Arr(Cut(pv.items, ExistingIndex(token, |g[p].kids|).index)))
  {
  }

  lemma WorkLive(h: Heap, g: Heap, s: Node, doc: Json, t: Node, code: PatchCode)
    requires if code == Fine then Holding(h, g, s, Null, t, doc) else Working(h, g, s, doc)
    ensures s in g
  {
    if code == Fine { HoldParts(h, g, s, Null, t, doc); } else { WorkParts(h, g, s, doc); }
  }

  method DetachRoot(d: Dom, s: Node, budget: PatchBudget, ghost h: Heap, ghost doc: Json)
    returns (code: PatchCode, t: Node)
    requires d.Valid() && budget.Valid() && Working(h, d.cells, s, doc)
    modifies d, budget
    ensures d.Valid() && budget.Valid()
    ensures code == Fine ==> Holding(h, d.cells, s, Null, t, doc)
    ensures code != Fine ==> Working(h, d.cells, s, doc) && OutOfResources(code)
  {
    hide Forest, Holding, Working, Denotes, Reaches, IsRoot, IsFreshTree;
    t := s;
    var ok := budget.ChargeNodes(1);
    if !ok { return ResourceLimit, t; }
    ok := budget.ChargeBytes(NODE_BYTES);
    if !ok { return ResourceLimit, t; }
    ghost var g0 := d.cells;
    t, ok := d.MakeNode();
    if !ok { return AllocationFailure, t; }
    NullIsFresh(g0, t);
    HoldStart(h, g0, d.cells, s, doc, t, Null);
    HoldParts(h, d.cells, s, doc, t, Null);
    SwapWork(h, d.cells, s, doc, t, Null);
    SwapStorage(d, s, t);
    code := Fine;
  }

  lemma NullIsFresh(g: Heap, t: Node)
    requires Forest(g) && t !in g
    ensures IsFreshTree(g, g[t := NULL_BODY], t, Null)
  {
    TempGone(g, t);
    FreshForest(g, t, NULL_BODY);
    NullDenotes(g[t := NULL_BODY], t);
  }

  // ---- Operations ----

  // An operation whose value is still a node of the patch document.
  datatype NodeOp =
    | AddNode(path: Path, value: Node)
    | RemoveNode(path: Path)
    | ReplaceNode(path: Path, value: Node)
    | TestNode(path: Path, value: Node)
    | CopyNode(from: Path, path: Path)
    | MoveNode(from: Path, path: Path)

  ghost predicate OpLive(h: Heap, op: NodeOp) {
    match op
    case AddNode(_, x) => x in h
    case ReplaceNode(_, x) => x in h
    case TestNode(_, x) => x in h
    case _ => true
  }

  // The value of an operation is a member of the operation object.
  ghost predicate OpWithin(b: Body, op: NodeOp) {
    match op
    case AddNode(_, x) => Owns(b, x)
    case ReplaceNode(_, x) => Owns(b, x)
    case TestNode(_, x) => Owns(b, x)
    case _ => true
  }

  ghost function OpValue(h: Heap, op: NodeOp): Operation
    requires Forest(h) && OpLive(h, op)
  {
    match op
    case AddNode(path, x) => AddOp(path, ValueOf(h, x))
    case RemoveNode(path) => RemoveOp(path)
    case ReplaceNode(path, x) => ReplaceOp(path, ValueOf(h, x))
    case TestNode(path, x) => TestOp(path, ValueOf(h, x))
    case CopyNode(from, path) => CopyOp(from, path)
    case MoveNode(from, path) => MoveOp(from, path)
  }

  // The string member at key, if there is one.
  method FindText(d: Dom, n: Node, key: Bytes, ghost v: Json) returns (r: Option<Bytes>)
    requires Denotes(d.cells, n, v) && v.Obj?
    ensures r == if HasText(v.members, key) then Some(v.members[key].s) else None
  {
    var members := d.cells[n].members;
    if key !in members { return None; }
    assert Denotes(d.cells, members[key], v.members[key]);
    match d.cells[members[key]] {
      case Leaf(x) => return if x.Str? then Some(x.s) else None;
      case Vec(_) => return None;
      case Table(_) => return None;
    }
  }

  lemma DecodedIs(pointer: Bytes, r: Decoded)
    requires if r.Tokens? then Join(r.tokens) == pointer else forall t :: Join(t) != pointer
    ensures Tokenized(pointer) == if r.Tokens? then Some(r.tokens) else None
  {
    if r.Tokens? {
      assert exists t: Path :: Join(t) == pointer;
      JoinInjective(Tokenized(pointer).value, r.tokens);
    }
  }

  method DecodePatchPointer(pointer: Bytes, budget: PatchBudget) returns (finished: bool, path: Option<Path>)
    requires budget.Valid()
    modifies budget
    ensures budget.Valid()
    ensures finished ==> path == Tokenized(pointer)
  {
    finished := budget.ChargeWork(|pointer| + 1);
    if !finished { return false, None; }
    var r := DecodePointer(pointer);
    DecodedIs(pointer, r);
    path := if r.Tokens? then Some(r.tokens) else None;
  }

  // Checks and decodes one member of the patch array.
  method ReadOperation(d: Dom, n: Node, budget: PatchBudget) returns (code: PatchCode, op: NodeOp)
    requires Forest(d.cells) && n in d.cells && budget.Valid()
    modifies budget
    ensures budget.Valid()
    ensures code == Fine ==>
      OpWithin(d.cells[n], op) && OpLive(d.cells, op) && ParseOp(ValueOf(d.cells, n)) == Op(OpValue(d.cells, op))
    ensures code != Fine ==> code == ResourceLimit || ParseOp(ValueOf(d.cells, n)) == BadOp(code)
  {
    hide Forest, Tokenized;
    LiveHasValue(d.cells, n);
    ghost var v := ValueOf(d.cells, n);
    op := RemoveNode([]);
    if !d.cells[n].Table? { return OperationNotObject, op; }
    var name := FindText(d, n, OP, v);
    if name.None? { return MissingOp, op; }
    if !KnownName(name.value) { return InvalidOp, op; }
    var pathText := FindText(d, n, PATH, v);
    if pathText.None? { return MissingPath, op; }
    var finished, path := DecodePatchPointer(pathText.value, budget);
    if !finished { return ResourceLimit, op; }
    if path.None? { return InvalidPath, op; }
    if name.value == MOVE || name.value == COPY {
      var fromText := FindText(d, n, FROM, v);
      if fromText.None? { return MissingFrom, op; }
      var from;
      finished, from := DecodePatchPointer(fromText.value, budget);
      if !finished { return ResourceLimit, op; }
      if from.None? { return InvalidFrom, op; }
      op := if name.value == MOVE then MoveNode(from.value, path.value) else CopyNode(from.value, path.value);
      return Fine, op;
    }
    if name.value == REMOVE {
      return Fine, RemoveNode(path.value);
    }
    if VALUE !in d.cells[n].members { return MissingValue, op; }
    var x := d.cells[n].members[VALUE];
    MemberValue(d.cells, n, v, VALUE);
    op := if name.value == ADD then AddNode(path.value, x)
          else if name.value == REPLACE then ReplaceNode(path.value, x) else TestNode(path.value, x);
    code := Fine;
  }

  lemma MemberValue(g: Heap, n: Node, v: Json, key: Bytes)
    requires Denotes(g, n, v) && v.Obj? && key in v.members
    ensures g[n].members[key] in g && HasValue(g, g[n].members[key]) && ValueOf(g, g[n].members[key]) == v.members[key]
  {
    ValueIs(g, g[n].members[key], v.members[key]);
  }

  // The caller's nodes read the same while the working document changes.
  lemma CallerValue(h: Heap, g: Heap, s: Node, doc: Json, x: Node)
    requires Working(h, g, s, doc) && x in h
    ensures x in g && HasValue(h, x) && HasValue(g, x) && ValueOf(g, x) == ValueOf(h, x)
  {
    forall y | y in h && Reaches(h, x, y) ensures y in g && g[y] == h[y] { }
    DenotesFrame(h, g, x, ValueOf(h, x));
    ValueIs(g, x, ValueOf(h, x));
  }

  lemma CallerBody(h: Heap, g: Heap, s: Node, doc: Json, x: Node)
    requires Working(h, g, s, doc) && x in h
    ensures x in g && g[x] == h[x]
  {
  }

  // Measures and clones a value that an operation is about to consume.
  method CloneValue(d: Dom, s: Node, x: Node, budget: PatchBudget, ghost h: Heap, ghost doc: Json)
    returns (code: PatchCode, t: Node)
    requires d.Valid() && budget.Valid() && Working(h, d.cells, s, doc) && x in d.cells
    modifies d, budget
    ensures d.Valid() && budget.Valid()
    ensures code == Fine ==> HasValue(old(d.cells), x) && Holding(h, d.cells, s, doc, t, ValueOf(old(d.cells), x))
    ensures code != Fine ==> OutOfResources(code) && Working(h, d.cells, s, doc)
  {
    hide Forest, Holding, Working, IsFreshTree, Reaches, Denotes;
    t := x;
    LiveHasValue(d.cells, x);
    ghost var g0 := d.cells;
    var ok := MeasureClone(d, x, budget);
    if !ok { return ResourceLimit, t; }
    ok, t := CloneTree(d, x, false);
    if !ok { return AllocationFailure, t; }
    HoldStart(h, g0, d.cells, s, doc, t, ValueOf(g0, x));
    code := Fine;
  }

  ghost predicate StillPrivate(h: Heap, g: Heap, s: Node) {
    exists doc :: Working(h, g, s, doc)
  }

  method PerformOperation(d: Dom, s: Node, op: NodeOp, budget: PatchBudget, ghost h: Heap, ghost doc: Json)
    returns (code: PatchCode)
    requires d.Valid() && budget.Valid() && Working(h, d.cells, s, doc) && OpLive(h, op)
    modifies d, budget
    ensures d.Valid() && budget.Valid()
    ensures code == Fine ==> Edited(h, d.cells, s, Step(OpValue(h, op), doc))
    ensures code != Fine ==> StillPrivate(h, d.cells, s) && Blames(code, Step(OpValue(h, op), doc))
  {
    hide Forest, Holding, Working, Denotes, Leads, Lookup, Apply, Equal;
    WorkParts(h, d.cells, s, doc);
    var t;
    match op {
      case AddNode(path, x) =>
        CallerValue(h, d.cells, s, doc, x);
        code, t := CloneValue(d, s, x, budget, h, doc);
        if code == Fine { code := AddOwned(d, s, path, t, budget, h, doc, ValueOf(h, x)); }
      case ReplaceNode(path, x) =>
        CallerValue(h, d.cells, s, doc, x);
        code, t := CloneValue(d, s, x, budget, h, doc);
        if code == Fine { code := ReplaceOwned(d, s, path, t, budget, h, doc, ValueOf(h, x)); }
      case RemoveNode(path) =>
        code, t := DetachAt(d, s, path, budget, h, doc);
        if code == Fine { Discard(d, t, h, s, Apply(Remove, doc, path).value, Lookup(doc, path).value); }
      case TestNode(path, x) =>
        code := TestAt(d, s, path, x, budget, h, doc);
      case CopyNode(from, path) =>
        code := CopyTo(d, s, from, path, budget, h, doc);
      case MoveNode(from, path) =>
        code := MoveTo(d, s, from, path, budget, h, doc);
    }
  }

  method TestAt(d: Dom, s: Node, path: Path, x: Node, budget: PatchBudget, ghost h: Heap, ghost doc: Json)
    returns (code: PatchCode)
    requires d.Valid() && budget.Valid() && Working(h, d.cells, s, doc) && x in h
    requires HasValue(h, x)
    modifies budget
    ensures budget.Valid()
    ensures code == Fine ==> Step(TestOp(path, ValueOf(h, x)), doc) == Done(doc)
    ensures code != Fine ==> Blames(code, Step(TestOp(path, ValueOf(h, x)), doc))
  {
    hide Forest, Denotes, Leads, Lookup, Equal, Working;
    WorkDenotes(h, d.cells, s, doc);
    CallerValue(h, d.cells, s, doc, x);
    assert path[..|path|] == path;
    var target;
    code, target := Resolve(d, s, path, |path|, budget, doc);
    if code != Fine { return; }
    LeadsDown(d.cells, s, doc, path, target);
    ValueIs(d.cells, target, Lookup(doc, path).value);
    var finished, equal := PatchEqual(d, target, x, budget);
    code := if !finished then ResourceLimit else if equal then Fine else TestFailed;
  }

  method CopyTo(d: Dom, s: Node, from: Path, path: Path, budget: PatchBudget, ghost h: Heap, ghost doc: Json)
    returns (code: PatchCode)
    requires d.Valid() && budget.Valid() && Working(h, d.cells, s, doc)
    modifies d, budget
    ensures d.Valid() && budget.Valid()
    ensures code == Fine ==> Edited(h, d.cells, s, Step(CopyOp(from, path), doc))
    ensures code != Fine ==> Working(h, d.cells, s, doc) && Blames(code, Step(CopyOp(from, path), doc))
  {
    hide Forest, Holding, Denotes, Leads, Lookup, Apply, Working;
    WorkDenotes(h, d.cells, s, doc);
    assert from[..|from|] == from;
    var source, t;
    code, source := Resolve(d, s, from, |from|, budget, doc);
    if code != Fine { return; }
    LeadsDown(d.cells, s, doc, from, source);
    ValueIs(d.cells, source, Lookup(doc, from).value);
    code, t := CloneValue(d, s, source, budget, h, doc);
    if code == Fine {
      code := AddOwned(d, s, path, t, budget, h, doc, Lookup(doc, from).value);
    }
  }

  // A successful move to a vacant place conserves the document's nodes, and the
  // node found at from is the one that stands at path.
  method MoveTo(d: Dom, s: Node, from: Path, path: Path, budget: PatchBudget, ghost h: Heap, ghost doc: Json)
    returns (code: PatchCode)
    requires d.Valid() && budget.Valid() && Working(h, d.cells, s, doc)
    modifies d, budget
    ensures d.Valid() && budget.Valid()
    ensures code == Fine ==> Edited(h, d.cells, s, Step(MoveOp(from, path), doc))
    ensures code == Fine && from == path ==> d.cells == old(d.cells)
    ensures
      && code == Fine && from != path && Apply(Remove, doc, from).Done?
      && !Occupied(Apply(Remove, doc, from).value, path) ==>
        && d.cells.Keys == old(d.cells).Keys && d.freed == old(d.freed)
        && exists t :: Leads(old(d.cells), s, from, t) && Landed(d.cells, s, path, t)
    ensures code != Fine ==> StillPrivate(h, d.cells, s) && Blames(code, Step(MoveOp(from, path), doc))
  {
    hide Forest, Holding, Denotes, Leads, Lookup, Apply, Working, Occupied, Landed;
    WorkDenotes(h, d.cells, s, doc);
    assert from[..|from|] == from;
    var source, t;
    code, source := Resolve(d, s, from, |from|, budget, doc);
    if code != Fine { return; }
    if from == path {
      RemoveThenAddSamePath(doc, path);
      return Fine;
    }
    if from == [] { return MoveRootNotAllowed; }
    if ProperPrefix(from, path) { return MoveIntoDescendant; }
    code, t := DetachAt(d, s, from, budget, h, doc);
    if code != Fine { return; }
    code := AddOwned(d, s, path, t, budget, h, Apply(Remove, doc, from).value, Lookup(doc, from).value);
  }

  // ---- The whole patch ----

  // The fold of the specification over the operations of the patch document.
  ghost function Folded(patch: Json, n: nat, doc: Json): Outcome
    requires patch.Arr? && n <= |patch.items|
  {
    RunOps(patch.items, n, doc)
  }

  // The operations before i have succeeded; the working document shows it.
  ghost predicate Progress(h: Heap, g: Heap, s: Node, patch: Json, i: nat, before: Json) {
    && patch.Arr? && i <= |patch.items|
    && Folded(patch, i, before).Finished?
    && Working(h, g, s, Folded(patch, i, before).doc)
  }

  // Applies an RFC 6902 document. On success the target holds exactly the
  // folded document and its own former descendants are gone; on any failure,
  // at any operation, the heap is what it was.
  method ApplyPatch(d: Dom, target: Node, patch: Node, options: PatchOptions) returns (code: PatchCode, opIndex: nat)
    requires d.Valid() && target in d.cells && patch in d.cells
    modifies d
    ensures d.Valid()
    ensures code != Fine ==> d.cells == old(d.cells)
    ensures code == Fine ==>
      var before, p := ValueOf(old(d.cells), target), ValueOf(old(d.cells), patch);
      && p.Arr? && Folded(p, |p.items|, before).Finished?
      && Replaced(old(d.cells), d.cells, target, Folded(p, |p.items|, before).doc)
    // What is blamed fails in the specification too, at the same operation.
    ensures code != Fine && !OutOfResources(code) ==>
      var before, p := ValueOf(old(d.cells), target), ValueOf(old(d.cells), patch);
      if p.Arr? then Folded(p, |p.items|, before) == Stopped(code, opIndex) else code == InvalidPatchDocument
    // When resources run out, the operations before opIndex had succeeded.
    ensures OutOfResources(code) ==>
      var before, p := ValueOf(old(d.cells), target), ValueOf(old(d.cells), patch);
      p.Arr? && opIndex <= |p.items| && Folded(p, opIndex, before).Finished?
  {
    hide Forest, Denotes, Working, Folded, IsFreshTree, Replaced;
    ghost var h := d.cells;
    LiveHasValue(h, target);
    LiveHasValue(h, patch);
    ghost var before, p := ValueOf(h, target), ValueOf(h, patch);
    opIndex := 0;
    if !d.cells[patch].Vec? {
      assert !p.Arr? by { PatchIsArray(h, patch, p); }
      return InvalidPatchDocument, 0;
    }
    var operations := d.cells[patch].kids;
    PatchIsArray(h, patch, p);
    assert Folded(p, 0, before) == Finished(before) by { NothingFolded(p, before); }
    var budget := new PatchBudget(options);
    var ok := budget.ChargeOperations(|operations|);
    if !ok { return ResourceLimit, 0; }
    ok := MeasureClone(d, target, budget);
    if !ok { return ResourceLimit, 0; }
    var s;
    ok, s := CloneTree(d, target, true);
    if !ok { return AllocationFailure, 0; }
    WorkStart(h, d.cells, s, before);
    while opIndex < |operations|
      invariant opIndex <= |operations| && budget.Valid() && fresh(budget) && d.Valid()
      invariant Progress(h, d.cells, s, p, opIndex, before)
    {
      ghost var doc := Folded(p, opIndex, before).doc;
      code := RunOperation(d, s, operations[opIndex], budget, h, p, opIndex, before);
      if code != Fine {
        DropWork(d, s, h);
        return;
      }
      opIndex := opIndex + 1;
    }
    ghost var after := Folded(p, |p.items|, before).doc;
    WorkDone(h, d.cells, s, after);
    assert target in d.cells by { CallerValue(h, d.cells, s, after, target); }
    InstallFresh(h, d.cells, target, s, after);
    assert IsRoot(d.cells, s) by { WorkIsRoot(h, d.cells, s, after); }
    Install(d, target, s);
    code, opIndex := Fine, 0;
  }

  lemma PatchIsArray(h: Heap, n: Node, p: Json)
    requires Forest(h) && Denotes(h, n, p) && n in h
    ensures h[n].Vec? <==> p.Arr?
    ensures h[n].Vec? ==> |h[n].kids| == |p.items| && forall i :: 0 <= i < |p.items| ==>
      h[n].kids[i] in h && ValueOf(h, h[n].kids[i]) == p.items[i]
  {
    if h[n].Vec? {
      forall i | 0 <= i < |p.items| ensures h[n].kids[i] in h && ValueOf(h, h[n].kids[i]) == p.items[i] {
        ValueIs(h, h[n].kids[i], p.items[i]);
      }
    }
  }

  lemma NothingFolded(p: Json, before: Json)
    requires p.Arr?
    ensures Folded(p, 0, before) == Finished(before)
  {
  }

  lemma WorkStart(h: Heap, g: Heap, s: Node, doc: Json)
    requires Forest(h) && IsFreshTree(h, g, s, doc)
    ensures Working(h, g, s, doc)
  {
    assert Rooted(h, h, {});
    CopyAdds(h, h, g, {}, s, doc);
    assert {} + {s} == {s};
  }

  lemma WorkDone(h: Heap, g: Heap, s: Node, doc: Json)
    requires Working(h, g, s, doc)
    ensures IsFreshTree(h, g, s, doc) && Forest(h)
  {
    RootedIsFresh(h, g, s, doc);
  }

  lemma WorkIsRoot(h: Heap, g: Heap, s: Node, doc: Json)
    requires Working(h, g, s, doc)
    ensures IsRoot(g, s)
  {
  }

  // One operation: read, then performed.
  method RunOperation(d: Dom, s: Node, n: Node, budget: PatchBudget, ghost h: Heap, ghost p: Json, ghost i: nat,
                      ghost before: Json)
    returns (code: PatchCode)
    requires d.Valid() && budget.Valid() && Progress(h, d.cells, s, p, i, before) && i < |p.items|
    requires n in h && HasValue(h, n) && ValueOf(h, n) == p.items[i]
    modifies d, budget
    ensures d.Valid() && budget.Valid()
    ensures code == Fine ==> Progress(h, d.cells, s, p, i + 1, before)
    ensures code != Fine ==> StillPrivate(h, d.cells, s)
    ensures code != Fine && !OutOfResources(code) ==> Folded(p, |p.items|, before) == Stopped(code, i)
  {
    hide Forest, Denotes, Working, ParseOp, Step;
    ghost var doc := Folded(p, i, before).doc;
    CallerValue(h, d.cells, s, doc, n);
    ghost var g0 := d.cells;
    var op;
    code, op := ReadOperation(d, n, budget);
    if code == Fine {
      assert h[n] == d.cells[n] by { CallerBody(h, d.cells, s, doc, n); }
      OpReread(h, d.cells, s, doc, op, n);
      code := PerformOperation(d, s, op, budget, h, doc);
    }
    if code != Fine && !OutOfResources(code) { StaysStopped(p.items, i + 1, |p.items|, before); }
  }

  // The nodes an operation refers to belong to the caller.
  lemma OpReread(h: Heap, g: Heap, s: Node, doc: Json, op: NodeOp, n: Node)
    requires Working(h, g, s, doc) && OpLive(g, op) && n in h && OpWithin(h[n], op)
    ensures Forest(h) && OpLive(h, op) && OpValue(g, op) == OpValue(h, op)
  {
    hide Working, Denotes;
    WorkParts(h, g, s, doc);
    match op
    case AddNode(_, x) => CallerValue(h, g, s, doc, x);
    case ReplaceNode(_, x) => CallerValue(h, g, s, doc, x);
    case TestNode(_, x) => CallerValue(h, g, s, doc, x);
    case _ =>
  }

  method DropWork(d: Dom, s: Node, ghost h: Heap)
    requires d.Valid() && StillPrivate(h, d.cells, s)
    modifies d
    ensures d.Valid() && d.cells == h
  {
    hide Forest, Denotes, Reaches;
    ghost var g := d.cells;
    ghost var doc :| Working(h, g, s, doc);
    WorkDone(h, g, s, doc);
    FreshGone(h, g, s, doc);
    DestroyRoot(d, s);
  }

  lemma FreshGone(h: Heap, g: Heap, s: Node, doc: Json)
    requires IsFreshTree(h, g, s, doc)
    ensures IsRoot(g, s) && Without(g, s) == h
  {
  }
}
