// JSON Merge Patch (RFC 7396): a work list of live targets inside a private
// copy, against the recursive definition.

module MergePatch {
  import opened JsonValue
  import opened DomHeap
  import opened HeapSurgery
  import opened Teardown
  import opened DeepCopy
  import opened Ownership
  import opened PatchSpec
  import opened PatchBudgets
  import opened Workspace
  import opened PatchEngine

  // ---- Section 2 of RFC 7396 ----

  function BaseOf(target: Json): map<Bytes, Json> {
    if target.Obj? then target.members else map[]
  }

  ghost function Merge(target: Json, patch: Json): Json
    decreases patch
  {
    if !patch.Obj? then patch
    else
      var base := BaseOf(target);
      Obj(map k | k in base.Keys + patch.members.Keys && !(k in patch.members && patch.members[k] == Null) ::
        if k in patch.members then Merge(if k in base then base[k] else Null, patch.members[k]) else base[k])
  }

  // Merging the same patch again changes nothing.
  lemma {:induction false} MergeIdempotent(target: Json, patch: Json)
    ensures Merge(Merge(target, patch), patch) == Merge(target, patch)
    decreases patch
  {
    if patch.Obj? {
      var base, once := BaseOf(target), Merge(target, patch);
      var twice := Merge(once, patch);
      forall k | k in patch.members && patch.members[k] != Null
        ensures k in once.members && twice.members[k] == once.members[k]
      {
        MergeIdempotent(if k in base then base[k] else Null, patch.members[k]);
      }
      assert twice.members == once.members;
    }
  }

  // What is not an object counts as the empty object.
  lemma MergeIntoOther(target: Json, patch: Json)
    requires patch.Obj? && !target.Obj?
    ensures Merge(target, patch) == Merge(Obj(map[]), patch)
  {
  }

  // ---- What the document is about to become ----

  // The tree at n stands for v: pending nodes stand for their merged value.
  ghost predicate WillBe(g: Heap, n: Node, v: Json, pend: map<Node, Json>)
    decreases v
  {
    n in g &&
    if n in pend then HasValue(g, n) && v == Merge(ValueOf(g, n), pend[n])
    else match v
      case Arr(items) =>
        && g[n].Vec?
        && |g[n].kids| == |items|
        && forall i :: 0 <= i < |items| ==> WillBe(g, g[n].kids[i], items[i], pend)
      case Obj(members) =>
        && g[n].Table?
        && g[n].members.Keys == members.Keys
        && forall k :: k in members ==> WillBe(g, g[n].members[k], members[k], pend)
      case _ => g[n] == Leaf(v)
  }

  lemma {:induction false} NothingPending(g: Heap, n: Node, v: Json)
    requires WillBe(g, n, v, map[])
    ensures Denotes(g, n, v)
    decreases v
  {
    match v
    case Arr(items) =>
      forall i | 0 <= i < |items| ensures Denotes(g, g[n].kids[i], items[i]) {
        NothingPending(g, g[n].kids[i], items[i]);
      }
    case Obj(members) =>
      forall k | k in members ensures Denotes(g, g[n].members[k], members[k]) {
        NothingPending(g, g[n].members[k], members[k]);
      }
    case _ =>
  }

  // Where nothing is pending below, a value is final.
  lemma {:induction false} FinalBelow(g: Heap, n: Node, v: Json, pend: map<Node, Json>)
    requires Denotes(g, n, v) && forall x :: x in pend ==> !Reaches(g, n, x)
    ensures WillBe(g, n, v, pend)
    decreases v
  {
    ReachSelf(g, n);
    match v
    case Arr(items) =>
      forall i | 0 <= i < |items| ensures WillBe(g, g[n].kids[i], items[i], pend) {
        FinalKid(g, n, g[n].kids[i], pend);
        FinalBelow(g, g[n].kids[i], items[i], pend);
      }
    case Obj(members) =>
      forall k | k in members ensures WillBe(g, g[n].members[k], members[k], pend) {
        FinalKid(g, n, g[n].members[k], pend);
        FinalBelow(g, g[n].members[k], members[k], pend);
      }
    case _ =>
  }

  lemma FinalKid(g: Heap, n: Node, k: Node, pend: map<Node, Json>)
    requires n in g && Owns(g[n], k) && forall x :: x in pend ==> !Reaches(g, n, x)
    ensures forall x :: x in pend ==> !Reaches(g, k, x)
  {
    forall x | x in pend ensures !Reaches(g, k, x) {
      if Reaches(g, k, x) { ReachKid(g, n, k, x); }
    }
  }

  // ---- Finishing one pending target ----

  // Between g and r only the tree at t changed; t is no longer pending, and
  // whatever became pending lies below it.
  ghost predicate Retires(g: Heap, r: Heap, t: Node, pend: map<Node, Json>, left: map<Node, Json>) {
    && Forest(g) && t in pend && t in g && Antichain(g, pend.Keys)
    && (forall x :: x in g && !Reaches(g, t, x) ==> x in r && r[x] == g[x])
    && (forall x :: x in g && !Reaches(g, t, x) ==> (x in left <==> x in pend) && (x in pend ==> left[x] == pend[x]))
    && t !in left
  }

  lemma {:induction false} HoleFilled(g: Heap, r: Heap, n: Node, v: Json, t: Node, pend: map<Node, Json>,
                                      left: map<Node, Json>)
    requires Retires(g, r, t, pend, left) && WillBe(g, n, v, pend)
    requires n == t || !Reaches(g, t, n)
    requires WillBe(r, t, Merge(ValueOf(g, t), pend[t]), left)
    ensures WillBe(r, n, v, left)
    decreases v
  {
    if n == t {
    } else if n in pend {
      forall x | x in g && Reaches(g, n, x) ensures x in r && r[x] == g[x] {
        if Reaches(g, t, x) { NestedOrDisjoint(g, n, t, x); }
      }
      DenotesFrame(g, r, n, ValueOf(g, n));
      ValueIs(r, n, ValueOf(g, n));
    } else {
      match v
      case Arr(items) =>
        forall i | 0 <= i < |items| ensures WillBe(r, g[n].kids[i], items[i], left) {
          HoleKid(g, t, n, g[n].kids[i]);
          HoleFilled(g, r, g[n].kids[i], items[i], t, pend, left);
        }
      case Obj(members) =>
        forall k | k in members ensures WillBe(r, g[n].members[k], members[k], left) {
          HoleKid(g, t, n, g[n].members[k]);
          HoleFilled(g, r, g[n].members[k], members[k], t, pend, left);
        }
      case _ =>
    }
  }

  // Outside t's tree, a child is outside too, unless it is t.
  lemma HoleKid(g: Heap, t: Node, n: Node, k: Node)
    requires Forest(g) && n in g && Owns(g[n], k) && !Reaches(g, t, n)
    ensures k == t || !Reaches(g, t, k)
  {
    if k != t && Reaches(g, t, k) { var o := ReachViaOwner(g, t, k); }
  }

  // ---- The work list ----

  // src is the patch object, dst the target it will be merged into.
  type MergeItem = Item

  ghost predicate ItemOk(h: Heap, g: Heap, it: MergeItem, pend: map<Node, Json>)
  {
    && it.src in h && h[it.src].Table? && HasValue(h, it.src)
    && it.dst in pend && pend[it.dst] == ValueOf(h, it.src)
    && it.dst in g && it.dst !in h
  }

  // Every pending target is live, belongs to the working document, and no
  // target lies inside another.
  ghost predicate Targets(h: Heap, g: Heap, work: seq<MergeItem>, pend: map<Node, Json>) {
    && (forall i :: 0 <= i < |work| ==> ItemOk(h, g, work[i], pend))
    && (forall x :: x in pend ==> exists i :: 0 <= i < |work| && work[i].dst == x)
    && (forall i, j :: 0 <= i < j < |work| ==> work[i].dst != work[j].dst)
    && Antichain(g, pend.Keys)
  }

  ghost predicate Merging(h: Heap, g: Heap, s: Node, final: Json, work: seq<MergeItem>, pend: map<Node, Json>) {
    && Forest(h) && Rooted(h, g, {s}) && WillBe(g, s, final, pend)
    && Targets(h, g, work, pend)
    && Spread(h, work)
  }

  // ---- Inside one target ----

  // out is what lies outside the tree at t, which holds the object cur.
  ghost predicate Editing(h: Heap, out: Heap, g: Heap, roots: set<Node>, t: Node, cur: map<Bytes, Json>) {
    && Forest(h) && Rooted(h, g, roots)
    && Intact(out, g) && Apart(out, g) && t !in out && t !in h
    && Denotes(g, t, Obj(cur))
  }

  lemma EditingParts(h: Heap, out: Heap, g: Heap, roots: set<Node>, t: Node, cur: map<Bytes, Json>)
    requires Editing(h, out, g, roots, t, cur)
    ensures Forest(g) && t in g && g[t].Table? && g[t].members.Keys == cur.Keys
    ensures forall k :: k in cur ==>
      Owns(g[t], g[t].members[k]) && g[t].members[k] in g && g[t].members[k] !in h && g[t].members[k] !in out
      && Denotes(g, g[t].members[k], cur[k])
  {
    forall k | k in cur ensures Owns(g[t], g[t].members[k]) && Denotes(g, g[t].members[k], cur[k]) { }
  }

  // A fresh tree joins the editor's roots.
  lemma EditHold(h: Heap, out: Heap, g0: Heap, g: Heap, s: Node, t: Node, cur: map<Bytes, Json>, c: Node, v: Json)
    requires Editing(h, out, g0, {s}, t, cur) && IsFreshTree(g0, g, c, v)
    ensures Editing(h, out, g, {s, c}, t, cur) && c != s && c !in out && Denotes(g, c, v)
    ensures t in g0 && t in g && g[t] == g0[t] && IsRoot(g, c) && !Reaches(g, c, t)
  {
    hide Forest, Reaches, IsRoot, Owns;
    CopyAdds(h, g0, g, {s}, c, v);
    assert {s} + {c} == {s, c};
    forall x | x in g0 && Reaches(g0, t, x) ensures x in g && g[x] == g0[x] { }
    DenotesFrame(g0, g, t, Obj(cur));
    forall o, k | o in g && o !in out && Owns(g[o], k) ensures k !in out { FreshOwns(g0, g, c, v, o, k); }
  }

  lemma HeldApart(g: Heap, t: Node, c: Node, n: Node)
    requires Forest(g) && IsRoot(g, c) && !Reaches(g, c, t) && Reaches(g, t, n)
    ensures !Reaches(g, c, n) && n != c
  {
    if Reaches(g, c, n) {
      NestedOrDisjoint(g, c, t, n);
      RootUntouched(g, t, c);
    }
    ReachLive(g, t, n);
    ReachSelf(g, n);
  }

  // Hanging the held tree under t.
  lemma EditAttach(h: Heap, out: Heap, g: Heap, s: Node, t: Node, cur: map<Bytes, Json>, key: Bytes, c: Node, v: Json)
    requires Editing(h, out, g, {s, c}, t, cur) && c != s && c !in out && Denotes(g, c, v) && IsRoot(g, c)
    requires !Reaches(g, c, t)
    requires key !in cur
    ensures t in g && g[t].Table? && Editing(h, out, g[t := Table(g[t].members[key := c])], {s}, t, cur[key := v])
  {
    hide Reaches, SingleOwner, GoodBody, Owns, Forest, IsRoot, Denotes, Intact, Apart;
    EditingParts(h, out, g, {s, c}, t, cur);
    var b := Table(g[t].members[key := c]);
    InsertMember(g, t, Obj(cur), key, c, v);
    RebodyForest(g, t, b, c);
    AdoptRooted(h, g, {s, c}, t, b, c);
    assert {s, c} - {c} == {s};
    RebodySeparate(out, g, t, b, c);
  }

  lemma RebodySeparate(out: Heap, g: Heap, t: Node, b: Body, c: Node)
    requires Intact(out, g) && Apart(out, g) && t in g && t !in out && c !in out
    requires forall k :: Owns(b, k) ==> Owns(g[t], k) || k == c
    ensures Intact(out, g[t := b]) && Apart(out, g[t := b])
  {
    var r := g[t := b];
    forall o, k | o in r && o !in out && Owns(r[o], k) ensures k !in out {
      if o != t { assert r[o] == g[o]; }
    }
  }

  // Exchanging the member at key with the held tree.
  lemma EditInstall(h: Heap, out: Heap, g: Heap, s: Node, t: Node, cur: map<Bytes, Json>, key: Bytes, c: Node, v: Json)
    requires Editing(h, out, g, {s, c}, t, cur) && c != s && c !in out && Denotes(g, c, v) && IsRoot(g, c)
    requires !Reaches(g, c, t)
    requires key in cur
    ensures t in g && g[t].Table? && key in g[t].members
    ensures var e := g[t].members[key]; var r := Installed(g, e, c);
            && e in g && e != c && !Reaches(g, c, e)
            && Editing(h, out, r, {s}, t, cur[key := v]) && t in r && r[t] == g[t]
  {
    hide Reaches, SingleOwner, IsRoot, Owns, Denotes, Forest;
    EditingParts(h, out, g, {s, c}, t, cur);
    var e := g[t].members[key];
    var r := Installed(g, e, c);
    OwnerAbove(g, t, e);
    ReachSelf(g, e);
    ReachKid(g, t, e, e);
    HeldApart(g, t, c, e);
    ReachSelf(g, t);
    HeldApart(g, t, c, t);
    InstallRooted(h, g, {s, c}, e, c);
    assert {s, c} - {c} == {s};
    InstallForest(g, e, c);
    ValueIs(g, c, v);
    InstallSeparate(out, g, e, c);
    assert GoodBody(g[t]) by { ForestKids(g, t); }
    forall j, u | Owns(g[t], j) && j != e && Denotes(g, j, u) ensures Denotes(r, j, u) {
      SiblingInstalled(g, t, e, c, j, u);
    }
    EditMember(g, r, t, Obj(cur), key, v);
  }

  lemma InstallSeparate(out: Heap, g: Heap, e: Node, c: Node)
    requires Intact(out, g) && Apart(out, g) && e in g && e !in out && c in g && c !in out
    ensures Intact(out, Installed(g, e, c)) && Apart(out, Installed(g, e, c))
  {
    var r := Installed(g, e, c);
    forall x | x in out ensures x in r && r[x] == out[x] { if Reaches(g, e, x) { NewBelow(out, g, e, x); } }
    forall o, k | o in r && o !in out && Owns(r[o], k) ensures k !in out { assert Owns(g[if o == e then c else o], k); }
  }

  lemma SiblingInstalled(g: Heap, t: Node, e: Node, c: Node, j: Node, u: Json)
    requires Forest(g) && t in g && Owns(g[t], e) && Owns(g[t], j) && j != e && Denotes(g, j, u)
    requires IsRoot(g, c) && !Reaches(g, c, t)
    ensures Denotes(Installed(g, e, c), j, u)
  {
    var r := Installed(g, e, c);
    forall x | x in g && Reaches(g, j, x) ensures x in r && r[x] == g[x] {
      ReachKid(g, t, j, x);
      HeldApart(g, t, c, x);
      if Reaches(g, e, x) { SiblingsDisjoint(g, t, j, e, x); }
      ReachSelf(g, e);
      if x == e { SiblingsDisjoint(g, t, j, e, e); }
    }
    DenotesFrame(g, r, j, u);
  }

  // Cutting the member at key loose.
  lemma EditRelease(h: Heap, out: Heap, g: Heap, s: Node, t: Node, cur: map<Bytes, Json>, key: Bytes)
    requires Editing(h, out, g, {s}, t, cur) && key in cur
    ensures t in g && g[t].Table? && key in g[t].members
    ensures var c := g[t].members[key]; var r := g[t := Table(g[t].members - {key})];
            && IsRoot(r, c) && t != c && c != s && !Reaches(r, c, t) && c !in out
            && Editing(h, out, r, {s, c}, t, cur - {key})
  {
    hide Reaches, SingleOwner, IsRoot, Owns, GoodBody, Forest, Denotes, Intact, Apart;
    EditingParts(h, out, g, {s}, t, cur);
    var c := g[t].members[key];
    var b := Table(g[t].members - {key});
    var r := g[t := b];
    EraseMember(g, t, Obj(cur), key);
    OwnerAbove(g, t, c);
    RebodyForest(g, t, b, c);
    ReleaseRooted(h, g, {s}, t, b, c);
    assert {s} + {c} == {s, c};
    assert c != s by { OwnedNotRoot(g, t, c); }
    ErasedReach(g, t, b, c);
    RebodySeparate(out, g, t, b, c);
  }

  // Destroying a loose tree.
  lemma EditDrop(h: Heap, out: Heap, r: Heap, s: Node, t: Node, cur: map<Bytes, Json>, c: Node)
    requires Editing(h, out, r, {s, c}, t, cur) && IsRoot(r, c) && c != s && c !in out && !Reaches(r, c, t)
    ensures Editing(h, out, Without(r, c), {s}, t, cur) && t in r && t in Without(r, c) && Without(r, c)[t] == r[t]
  {
    hide Reaches, IsRoot, Owns, Forest, Denotes;
    EditingParts(h, out, r, {s, c}, t, cur);
    WithoutRooted(h, r, {s, c}, c);
    assert {s, c} - {c} == {s};
    var w := Without(r, c);
    forall x | x in out ensures x in w && w[x] == out[x] { if Reaches(r, c, x) { NewBelow(out, r, c, x); } }
    forall x | x in r && Reaches(r, t, x) ensures x in w && w[x] == r[x] { HeldApart(r, t, c, x); }
    DenotesFrame(r, w, t, Obj(cur));
  }

  lemma ErasedReach(g: Heap, t: Node, b: Body, c: Node)
    requires Forest(g) && t in g && Owns(g[t], c)
    ensures !Reaches(g[t := b], c, t)
  {
    OwnerAbove(g, t, c);
    ReachFrame(g, g[t := b], c, t);
  }

  // An empty object in place of a node's contents: what resetTo() leaves.
  lemma FreshObject(g: Heap, c: Node)
    requires Forest(g) && c !in g
    ensures IsFreshTree(g, g[c := Table(map[])], c, Obj(map[]))
  {
    FreshForest(g, c, Table(map[]));
    var r := g[c := Table(map[])];
    assert Denotes(r, c, Obj(map[]));
    ReachSelf(r, c);
    forall x | x in r && Reaches(r, c, x) ensures x == c { ChildlessHasValue(c, Table(map[])); LeafReach(r, c, x); }
  }

  lemma ResetIsInstall(g: Heap, n: Node, c: Node)
    requires Forest(g) && n in g && c !in g
    ensures Installed(g[c := Table(map[])], n, c) == Cleared(g, n, Table(map[]))
  {
    var r := g[c := Table(map[])];
    forall x | x in g ensures Reaches(r, n, x) <==> Reaches(g, n, x) { ReachFrame(g, r, n, x); }
  }

  lemma EditReset(h: Heap, out: Heap, g: Heap, s: Node, t: Node, cur: map<Bytes, Json>, key: Bytes)
    requires Editing(h, out, g, {s}, t, cur) && key in cur
    ensures t in g && g[t].Table? && key in g[t].members
    ensures var r := Cleared(g, g[t].members[key], Table(map[]));
            Editing(h, out, r, {s}, t, cur[key := Obj(map[])]) && t in r && r[t] == g[t]
  {
    hide Reaches, IsRoot, Owns, Denotes, Forest;
    EditingParts(h, out, g, {s}, t, cur);
    FreshAddress(g);
    var c :| c !in g;
    var r := g[c := Table(map[])];
    FreshObject(g, c);
    EditHold(h, out, g, r, s, t, cur, c, Obj(map[]));
    EditInstall(h, out, r, s, t, cur, key, c, Obj(map[]));
    ResetIsInstall(g, g[t].members[key], c);
  }

  // The members in `keys` are still to be merged.
  ghost predicate MidMerge(cur: map<Bytes, Json>, base: map<Bytes, Json>, patch: map<Bytes, Json>, keys: set<Bytes>) {
    && keys <= patch.Keys
    && (forall k :: k in keys || k !in patch ==> (k in cur <==> k in base) && (k in cur ==> cur[k] == base[k]))
    && (forall k :: k in patch && k !in keys ==> MidMember(cur, base, k, patch[k]))
  }

  ghost predicate MidMember(cur: map<Bytes, Json>, base: map<Bytes, Json>, k: Bytes, p: Json) {
    if p == Null then k !in cur
    else if p.Obj? then k in cur && cur[k] == Obj(if k in base then BaseOf(base[k]) else map[])
    else k in cur && cur[k] == p
  }

  lemma MidStep(cur: map<Bytes, Json>, next: map<Bytes, Json>, base: map<Bytes, Json>, patch: map<Bytes, Json>,
                keys: set<Bytes>, k: Bytes)
    requires MidMerge(cur, base, patch, keys) && k in keys
    requires next - {k} == cur - {k} && MidMember(next, base, k, patch[k])
    ensures MidMerge(next, base, patch, keys - {k})
  {
    forall j | j != k ensures (j in next <==> j in cur) && (j in cur ==> next[j] == cur[j]) {
      assert j in next - {k} <==> j in next;
      assert j in cur - {k} <==> j in cur;
      if j in cur { assert (next - {k})[j] == next[j] && (cur - {k})[j] == cur[j]; }
    }
  }

  // Once every member is done, what is left pending completes the merge.
  lemma MidDone(cur: map<Bytes, Json>, target: Json, patch: Json, k: Bytes)
    requires patch.Obj? && MidMerge(cur, BaseOf(target), patch.members, {})
    ensures Merge(target, patch).Obj? && Merge(target, patch).members.Keys == cur.Keys
    ensures k in cur ==>
      var merged := if k in patch.members && patch.members[k].Obj? then Merge(cur[k], patch.members[k]) else cur[k];
      Merge(target, patch).members[k] == merged
  {
    var base := BaseOf(target);
    var whole := Merge(target, patch).members;
    forall j ensures j in whole <==> j in cur {
      if j in patch.members { assert MidMember(cur, base, j, patch.members[j]); }
    }
    if k in cur && k in patch.members {
      assert MidMember(cur, base, k, patch.members[k]);
      if patch.members[k].Obj? {
        var was := if k in base then base[k] else Null;
        if !was.Obj? { MergeIntoOther(was, patch.members[k]); }
      }
    }
  }

  // ---- Editing one member of the target t ----

  // What the merge may still fail with.
  ghost predicate Gave(h: Heap, g: Heap, s: Node, code: PatchCode) {
    OutOfResources(code) && Rooted(h, g, {s})
  }

  ghost predicate OtherMembers(before: Body, after: Body, key: Bytes) {
    before.Table? && after.Table? && before.members - {key} == after.members - {key}
  }

  method EraseKey(d: Dom, s: Node, t: Node, key: Bytes, ghost h: Heap, ghost out: Heap, ghost cur: map<Bytes, Json>)
    requires d.Valid() && Editing(h, out, d.cells, {s}, t, cur)
    modifies d
    ensures d.Valid() && Editing(h, out, d.cells, {s}, t, cur - {key})
    ensures t in old(d.cells) && t in d.cells && OtherMembers(old(d.cells)[t], d.cells[t], key)
  {
    hide Editing, Forest;
    EditingParts(h, out, d.cells, {s}, t, cur);
    if key !in d.cells[t].members {
      assert cur - {key} == cur;
      return;
    }
    var c := d.cells[t].members[key];
    EditRelease(h, out, d.cells, s, t, cur, key);
    d.cells := d.cells[t := Table(d.cells[t].members - {key})];
    EditingParts(h, out, d.cells, {s, c}, t, cur - {key});
    EditDrop(h, out, d.cells, s, t, cur - {key}, c);
    DestroyRoot(d, c);
  }

  // The insertion half of insertObjectChild().
  method AttachKey(d: Dom, s: Node, t: Node, key: Bytes, c: Node, ghost h: Heap, ghost out: Heap,
                   ghost cur: map<Bytes, Json>, ghost v: Json)
    returns (ok: bool)
    requires d.Valid() && Editing(h, out, d.cells, {s, c}, t, cur) && c != s && c !in out && key !in cur
    requires Denotes(d.cells, c, v) && IsRoot(d.cells, c) && !Reaches(d.cells, c, t)
    modifies d
    ensures d.Valid()
    ensures ok ==> Editing(h, out, d.cells, {s}, t, cur[key := v])
    ensures ok ==> t in old(d.cells) && t in d.cells && OtherMembers(old(d.cells)[t], d.cells[t], key)
    ensures ok ==> key in d.cells[t].members && d.cells[t].members[key] == c
    ensures !ok ==> Rooted(h, d.cells, {s})
  {
    hide Editing, Forest, Rooted, IsRoot, Denotes, Reaches;
    EditingParts(h, out, d.cells, {s, c}, t, cur);
    ok := d.Allocate();
    if !ok {
      EditDrop(h, out, d.cells, s, t, cur, c);
      DestroyRoot(d, c);
      EditRooted(h, out, d.cells, s, t, cur);
      return;
    }
    EditAttach(h, out, d.cells, s, t, cur, key, c, v);
    d.cells := d.cells[t := Table(d.cells[t].members[key := c])];
    EditingParts(h, out, d.cells, {s}, t, cur[key := v]);
  }

  // insertObjectChild(): consumes the held tree c.
  method PutKey(d: Dom, s: Node, t: Node, key: Bytes, c: Node,
                ghost h: Heap, ghost out: Heap, ghost cur: map<Bytes, Json>, ghost v: Json)
    returns (ok: bool)
    requires d.Valid() && Editing(h, out, d.cells, {s, c}, t, cur) && c != s && c !in out
    requires Denotes(d.cells, c, v) && IsRoot(d.cells, c) && !Reaches(d.cells, c, t)
    modifies d
    ensures d.Valid()
    ensures ok ==> Editing(h, out, d.cells, {s}, t, cur[key := v])
    ensures ok ==> t in old(d.cells) && t in d.cells && OtherMembers(old(d.cells)[t], d.cells[t], key)
    ensures !ok ==> Rooted(h, d.cells, {s})
  {
    hide Editing, Forest, Rooted, IsRoot, Denotes, Reaches;
    EditingParts(h, out, d.cells, {s, c}, t, cur);
    if key in d.cells[t].members {
      var e := d.cells[t].members[key];
      EditInstall(h, out, d.cells, s, t, cur, key, c, v);
      Install(d, e, c);
      return true;
    }
    ok := AttachKey(d, s, t, key, c, h, out, cur, v);
  }

  lemma EditRooted(h: Heap, out: Heap, g: Heap, s: Node, t: Node, cur: map<Bytes, Json>)
    requires Editing(h, out, g, {s}, t, cur)
    ensures Rooted(h, g, {s})
  {
  }

  // A member whose patch is an object becomes, or stays, an object.
  method OpenKey(d: Dom, s: Node, t: Node, key: Bytes, budget: PatchBudget,
                 ghost h: Heap, ghost out: Heap, ghost cur: map<Bytes, Json>)
    returns (code: PatchCode, child: Node)
    requires d.Valid() && budget.Valid() && Editing(h, out, d.cells, {s}, t, cur)
    modifies d, budget
    ensures d.Valid() && budget.Valid()
    ensures code == Fine ==>
      && Editing(h, out, d.cells, {s}, t, cur[key := Obj(if key in cur then BaseOf(cur[key]) else map[])])
      && t in old(d.cells) && t in d.cells && OtherMembers(old(d.cells)[t], d.cells[t], key)
      && key in d.cells[t].members && d.cells[t].members[key] == child
    ensures code != Fine ==> Gave(h, d.cells, s, code)
  {
    hide Editing, Forest, Rooted, Denotes, IsFreshTree, IsRoot;
    EditingParts(h, out, d.cells, {s}, t, cur);
    EditRooted(h, out, d.cells, s, t, cur);
    child := t;
    if key !in d.cells[t].members {
      var ok := budget.ChargeNodes(1);
      if !ok { return ResourceLimit, child; }
      ok := budget.ChargeBytes(NODE_BYTES);
      if !ok { return ResourceLimit, child; }
      code, child := OpenNew(d, s, t, key, h, out, cur);
    } else {
      child := d.cells[t].members[key];
      ObjectNode(d.cells, child, cur[key]);
      if !d.cells[child].Table? {
        EditReset(h, out, d.cells, s, t, cur, key);
        var ok := d.ResetTo(child, Table(map[]));
        if !ok { return AllocationFailure, child; }
      } else {
        assert cur[key := cur[key]] == cur;
      }
      code := Fine;
    }
  }

  lemma ObjectNode(g: Heap, n: Node, v: Json)
    requires Denotes(g, n, v)
    ensures n in g && (g[n].Table? <==> v.Obj?)
    ensures !v.Obj? ==> BaseOf(v) == map[]
  {
  }

  method OpenNew(d: Dom, s: Node, t: Node, key: Bytes, ghost h: Heap, ghost out: Heap, ghost cur: map<Bytes, Json>)
    returns (code: PatchCode, child: Node)
    requires d.Valid() && Editing(h, out, d.cells, {s}, t, cur) && key !in cur
    modifies d
    ensures d.Valid()
    ensures code == Fine ==>
      && Editing(h, out, d.cells, {s}, t, cur[key := Obj(map[])])
      && t in old(d.cells) && t in d.cells && OtherMembers(old(d.cells)[t], d.cells[t], key)
      && key in d.cells[t].members && d.cells[t].members[key] == child
    ensures code != Fine ==> Gave(h, d.cells, s, code)
  {
    hide Editing, Forest, Rooted, Denotes, IsFreshTree, IsRoot, Reaches;
    EditingParts(h, out, d.cells, {s}, t, cur);
    EditRooted(h, out, d.cells, s, t, cur);
    ghost var g0 := d.cells;
    var ok;
    child, ok := d.MakeNode();
    if !ok { return AllocationFailure, child; }
    LeafSet(d.cells, child, Table(map[]));
    ok := d.ResetTo(child, Table(map[]));
    if !ok {
      TempGone(g0, child);
      DestroyRoot(d, child);
      assert d.cells == g0;
      return AllocationFailure, child;
    }
    FreshObject(g0, child);
    assert d.cells == g0[child := Table(map[])];
    EditHold(h, out, g0, d.cells, s, t, cur, child, Obj(map[]));
    EditingParts(h, out, d.cells, {s, child}, t, cur);
    ghost var g1 := d.cells;
    ok := AttachKey(d, s, t, key, child, h, out, cur, Obj(map[]));
    code := if ok then Fine else AllocationFailure;
  }

  // What one merged member looks like afterwards.
  ghost predicate MemberMerged(next: map<Bytes, Json>, cur: map<Bytes, Json>, key: Bytes, p: Json) {
    next - {key} == cur - {key} && MidMember(next, cur, key, p)
  }

  // Merges one member of a patch object into t. A member whose patch is an
  // object is only opened; the caller queues it.
  method MergeMember(d: Dom, s: Node, t: Node, key: Bytes, x: Node, budget: PatchBudget,
                     ghost h: Heap, ghost out: Heap, ghost cur: map<Bytes, Json>)
    returns (code: PatchCode, child: Node, ghost next: map<Bytes, Json>)
    requires d.Valid() && budget.Valid() && Editing(h, out, d.cells, {s}, t, cur) && x in h && HasValue(h, x)
    modifies d, budget
    ensures d.Valid() && budget.Valid()
    ensures code == Fine ==>
      && Editing(h, out, d.cells, {s}, t, next) && MemberMerged(next, cur, key, ValueOf(h, x))
      && t in old(d.cells) && t in d.cells && OtherMembers(old(d.cells)[t], d.cells[t], key)
      && (h[x].Table? ==> key in d.cells[t].members && d.cells[t].members[key] == child)
    ensures code != Fine ==> Gave(h, d.cells, s, code)
  {
    hide Editing, Forest, Rooted, Denotes, OtherMembers;
    child, next := t, cur;
    EditRooted(h, out, d.cells, s, t, cur);
    ghost var p := ValueOf(h, x);
    var ok := budget.ChargeOperations(1);
    if !ok { return ResourceLimit, child, next; }
    ok := budget.ChargeWork(1);
    if !ok { return ResourceLimit, child, next; }
    ok := budget.ChargeBytes(|key|);
    if !ok { return ResourceLimit, child, next; }
    EditorReads(h, out, d.cells, s, t, cur, x);
    if d.cells[x] == NULL_BODY {
      EraseKey(d, s, t, key, h, out, cur);
      next := cur - {key};
      code := Fine;
    } else if d.cells[x].Table? {
      code, child := OpenKey(d, s, t, key, budget, h, out, cur);
      next := cur[key := Obj(if key in cur then BaseOf(cur[key]) else map[])];
      assert next - {key} == cur - {key};
    } else {
      code := ReplaceKey(d, s, t, key, x, budget, h, out, cur);
      next := cur[key := p];
      assert next - {key} == cur - {key};
    }
  }

  // The patch document reads the same throughout.
  lemma EditorReads(h: Heap, out: Heap, g: Heap, s: Node, t: Node, cur: map<Bytes, Json>, x: Node)
    requires Editing(h, out, g, {s}, t, cur) && x in h && HasValue(h, x)
    ensures x in g && g[x] == h[x] && HasValue(g, x) && ValueOf(g, x) == ValueOf(h, x)
    ensures h[x] == NULL_BODY <==> ValueOf(h, x) == Null
    ensures h[x].Table? <==> ValueOf(h, x).Obj?
  {
    forall y | y in h && Reaches(h, x, y) ensures y in g && g[y] == h[y] { }
    DenotesFrame(h, g, x, ValueOf(h, x));
    ValueIs(g, x, ValueOf(h, x));
  }

  method ReplaceKey(d: Dom, s: Node, t: Node, key: Bytes, x: Node, budget: PatchBudget,
                    ghost h: Heap, ghost out: Heap, ghost cur: map<Bytes, Json>)
    returns (code: PatchCode)
    requires d.Valid() && budget.Valid() && Editing(h, out, d.cells, {s}, t, cur) && x in h && HasValue(h, x)
    modifies d, budget
    ensures d.Valid() && budget.Valid()
    ensures code == Fine ==>
      && Editing(h, out, d.cells, {s}, t, cur[key := ValueOf(h, x)])
      && t in old(d.cells) && t in d.cells && OtherMembers(old(d.cells)[t], d.cells[t], key)
    ensures code != Fine ==> Gave(h, d.cells, s, code)
  {
    hide Editing, Forest, Rooted, Denotes, OtherMembers, IsFreshTree, IsRoot, Reaches;
    EditRooted(h, out, d.cells, s, t, cur);
    EditorReads(h, out, d.cells, s, t, cur, x);
    ghost var g0 := d.cells;
    var ok := MeasureClone(d, x, budget);
    if !ok { return ResourceLimit; }
    var c;
    ok, c := CloneTree(d, x, false);
    if !ok { return AllocationFailure; }
    EditHold(h, out, g0, d.cells, s, t, cur, c, ValueOf(h, x));
    EditingParts(h, out, d.cells, {s, c}, t, cur);
    ok := PutKey(d, s, t, key, c, h, out, cur, ValueOf(h, x));
    code := if ok then Fine else AllocationFailure;
  }

  // ---- One pending target ----

  // The members outside `keys` that were opened are queued, once each.
  ghost predicate Opened(h: Heap, g: Heap, p: Node, t: Node, keys: set<Bytes>, rest: seq<MergeItem>,
                         work: seq<MergeItem>) {
    && p in h && h[p].Table? && t in g && g[t].Table? && rest <= work
    && (forall i :: |rest| <= i < |work| ==> OpenedItem(h, g, p, t, keys, work[i]))
    && (forall k :: k in h[p].members && k !in keys && h[p].members[k] in h && h[h[p].members[k]].Table? ==>
      k in g[t].members && exists i :: |rest| <= i < |work| && work[i] == Item(h[p].members[k], g[t].members[k]))
    && (forall i, j :: |rest| <= i < j < |work| ==> work[i].src != work[j].src)
  }

  ghost predicate OpenedItem(h: Heap, g: Heap, p: Node, t: Node, keys: set<Bytes>, it: MergeItem)
    requires p in h && h[p].Table? && t in g && g[t].Table?
  {
    exists k :: k in h[p].members && k !in keys && k in g[t].members
      && h[p].members[k] in h && h[h[p].members[k]].Table?
      && it == Item(h[p].members[k], g[t].members[k])
  }

  lemma OpenStep(h: Heap, g0: Heap, g: Heap, p: Node, t: Node, keys: set<Bytes>, k: Bytes, rest: seq<MergeItem>,
                 was: seq<MergeItem>, work: seq<MergeItem>)
    requires Opened(h, g0, p, t, keys, rest, was) && k in keys && k in h[p].members && h[p].members[k] in h
    requires t in g && OtherMembers(g0[t], g[t], k) && GoodBody(h[p])
    requires h[h[p].members[k]].Table? ==> k in g[t].members
    requires work == if h[h[p].members[k]].Table? then was + [Item(h[p].members[k], g[t].members[k])] else was
    ensures Opened(h, g, p, t, keys - {k}, rest, work)
  {
    var before, after := g0[t].members, g[t].members;
    forall j | j != k ensures (j in before <==> j in after) && (j in before ==> before[j] == after[j]) {
      assert j in before - {k} <==> j in before;
      assert j in after - {k} <==> j in after;
      if j in before { assert (before - {k})[j] == before[j] && (after - {k})[j] == after[j]; }
    }
    forall i | |rest| <= i < |work| ensures OpenedItem(h, g, p, t, keys - {k}, work[i]) {
      if i < |was| { assert OpenedItem(h, g0, p, t, keys, was[i]); }
    }
    OpenedAll(h, g0, g, p, t, keys, k, rest, was, work);
    forall i, j | |rest| <= i < j < |work| ensures work[i].src != work[j].src {
      if j == |was| { assert OpenedItem(h, g0, p, t, keys, was[i]); }
    }
  }

  lemma OpenedAll(h: Heap, g0: Heap, g: Heap, p: Node, t: Node, keys: set<Bytes>, k: Bytes, rest: seq<MergeItem>,
                  was: seq<MergeItem>, work: seq<MergeItem>)
    requires Opened(h, g0, p, t, keys, rest, was) && k in keys && k in h[p].members && h[p].members[k] in h
    requires t in g && g[t].Table? && forall j :: j != k ==>
      (j in g0[t].members <==> j in g[t].members) && (j in g[t].members ==> g0[t].members[j] == g[t].members[j])
    requires h[h[p].members[k]].Table? ==> k in g[t].members
    requires work == if h[h[p].members[k]].Table? then was + [Item(h[p].members[k], g[t].members[k])] else was
    ensures forall j :: j in h[p].members && j !in keys - {k} && h[p].members[j] in h && h[h[p].members[j]].Table? ==>
      j in g[t].members && exists i :: |rest| <= i < |work| && work[i] == Item(h[p].members[j], g[t].members[j])
  {
    forall j | j in h[p].members && j !in keys - {k} && h[p].members[j] in h && h[h[p].members[j]].Table?
      ensures j in g[t].members && exists i :: |rest| <= i < |work| && work[i] == Item(h[p].members[j], g[t].members[j])
    {
      if j == k {
        assert work[|was|] == Item(h[p].members[k], g[t].members[k]);
      } else {
        var i :| |rest| <= i < |was| && was[i] == Item(h[p].members[j], g0[t].members[j]);
        assert work[i] == was[i];
      }
    }
  }

  lemma PatchMembers(h: Heap, p: Node, v: Json)
    requires Forest(h) && Denotes(h, p, v) && h[p].Table?
    ensures v.Obj? && v.members.Keys == h[p].members.Keys && GoodBody(h[p])
    ensures forall k :: k in v.members ==>
      h[p].members[k] in h && HasValue(h, h[p].members[k]) && ValueOf(h, h[p].members[k]) == v.members[k]
      && (h[h[p].members[k]].Table? <==> v.members[k].Obj?)
  {
    forall k | k in v.members
      ensures h[p].members[k] in h && HasValue(h, h[p].members[k]) && ValueOf(h, h[p].members[k]) == v.members[k]
    {
      ValueIs(h, h[p].members[k], v.members[k]);
    }
  }

  // Merges all members of the patch object at p into the object at t.
  method MergeMembers(d: Dom, s: Node, t: Node, p: Node, rest: seq<MergeItem>, budget: PatchBudget,
                      ghost h: Heap, ghost out: Heap, ghost base: map<Bytes, Json>)
    returns (code: PatchCode, work: seq<MergeItem>, ghost cur: map<Bytes, Json>)
    requires d.Valid() && budget.Valid() && Editing(h, out, d.cells, {s}, t, base)
    requires p in h && h[p].Table? && HasValue(h, p)
    modifies d, budget
    ensures d.Valid() && budget.Valid()
    ensures code == Fine ==>
      && Editing(h, out, d.cells, {s}, t, cur)
      && ValueOf(h, p).Obj? && MidMerge(cur, base, ValueOf(h, p).members, {})
      && Opened(h, d.cells, p, t, {}, rest, work)
    ensures code != Fine ==> Gave(h, d.cells, s, code)
  {
    hide Editing, Forest, Rooted, Denotes, OtherMembers, Opened, MidMerge, MidMember;
    ghost var pm := BaseOf(ValueOf(h, p));
    EditorReads(h, out, d.cells, s, t, base, p);
    assert Forest(h) by { EditForest(h, out, d.cells, s, t, base); }
    PatchMembers(h, p, ValueOf(h, p));
    EditingParts(h, out, d.cells, {s}, t, base);
    var members := d.cells[p].members;
    var keys := members.Keys;
    work, cur, code := rest, base, Fine;
    assert MidMerge(cur, base, pm, keys) by { MidStart(base, pm); }
    assert Opened(h, d.cells, p, t, keys, rest, work) by { OpenStart(h, d.cells, p, t, rest); }
    while keys != {}
      invariant d.Valid() && budget.Valid() && keys <= members.Keys && code == Fine
      invariant Editing(h, out, d.cells, {s}, t, cur) && MidMerge(cur, base, pm, keys)
      invariant Opened(h, d.cells, p, t, keys, rest, work)
    {
      var k :| k in keys;
      var x := members[k];
      var child;
      ghost var g0, was := d.cells, cur;
      EditorReads(h, out, d.cells, s, t, cur, x);
      code, child, cur := MergeMember(d, s, t, k, x, budget, h, out, cur);
      if code != Fine { return; }
      ghost var before := work;
      EditorReads(h, out, d.cells, s, t, cur, x);
      if d.cells[x].Table? { work := work + [Item(x, child)]; }
      OpenStep(h, g0, d.cells, p, t, keys, k, rest, before, work);
      MidNext(was, cur, base, pm, keys, k);
      keys := keys - {k};
    }
  }

  lemma EditForest(h: Heap, out: Heap, g: Heap, s: Node, t: Node, cur: map<Bytes, Json>)
    requires Editing(h, out, g, {s}, t, cur)
    ensures Forest(h)
  {
  }

  lemma MidStart(base: map<Bytes, Json>, pm: map<Bytes, Json>)
    ensures MidMerge(base, base, pm, pm.Keys)
  {
  }

  lemma OpenStart(h: Heap, g: Heap, p: Node, t: Node, rest: seq<MergeItem>)
    requires p in h && h[p].Table? && t in g && g[t].Table?
    ensures Opened(h, g, p, t, h[p].members.Keys, rest, rest)
  {
  }

  lemma MidNext(was: map<Bytes, Json>, cur: map<Bytes, Json>, base: map<Bytes, Json>, pm: map<Bytes, Json>,
                keys: set<Bytes>, k: Bytes)
    requires MidMerge(was, base, pm, keys) && k in keys && k in pm && MemberMerged(cur, was, k, pm[k])
    ensures MidMerge(cur, base, pm, keys - {k})
  {
    MidStep(was, cur, base, pm, keys, k);
  }

  // The targets opened below t, with their patches.
  ghost function OpenedPend(r: Heap, t: Node, pm: map<Bytes, Json>): map<Node, Json>
    requires t in r && r[t].Table? && GoodBody(r[t])
  {
    map k | k in pm && pm[k].Obj? && k in r[t].members :: r[t].members[k] := pm[k]
  }

  // What a popped target leaves in progress.
  ghost predicate Popped(h: Heap, g: Heap, s: Node, final: Json, rest: seq<MergeItem>, pend: map<Node, Json>,
                         it: MergeItem) {
    Merging(h, g, s, final, rest + [it], pend)
  }

  lemma PoppedParts(h: Heap, g: Heap, s: Node, final: Json, rest: seq<MergeItem>, pend: map<Node, Json>, it: MergeItem)
    requires Popped(h, g, s, final, rest, pend, it)
    ensures Forest(h) && Rooted(h, g, {s}) && ItemOk(h, g, it, pend) && Antichain(g, pend.Keys)
    ensures WillBe(g, s, final, pend)
    ensures Forest(g) && Targets(h, g, rest + [it], pend) && Spread(h, rest + [it])
    ensures HasValue(g, it.dst)
  {
    var work := rest + [it];
    assert work[|rest|] == it;
    assert ItemOk(h, g, work[|rest|], pend);
  }

  lemma SeparateStart(g: Heap, t: Node)
    requires Forest(g) && t in g
    ensures Intact(Without(g, t), g) && Apart(Without(g, t), g) && t !in Without(g, t)
  {
    ReachSelf(g, t);
    forall o, k | o in g && o !in Without(g, t) && Owns(g[o], k) ensures k !in Without(g, t) {
      ReachSelf(g, k);
      ReachKid(g, o, k, k);
      ReachTransitive(g, t, o, k);
    }
  }

  // A target that is not an object is emptied first.
  lemma EditStart(h: Heap, g: Heap, s: Node, t: Node)
    requires Forest(h) && Rooted(h, g, {s}) && t in g && t !in h && HasValue(g, t)
    ensures g[t].Table? ==> Editing(h, Without(g, t), g, {s}, t, BaseOf(ValueOf(g, t)))
    ensures !g[t].Table? ==> Editing(h, Without(g, t), Cleared(g, t, Table(map[])), {s}, t, BaseOf(ValueOf(g, t)))
  {
    hide Reaches, Owns, IsRoot, Forest, Intact, Apart;
    SeparateStart(g, t);
    ObjectNode(g, t, ValueOf(g, t));
    if g[t].Table? {
    } else {
      FreshAddress(g);
      var c :| c !in g;
      var r := g[c := Table(map[])];
      FreshObject(g, c);
      CopyAdds(h, g, r, {s}, c, Obj(map[]));
      assert {s} + {c} == {s, c};
      assert !Reaches(r, c, t) by { FreshApart(g, r, c, Obj(map[]), t); }
      InstallRooted(h, r, {s, c}, t, c);
      assert {s, c} - {c} == {s};
      InstallForest(r, t, c);
      ValueIs(r, c, Obj(map[]));
      ResetIsInstall(g, t, c);
      SeparateFresh(Without(g, t), g, r, c, Obj(map[]));
      InstallSeparate(Without(g, t), r, t, c);
    }
  }

  lemma FreshApart(g: Heap, r: Heap, c: Node, v: Json, t: Node)
    requires IsFreshTree(g, r, c, v) && t in g
    ensures !Reaches(r, c, t) && t in r && c in r && IsRoot(r, c) && Forest(r) && c !in g
  {
  }

  lemma SeparateFresh(out: Heap, g: Heap, r: Heap, c: Node, v: Json)
    requires Forest(g) && Intact(out, g) && Apart(out, g) && IsFreshTree(g, r, c, v)
    ensures Intact(out, r) && Apart(out, r) && c !in out
  {
    forall o, k | o in r && o !in out && Owns(r[o], k) ensures k !in out { FreshOwns(g, r, c, v, o, k); }
  }

  ghost predicate OpenedBelow(r: Heap, t: Node, pm: map<Bytes, Json>, x: Node)
    requires t in r && r[t].Table?
  {
    exists k :: k in pm && pm[k].Obj? && k in r[t].members && r[t].members[k] == x
  }

  // left is what is pending after t is done: the other targets, and those
  // opened below t.
  ghost predicate LeftPending(r: Heap, t: Node, pm: map<Bytes, Json>, pend: map<Node, Json>, left: map<Node, Json>)
    requires t in r && r[t].Table?
  {
    && (forall k :: k in pm && pm[k].Obj? && k in r[t].members ==>
         r[t].members[k] in left && left[r[t].members[k]] == pm[k])
    && (forall x :: x in pend && x != t ==> x in left && left[x] == pend[x])
    && (forall x :: x in left ==> (x in pend && x != t) || OpenedBelow(r, t, pm, x))
  }

  // The heap g has become r by finishing the target t.
  ghost predicate Finishing(h: Heap, out: Heap, g: Heap, r: Heap, s: Node, t: Node, cur: map<Bytes, Json>,
                            pend: map<Node, Json>, left: map<Node, Json>) {
    && Forest(g) && t in pend && t in g && Antichain(g, pend.Keys) && pend[t].Obj? && out == Without(g, t)
    && Editing(h, out, r, {s}, t, cur)
    && t in r && r[t].Table? && LeftPending(r, t, pend[t].members, pend, left)
  }

  lemma EditedShape(h: Heap, out: Heap, r: Heap, s: Node, t: Node, cur: map<Bytes, Json>)
    requires Editing(h, out, r, {s}, t, cur)
    ensures Forest(r) && t in r && r[t].Table? && GoodBody(r[t]) && t !in h && t !in out && Intact(out, r)
    ensures Apart(out, r)
    ensures r[t].members.Keys == cur.Keys
    ensures forall k :: k in cur ==>
      && Owns(r[t], r[t].members[k]) && r[t].members[k] in r
      && r[t].members[k] !in h && r[t].members[k] !in out && r[t].members[k] != t
      && Denotes(r, r[t].members[k], cur[k])
  {
    EditingParts(h, out, r, {s}, t, cur);
    ForestKids(r, t);
    forall k | k in cur ensures r[t].members[k] != t { OwnerAbove(r, t, r[t].members[k]); }
  }

  lemma PendingOutside(g: Heap, t: Node, pend: map<Node, Json>, x: Node)
    requires Antichain(g, pend.Keys) && t in pend && x in pend && x != t
    ensures x in Without(g, t)
  {
  }

  lemma OpenedPendIs(r: Heap, t: Node, pm: map<Bytes, Json>)
    requires t in r && r[t].Table? && GoodBody(r[t])
    ensures forall k :: k in pm && pm[k].Obj? && k in r[t].members ==>
      r[t].members[k] in OpenedPend(r, t, pm) && OpenedPend(r, t, pm)[r[t].members[k]] == pm[k]
    ensures forall x :: x in OpenedPend(r, t, pm) ==> OpenedBelow(r, t, pm, x)
  {
  }

  lemma LeftIsPending(r: Heap, t: Node, pm: map<Bytes, Json>, pend: map<Node, Json>)
    requires t in r && r[t].Table? && GoodBody(r[t])
    requires forall x :: x in pend && x != t ==> !OpenedBelow(r, t, pm, x)
    ensures LeftPending(r, t, pm, pend, pend - {t} + OpenedPend(r, t, pm))
  {
    OpenedPendIs(r, t, pm);
    hide OpenedPend;
  }

  lemma FinishStart(h: Heap, out: Heap, g: Heap, r: Heap, s: Node, t: Node, cur: map<Bytes, Json>,
                    pend: map<Node, Json>)
    requires Forest(g) && t in pend && t in g && Antichain(g, pend.Keys) && pend[t].Obj? && out == Without(g, t)
    requires Editing(h, out, r, {s}, t, cur)
    ensures t in r && r[t].Table? && GoodBody(r[t])
    ensures Finishing(h, out, g, r, s, t, cur, pend, pend - {t} + OpenedPend(r, t, pend[t].members))
  {
    hide Forest, Antichain, Editing, Owns, Denotes, Reaches, Without, LeftPending, OpenedPend;
    EditedShape(h, out, r, s, t, cur);
    forall x | x in pend && x != t ensures !OpenedBelow(r, t, pend[t].members, x) { PendingOutside(g, t, pend, x); }
    LeftIsPending(r, t, pend[t].members, pend);
  }

  // Where a pending target sits: outside t's tree, or a child of t.
  lemma FinishParts(h: Heap, out: Heap, g: Heap, r: Heap, s: Node, t: Node, cur: map<Bytes, Json>,
                    pend: map<Node, Json>, left: map<Node, Json>, x: Node)
    requires Finishing(h, out, g, r, s, t, cur, pend, left)
    ensures Forest(r) && Intact(out, r) && Apart(out, r) && t !in out
    ensures x in left <==> (x in pend && x != t) || OpenedBelow(r, t, pend[t].members, x)
    ensures x in pend && x != t ==> x in out && left[x] == pend[x]
    ensures OpenedBelow(r, t, pend[t].members, x) ==> x in r && x !in out && x !in h && x != t && Owns(r[t], x)
  {
    hide Forest, Antichain, Editing, Owns, Denotes, Reaches;
    EditedShape(h, out, r, s, t, cur);
    if x in pend && x != t { PendingOutside(g, t, pend, x); }
  }

  lemma RetiresHolds(h: Heap, out: Heap, g: Heap, r: Heap, s: Node, t: Node, cur: map<Bytes, Json>,
                     pend: map<Node, Json>, left: map<Node, Json>)
    requires Finishing(h, out, g, r, s, t, cur, pend, left)
    ensures Retires(g, r, t, pend, left)
  {
    hide Forest, Antichain, Editing, Owns, Denotes, OpenedBelow, LeftPending;
    forall x ensures (x in out ==> (x in left <==> x in pend) && (x in pend ==> left[x] == pend[x])) {
      FinishParts(h, out, g, r, s, t, cur, pend, left, x);
    }
    FinishParts(h, out, g, r, s, t, cur, pend, left, t);
    ReachSelf(g, t);
  }

  // A member that is not queued has no pending target below it.
  lemma FinalSibling(h: Heap, out: Heap, g: Heap, r: Heap, s: Node, t: Node, cur: map<Bytes, Json>,
                     pend: map<Node, Json>, left: map<Node, Json>, c: Node, x: Node)
    requires Finishing(h, out, g, r, s, t, cur, pend, left)
    requires Owns(r[t], c) && !OpenedBelow(r, t, pend[t].members, c) && x in left
    ensures !Reaches(r, c, x)
  {
    hide Forest, Reaches, Owns, Denotes, Editing, LeftPending, OpenedBelow, Antichain;
    FinishParts(h, out, g, r, s, t, cur, pend, left, x);
    if Reaches(r, c, x) {
      if x in pend && x != t {
        assert c !in out;
        NewBelow(out, r, c, x);
      } else {
        ReachSelf(r, x);
        SiblingsDisjoint(r, t, c, x, x);
      }
    }
  }

  lemma TargetStands(h: Heap, out: Heap, g: Heap, r: Heap, s: Node, t: Node, cur: map<Bytes, Json>,
                     pend: map<Node, Json>, left: map<Node, Json>)
    requires Finishing(h, out, g, r, s, t, cur, pend, left) && HasValue(g, t)
    requires MidMerge(cur, BaseOf(ValueOf(g, t)), pend[t].members, {})
    ensures WillBe(r, t, Merge(ValueOf(g, t), pend[t]), left)
  {
    hide Forest, Reaches, Owns, Denotes, Editing, MidMerge, Merge, BaseOf, Antichain;
    var pm := pend[t].members;
    var v := Merge(ValueOf(g, t), pend[t]);
    EditedShape(h, out, r, s, t, cur);
    MidDone(cur, ValueOf(g, t), pend[t], []);
    forall k | k in cur ensures WillBe(r, r[t].members[k], v.members[k], left) {
      MidDone(cur, ValueOf(g, t), pend[t], k);
      var c := r[t].members[k];
      if k in pm && pm[k].Obj? {
        ValueIs(r, c, cur[k]);
      } else {
        assert !OpenedBelow(r, t, pm, c);
        forall x | x in left ensures !Reaches(r, c, x) { FinalSibling(h, out, g, r, s, t, cur, pend, left, c, x); }
        FinalBelow(r, c, cur[k], left);
      }
    }
    assert t !in left by { FinishParts(h, out, g, r, s, t, cur, pend, left, t); }
    assert WillBe(r, t, Obj(v.members), left);
  }

  // The tree of another pending target is untouched.
  lemma PendingTreeKept(g: Heap, r: Heap, t: Node, pend: map<Node, Json>, a: Node, b: Node)
    requires Forest(g) && Antichain(g, pend.Keys) && t in pend && a in pend && a != t && Intact(Without(g, t), r)
    ensures Reaches(r, a, b) ==> Reaches(g, a, b) && b in Without(g, t)
  {
    var out := Without(g, t);
    forall x | x in g && Reaches(g, a, x) ensures x in r && r[x] == g[x] && x in out {
      if Reaches(g, t, x) { NestedOrDisjoint(g, a, t, x); }
    }
    ReachFrame(g, r, a, b);
    if Reaches(g, a, b) { ReachLive(g, a, b); }
  }

  lemma LeftApart(h: Heap, out: Heap, g: Heap, r: Heap, s: Node, t: Node, cur: map<Bytes, Json>,
                  pend: map<Node, Json>, left: map<Node, Json>, a: Node, b: Node)
    requires Finishing(h, out, g, r, s, t, cur, pend, left) && a in left && b in left && Reaches(r, a, b)
    ensures a == b
  {
    hide Forest, Reaches, Owns, Denotes, Editing, LeftPending, OpenedBelow, Antichain;
    FinishParts(h, out, g, r, s, t, cur, pend, left, a);
    FinishParts(h, out, g, r, s, t, cur, pend, left, b);
    if a in pend && a != t {
      PendingTreeKept(g, r, t, pend, a, b);
      PendingTwins(g, pend, a, b);
    } else {
      NewBelow(out, r, a, b);
      ReachSelf(r, b);
      SiblingsDisjoint(r, t, a, b, b);
    }
  }

  lemma PendingTwins(g: Heap, pend: map<Node, Json>, a: Node, b: Node)
    requires Antichain(g, pend.Keys) && a in pend && b in pend && Reaches(g, a, b)
    ensures a == b
  {
  }

  lemma LeftAntichain(h: Heap, out: Heap, g: Heap, r: Heap, s: Node, t: Node, cur: map<Bytes, Json>,
                      pend: map<Node, Json>, left: map<Node, Json>)
    requires Finishing(h, out, g, r, s, t, cur, pend, left)
    ensures Antichain(r, left.Keys)
  {
    hide Forest, Reaches, Owns, Denotes, Editing, LeftPending, OpenedBelow;
    forall x | x in left ensures x in r { FinishParts(h, out, g, r, s, t, cur, pend, left, x); }
    forall a, b | a in left && b in left && Reaches(r, a, b) ensures a == b {
      LeftApart(h, out, g, r, s, t, cur, pend, left, a, b);
    }
  }

  // ---- The queue after a target is done ----

  lemma QueuedOld(h: Heap, out: Heap, g: Heap, r: Heap, s: Node, t: Node, p: Node, cur: map<Bytes, Json>,
                  rest: seq<MergeItem>, pend: map<Node, Json>, left: map<Node, Json>, i: nat)
    requires Finishing(h, out, g, r, s, t, cur, pend, left) && Targets(h, g, rest + [Item(p, t)], pend) && i < |rest|
    ensures ItemOk(h, r, rest[i], left) && rest[i].dst in out
  {
    hide Forest, Reaches, Owns, Denotes, Editing, LeftPending, OpenedBelow, Antichain;
    var was := rest + [Item(p, t)];
    assert was[i] == rest[i] && was[|rest|].dst == t;
    assert ItemOk(h, g, was[i], pend);
    FinishParts(h, out, g, r, s, t, cur, pend, left, rest[i].dst);
  }

  lemma QueuedNew(h: Heap, out: Heap, g: Heap, r: Heap, s: Node, t: Node, p: Node, cur: map<Bytes, Json>,
                  pend: map<Node, Json>, left: map<Node, Json>, it: MergeItem)
    requires Forest(h) && Finishing(h, out, g, r, s, t, cur, pend, left) && p in h && h[p].Table?
    requires OpenedItem(h, r, p, t, {}, it)
    requires HasValue(h, p) && pend[t] == ValueOf(h, p)
    ensures ItemOk(h, r, it, left) && it.dst !in out
  {
    hide Forest, Reaches, Owns, Denotes, Editing, Antichain;
    PatchMembers(h, p, pend[t]);
    var k :| k in h[p].members && k in r[t].members && it == Item(h[p].members[k], r[t].members[k])
      && h[p].members[k] in h && h[h[p].members[k]].Table?;
    assert OpenedBelow(r, t, pend[t].members, it.dst);
    FinishParts(h, out, g, r, s, t, cur, pend, left, it.dst);
  }

  lemma LeftQueued(h: Heap, g: Heap, r: Heap, t: Node, p: Node, rest: seq<MergeItem>, work: seq<MergeItem>,
                   pend: map<Node, Json>, x: Node)
    requires Forest(h) && Targets(h, g, rest + [Item(p, t)], pend) && t in pend && pend[t].Obj?
    requires p in h && HasValue(h, p) && pend[t] == ValueOf(h, p)
    requires t in r && r[t].Table? && Opened(h, r, p, t, {}, rest, work)
    requires (x in pend && x != t) || OpenedBelow(r, t, pend[t].members, x)
    ensures exists i :: 0 <= i < |work| && work[i].dst == x
  {
    hide Forest, Reaches, Owns, Denotes, Antichain;
    var was := rest + [Item(p, t)];
    if x in pend && x != t {
      var i :| 0 <= i < |was| && was[i].dst == x;
      assert i < |rest| && work[i] == was[i];
    } else {
      PatchMembers(h, p, pend[t]);
      var k :| k in pend[t].members && pend[t].members[k].Obj? && k in r[t].members && r[t].members[k] == x;
      var i :| |rest| <= i < |work| && work[i] == Item(h[p].members[k], r[t].members[k]);
    }
  }

  lemma QueuedDistinct(h: Heap, g: Heap, r: Heap, t: Node, p: Node, rest: seq<MergeItem>, work: seq<MergeItem>,
                       pend: map<Node, Json>, out: Heap, i: nat, j: nat)
    requires Targets(h, g, rest + [Item(p, t)], pend) && t in r && r[t].Table? && GoodBody(r[t]) && p in h
    requires h[p].Table?
    requires Opened(h, r, p, t, {}, rest, work) && i < j < |work|
    requires forall m :: 0 <= m < |work| ==> (work[m].dst in out <==> m < |rest|)
    ensures work[i].dst != work[j].dst
  {
    hide Reaches, Owns, Antichain;
    var was := rest + [Item(p, t)];
    if j < |rest| { assert was[i] == work[i] && was[j] == work[j]; }
    else if i >= |rest| {
      assert OpenedItem(h, r, p, t, {}, work[i]) && OpenedItem(h, r, p, t, {}, work[j]);
      var a :| a in h[p].members && a in r[t].members && work[i] == Item(h[p].members[a], r[t].members[a]);
      var b :| b in h[p].members && b in r[t].members && work[j] == Item(h[p].members[b], r[t].members[b]);
      assert work[i].src != work[j].src;
    }
  }

  lemma QueuedTargets(h: Heap, out: Heap, g: Heap, r: Heap, s: Node, t: Node, p: Node, rest: seq<MergeItem>,
                      work: seq<MergeItem>,
                      pend: map<Node, Json>, cur: map<Bytes, Json>, left: map<Node, Json>)
    requires Forest(h) && Finishing(h, out, g, r, s, t, cur, pend, left) && Targets(h, g, rest + [Item(p, t)], pend)
    requires p in h && HasValue(h, p) && pend[t] == ValueOf(h, p)
    requires Opened(h, r, p, t, {}, rest, work)
    ensures Targets(h, r, work, left)
  {
    hide Forest, Reaches, Owns, Denotes, Editing, Antichain, ItemOk, OpenedItem, OpenedBelow, LeftPending;
    LeftAntichain(h, out, g, r, s, t, cur, pend, left);
    EditedShape(h, out, r, s, t, cur);
    forall i | 0 <= i < |work| ensures ItemOk(h, r, work[i], left) && (work[i].dst in out <==> i < |rest|) {
      if i < |rest| { QueuedOld(h, out, g, r, s, t, p, cur, rest, pend, left, i); assert work[i] == rest[i]; }
      else { QueuedNew(h, out, g, r, s, t, p, cur, pend, left, work[i]); }
    }
    forall x | x in left ensures exists i :: 0 <= i < |work| && work[i].dst == x {
      FinishParts(h, out, g, r, s, t, cur, pend, left, x);
      LeftQueued(h, g, r, t, p, rest, work, pend, x);
    }
    forall i, j | 0 <= i < j < |work| ensures work[i].dst != work[j].dst {
      QueuedDistinct(h, g, r, t, p, rest, work, pend, out, i, j);
    }
  }

  lemma QueuedSpread(h: Heap, r: Heap, p: Node, t: Node, rest: seq<MergeItem>, work: seq<MergeItem>)
    requires Forest(h) && Spread(h, rest + [Item(p, t)]) && Opened(h, r, p, t, {}, rest, work)
    ensures Spread(h, work) && Below(h, Sources(work)) < Below(h, Sources(rest + [Item(p, t)]))
  {
    forall i | |rest| <= i < |work| ensures work[i].src in KidsOf(h, p) {
      assert OpenedItem(h, r, p, t, {}, work[i]);
      var k :| k in h[p].members && work[i].src == h[p].members[k];
      assert Owns(h[p], work[i].src);
    }
    SpreadStep(h, rest + [Item(p, t)], Item(p, t), rest, work);
  }

  lemma RootAbove(h: Heap, g: Heap, s: Node, t: Node)
    requires Rooted(h, g, {s})
    ensures Reaches(g, t, s) ==> s == t
  {
    RootUntouched(g, t, s);
  }

  // Every member merged or opened: the document stands for the same value, and
  // the opened members are queued in place of t.
  lemma TargetDone(h: Heap, g: Heap, r: Heap, s: Node, t: Node, p: Node, rest: seq<MergeItem>, work: seq<MergeItem>,
                   final: Json, pend: map<Node, Json>, cur: map<Bytes, Json>)
    requires Popped(h, g, s, final, rest, pend, Item(p, t))
    requires Editing(h, Without(g, t), r, {s}, t, cur) && HasValue(g, t) && HasValue(h, p) && ValueOf(h, p).Obj?
    requires MidMerge(cur, BaseOf(ValueOf(g, t)), ValueOf(h, p).members, {})
    requires Opened(h, r, p, t, {}, rest, work)
    ensures t in r && r[t].Table? && GoodBody(r[t])
    ensures Merging(h, r, s, final, work, pend - {t} + OpenedPend(r, t, ValueOf(h, p).members))
    ensures Below(h, Sources(work)) < Below(h, Sources(rest + [Item(p, t)]))
  {
    hide Popped, Forest, Reaches, Owns, Denotes, Editing, Opened, MidMerge, WillBe, Antichain, Targets, Spread;
    hide Finishing, Retires;
    var out := Without(g, t);
    PoppedParts(h, g, s, final, rest, pend, Item(p, t));
    FinishStart(h, out, g, r, s, t, cur, pend);
    var left := pend - {t} + OpenedPend(r, t, ValueOf(h, p).members);
    RetiresHolds(h, out, g, r, s, t, cur, pend, left);
    TargetStands(h, out, g, r, s, t, cur, pend, left);
    RootAbove(h, g, s, t);
    HoleFilled(g, r, s, final, t, pend, left);
    QueuedTargets(h, out, g, r, s, t, p, rest, work, pend, cur, left);
    QueuedSpread(h, r, p, t, rest, work);
    EditRooted(h, out, r, s, t, cur);
  }

  // ---- The loop ----

  // Takes one target off the work list and finishes it.
  method MergeTarget(d: Dom, s: Node, it: MergeItem, rest: seq<MergeItem>, budget: PatchBudget,
                     ghost h: Heap, ghost final: Json, ghost pend: map<Node, Json>)
    returns (code: PatchCode, work: seq<MergeItem>, ghost left: map<Node, Json>)
    requires d.Valid() && budget.Valid() && Merging(h, d.cells, s, final, rest + [it], pend)
    modifies d, budget
    ensures d.Valid() && budget.Valid()
    ensures code == Fine ==> Merging(h, d.cells, s, final, work, left)
    ensures code == Fine ==> Below(h, Sources(work)) < Below(h, Sources(rest + [it]))
    ensures code != Fine ==> Gave(h, d.cells, s, code)
  {
    hide Forest, Merging, Editing, Opened, MidMerge, WillBe, Rooted, Targets, Spread, Antichain, Reaches, Owns, Denotes;
    ghost var g := d.cells;
    var t, p := it.dst, it.src;
    work, left := rest, pend;
    assert Popped(h, g, s, final, rest, pend, it);
    PoppedParts(h, g, s, final, rest, pend, it);
    EditStart(h, g, s, t);
    if !d.cells[t].Table? {
      var ok := d.ResetTo(t, Table(map[]));
      if !ok { return AllocationFailure, work, left; }
    }
    ghost var cur;
    code, work, cur := MergeMembers(d, s, t, p, rest, budget, h, Without(g, t), BaseOf(ValueOf(g, t)));
    if code != Fine { return; }
    assert it == Item(p, t);
    TargetDone(h, g, d.cells, s, t, p, rest, work, final, pend, cur);
    left := pend - {t} + OpenedPend(d.cells, t, ValueOf(h, p).members);
  }

  function OnePending(s: Node, v: Json): map<Node, Json> {
    map[s := v]
  }

  lemma MergeStart(h: Heap, g: Heap, s: Node, doc: Json, p: Node)
    requires Working(h, g, s, doc) && p in h && h[p].Table? && HasValue(h, p)
    ensures Merging(h, g, s, Merge(doc, ValueOf(h, p)), [Item(p, s)], OnePending(s, ValueOf(h, p)))
  {
    hide Forest, Owns;
    var work, pend := [Item(p, s)], OnePending(s, ValueOf(h, p));
    WorkParts(h, g, s, doc);
    assert Sources(work) == {p} by { assert work[0].src == p; }
    forall x | x in pend ensures exists i :: 0 <= i < |work| && work[i].dst == x { assert work[0].dst == x; }
    assert ItemOk(h, g, work[0], pend);
  }

  lemma MergeEnd(h: Heap, g: Heap, s: Node, final: Json, pend: map<Node, Json>)
    requires Merging(h, g, s, final, [], pend)
    ensures Working(h, g, s, final)
  {
    assert pend == map[];
    NothingPending(g, s, final);
  }

  lemma GaveUp(h: Heap, g: Heap, s: Node, code: PatchCode)
    requires Forest(h) && Gave(h, g, s, code)
    ensures StillPrivate(h, g, s)
  {
    LiveHasValue(g, s);
    assert Working(h, g, s, ValueOf(g, s));
  }

  // Merges the patch at p into the working document.
  method MergeInto(d: Dom, s: Node, p: Node, budget: PatchBudget, ghost h: Heap, ghost doc: Json)
    returns (code: PatchCode)
    requires d.Valid() && budget.Valid() && Working(h, d.cells, s, doc) && p in h && HasValue(h, p)
    modifies d, budget
    ensures d.Valid() && budget.Valid()
    ensures code == Fine ==> Working(h, d.cells, s, Merge(doc, ValueOf(h, p)))
    ensures code != Fine ==> OutOfResources(code) && StillPrivate(h, d.cells, s)
  {
    hide Forest, Merging, Working, Denotes, Gave, Reaches, IsRoot, IsFreshTree, Merge, Holding;
    WorkParts(h, d.cells, s, doc);
    CallerBody(h, d.cells, s, doc, p);
    CallerValue(h, d.cells, s, doc, p);
    ghost var v := ValueOf(h, p);
    if !d.cells[p].Table? {
      assert Merge(doc, v) == v by { WholePatch(h, p, doc); }
      code := ReplaceWhole(d, s, p, budget, h, doc);
      return;
    }
    var work := [Item(p, s)];
    ghost var pend := OnePending(s, v);
    MergeStart(h, d.cells, s, doc, p);
    while work != []
      invariant d.Valid() && budget.Valid() && Merging(h, d.cells, s, Merge(doc, v), work, pend)
      decreases Below(h, Sources(work))
    {
      ghost var was := work;
      var it := work[|work| - 1];
      work := work[..|work| - 1];
      assert was == work + [it];
      code, work, pend := MergeTarget(d, s, it, work, budget, h, Merge(doc, v), pend);
      if code != Fine {
        assert OutOfResources(code) by { GaveOut(h, d.cells, s, code); }
        GaveUp(h, d.cells, s, code);
        return;
      }
    }
    MergeEnd(h, d.cells, s, Merge(doc, v), pend);
    code := Fine;
  }

  lemma GaveOut(h: Heap, g: Heap, s: Node, code: PatchCode)
    requires Gave(h, g, s, code)
    ensures OutOfResources(code)
  {
  }

  lemma WholePatch(h: Heap, p: Node, doc: Json)
    requires p in h && HasValue(h, p) && !h[p].Table?
    ensures Merge(doc, ValueOf(h, p)) == ValueOf(h, p)
  {
  }

  // A patch that is not an object replaces the document.
  method ReplaceWhole(d: Dom, s: Node, p: Node, budget: PatchBudget, ghost h: Heap, ghost doc: Json)
    returns (code: PatchCode)
    requires d.Valid() && budget.Valid() && Working(h, d.cells, s, doc) && p in h && HasValue(h, p)
    modifies d, budget
    ensures d.Valid() && budget.Valid()
    ensures code == Fine ==> Working(h, d.cells, s, ValueOf(h, p))
    ensures code != Fine ==> OutOfResources(code) && StillPrivate(h, d.cells, s)
  {
    hide Forest, Working, Denotes, Holding, Reaches, IsRoot, IsFreshTree;
    WorkParts(h, d.cells, s, doc);
    CallerValue(h, d.cells, s, doc, p);
    ghost var g0 := d.cells;
    var ok := budget.ChargeOperations(1);
    if !ok { return ResourceLimit; }
    ok := MeasureClone(d, p, budget);
    if !ok { return ResourceLimit; }
    var t;
    ok, t := CloneTree(d, p, true);
    if !ok { return AllocationFailure; }
    ghost var v := ValueOf(h, p);
    HoldStart(h, g0, d.cells, s, doc, t, v);
    HoldParts(h, d.cells, s, doc, t, v);
    RootEdit(d.cells, s, doc, v);
    Exchange(d, s, t, h, s, doc, [], v);
    code := Fine;
  }

  // Applies an RFC 7396 document: unless resources run out, the target holds
  // exactly the recursive merge; when they do, nothing has changed.
  method ApplyMergePatch(d: Dom, target: Node, patch: Node, options: PatchOptions) returns (code: PatchCode)
    requires d.Valid() && target in d.cells && patch in d.cells
    modifies d
    ensures d.Valid()
    ensures code == Fine ==>
      Replaced(old(d.cells), d.cells, target, Merge(ValueOf(old(d.cells), target), ValueOf(old(d.cells), patch)))
    ensures code != Fine ==> OutOfResources(code) && d.cells == old(d.cells)
  {
    hide Forest, Denotes, Working, IsFreshTree, Replaced, Merge;
    ghost var h := d.cells;
    LiveHasValue(h, target);
    LiveHasValue(h, patch);
    ghost var before, p := ValueOf(h, target), ValueOf(h, patch);
    var budget := new PatchBudget(options);
    var ok := MeasureClone(d, target, budget);
    if !ok { return ResourceLimit; }
    var s;
    ok, s := CloneTree(d, target, true);
    if !ok { return AllocationFailure; }
    WorkStart(h, d.cells, s, before);
    code := MergeInto(d, s, patch, budget, h, before);
    if code != Fine {
      DropWork(d, s, h);
      return;
    }
    ghost var after := Merge(before, p);
    WorkDone(h, d.cells, s, after);
    assert target in d.cells by { CallerValue(h, d.cells, s, after, target); }
    InstallFresh(h, d.cells, target, s, after);
    assert IsRoot(d.cells, s) by { WorkIsRoot(h, d.cells, s, after); }
    Install(d, target, s);
  }
}
