// Iterative structural equality over nodes, with and without a work budget.

module NodeEquality {
  import opened JsonValue
  import opened DomHeap
  import opened HeapSurgery
  import opened Teardown
  import opened DeepCopy
  import opened Ownership
  import opened Numbers
  import opened PatchBudgets

  // A pair of nodes still to be compared: src on the left, dst on the right.
  type Pair = Item

  // A counter of work and its limit, whoever keeps it.
  datatype Meter = Meter(used: nat, limit: nat) {
    function Charge(amount: nat): Option<Meter> {
      if Exceeds(used, limit, amount) then None else Some(Meter(used + amount, limit))
    }
  }

  // Charges without a meter are free.
  function Spend(meter: Option<Meter>, amount: nat): (r: Option<Option<Meter>>)
    ensures r.Some? ==> Dearer(meter, r.value)
    ensures meter.None? ==> r.Some?
  {
    if meter.None? then Some(meter)
    else
      var next := meter.value.Charge(amount);
      if next.None? then None else Some(next)
  }

  // later is the same counter after more charges, all of which fitted.
  predicate Dearer(meter: Option<Meter>, later: Option<Meter>) {
    match meter
    case None => later.None?
    case Some(m) =>
      later.Some? && later.value.limit == m.limit && m.used <= later.value.used
      && (m.used <= m.limit ==> later.value.used <= m.limit)
  }

  ghost predicate PairsLive(h: Heap, work: seq<Pair>) {
    Spread(h, work) && forall i :: 0 <= i < |work| ==> work[i].src in h && work[i].dst in h
  }

  ghost predicate PairEqual(h: Heap, p: Pair)
    requires Forest(h) && p.src in h && p.dst in h
  {
    Equal(ValueOf(h, p.src), ValueOf(h, p.dst))
  }

  ghost predicate AllEqual(h: Heap, work: seq<Pair>)
    requires Forest(h) && PairsLive(h, work)
  {
    forall i :: 0 <= i < |work| ==> PairEqual(h, work[i])
  }

  datatype Kind = KNull | KBool | KInt | KUInt | KDouble | KString | KArray | KObject

  function KindOf(b: Body): Kind {
    match b
    case Vec(_) => KArray
    case Table(_) => KObject
    case Leaf(v) =>
      match v
      case Bool(_) => KBool
      case Int(_) => KInt
      case UInt(_) => KUInt
      case Double(_) => KDouble
      case Str(_) => KString
      case _ => KNull
  }

  // The outcome of looking at one pair of non-containers.
  predicate LeavesEqual(a: Json, b: Json) {
    if IsNumber(a) && IsNumber(b) then CompareNumbers(a, b) == 0 else a == b
  }

  lemma PairStart(h: Heap, a: Node, b: Node)
    requires Forest(h) && a in h && b in h
    ensures PairsLive(h, [Item(a, b)])
    ensures AllEqual(h, [Item(a, b)]) <==> Equal(ValueOf(h, a), ValueOf(h, b))
  {
    var work := [Item(a, b)];
    assert Sources(work) == {a} by { assert work[0].src == a; }
    assert PairEqual(h, work[0]) <==> Equal(ValueOf(h, a), ValueOf(h, b));
  }

  lemma PairPop(h: Heap, work: seq<Pair>)
    requires Forest(h) && PairsLive(h, work) && work != []
    ensures var n := |work| - 1;
            && work[n].src in h && work[n].dst in h
            && GoodBody(h[work[n].src]) && GoodBody(h[work[n].dst])
            && PairsLive(h, work[..n])
            && Below(h, Sources(work[..n])) < Below(h, Sources(work))
            && (AllEqual(h, work) <==> AllEqual(h, work[..n]) && PairEqual(h, work[n]))
  {
    var n := |work| - 1;
    var rest := work[..n];
    assert forall i :: 0 <= i < n ==> rest[i] == work[i];
    assert Sources(rest) <= Sources(work);
    assert work[n].src in Sources(work);
    ReachSelf(h, work[n].src);
    assert forall f :: f in Sources(rest) ==> f in Sources(work) && f != work[n].src;
    assert work[n].src !in Below(h, Sources(rest));
  }

  // A popped pair of containers gives way to the pairs of their children.
  lemma PairExpand(h: Heap, was: seq<Pair>, rest: seq<Pair>, p: Pair, work: seq<Pair>)
    requires Forest(h) && PairsLive(h, was) && was == rest + [p] && p.src in h && p.dst in h
    requires Extends(rest, work, KidsOf(h, p.src))
    requires forall i :: |rest| <= i < |work| ==> work[i].dst in h
    ensures PairsLive(h, work)
    ensures Below(h, Sources(work)) < Below(h, Sources(was))
    ensures PairsLive(h, rest)
    ensures AllEqual(h, work) <==>
      AllEqual(h, rest) && forall i :: |rest| <= i < |work| ==> PairEqual(h, work[i])
  {
    SpreadStep(h, was, p, rest, work);
    assert was[..|was| - 1] == rest;
    PairPop(h, was);
    forall i | 0 <= i < |work| ensures work[i].src in h && work[i].dst in h {
      if i < |rest| { assert work[i] == rest[i] == was[i]; }
    }
    assert forall i :: 0 <= i < |rest| ==> work[i] == rest[i];
  }

  // ---- One pair ----

  lemma LeafPair(h: Heap, a: Node, b: Node)
    requires Forest(h) && a in h && b in h
    ensures h[a].Leaf? && h[b].Leaf? ==> (PairEqual(h, Item(a, b)) <==> LeavesEqual(h[a].v, h[b].v))
    ensures KindOf(h[a]) != KindOf(h[b]) && !(h[a].Leaf? && h[b].Leaf?) ==> !PairEqual(h, Item(a, b))
    ensures h[a].Leaf? ==> !IsContainer(h[a].v)
  {
    var v, w := ValueOf(h, a), ValueOf(h, b);
  }

  lemma ArrayPair(h: Heap, a: Node, b: Node)
    requires Forest(h) && a in h && b in h && h[a].Vec? && h[b].Vec?
    ensures forall i :: 0 <= i < |h[a].kids| ==> h[a].kids[i] in h
    ensures forall i :: 0 <= i < |h[b].kids| ==> h[b].kids[i] in h
    ensures PairEqual(h, Item(a, b)) <==>
      && |h[a].kids| == |h[b].kids|
      && forall i :: 0 <= i < |h[a].kids| ==> PairEqual(h, Item(h[a].kids[i], h[b].kids[i]))
  {
    var v, w := ValueOf(h, a), ValueOf(h, b);
    forall i | 0 <= i < |v.items| ensures h[a].kids[i] in h && ValueOf(h, h[a].kids[i]) == v.items[i] {
      ValueIs(h, h[a].kids[i], v.items[i]);
    }
    forall i | 0 <= i < |w.items| ensures h[b].kids[i] in h && ValueOf(h, h[b].kids[i]) == w.items[i] {
      ValueIs(h, h[b].kids[i], w.items[i]);
    }
  }

  lemma TablePair(h: Heap, a: Node, b: Node)
    requires Forest(h) && a in h && b in h && h[a].Table? && h[b].Table?
    ensures forall k :: k in h[a].members ==> h[a].members[k] in h
    ensures forall k :: k in h[b].members ==> h[b].members[k] in h
    ensures PairEqual(h, Item(a, b)) <==>
      && h[a].members.Keys == h[b].members.Keys
      && forall k :: k in h[a].members ==> PairEqual(h, Item(h[a].members[k], h[b].members[k]))
  {
    var v, w := ValueOf(h, a), ValueOf(h, b);
    forall k | k in v.members ensures h[a].members[k] in h && ValueOf(h, h[a].members[k]) == v.members[k] {
      ValueIs(h, h[a].members[k], v.members[k]);
    }
    forall k | k in w.members ensures h[b].members[k] in h && ValueOf(h, h[b].members[k]) == w.members[k] {
      ValueIs(h, h[b].members[k], w.members[k]);
    }
  }

  method PairArrays(d: Dom, p: Pair, rest: seq<Pair>) returns (work: seq<Pair>)
    requires Forest(d.cells) && p.src in d.cells && p.dst in d.cells
    requires d.cells[p.src].Vec? && d.cells[p.dst].Vec? && |d.cells[p.src].kids| == |d.cells[p.dst].kids|
    ensures Extends(rest, work, KidsOf(d.cells, p.src))
    ensures forall i :: |rest| <= i < |work| ==> work[i].src in d.cells && work[i].dst in d.cells
    ensures (forall i :: |rest| <= i < |work| ==> PairEqual(d.cells, work[i])) <==> PairEqual(d.cells, p)
  {
    hide Forest, PairEqual;
    ghost var h := d.cells;
    var l, r := d.cells[p.src].kids, d.cells[p.dst].kids;
    ArrayPair(h, p.src, p.dst);
    ForestKids(h, p.src);
    work := rest;
    var i := 0;
    while i < |l|
      invariant 0 <= i <= |l| && |work| == |rest| + i && rest <= work
      invariant forall j :: 0 <= j < i ==> work[|rest| + j] == Item(l[j], r[j])
    {
      work := work + [Item(l[i], r[i])];
      i := i + 1;
    }
    forall j | |rest| <= j < |work|
      ensures work[j].src in KidsOf(h, p.src) && work[j] == Item(l[j - |rest|], r[j - |rest|])
    {
      assert work[|rest| + (j - |rest|)] == Item(l[j - |rest|], r[j - |rest|]);
      assert Owns(h[p.src], l[j - |rest|]);
    }
    if forall j :: |rest| <= j < |work| ==> PairEqual(h, work[j]) {
      forall j | 0 <= j < |l| ensures PairEqual(h, Item(l[j], r[j])) { assert work[|rest| + j] == Item(l[j], r[j]); }
    }
  }

  // Queues the members of two objects of the same size; a missing key settles
  // the comparison.
  method PairTables(d: Dom, p: Pair, rest: seq<Pair>, meter: Option<Meter>)
    returns (finished: bool, matched: bool, work: seq<Pair>, spent: Option<Meter>)
    requires Forest(d.cells) && p.src in d.cells && p.dst in d.cells
    requires d.cells[p.src].Table? && d.cells[p.dst].Table? && |d.cells[p.src].members| == |d.cells[p.dst].members|
    ensures Dearer(meter, spent) && (meter.None? ==> finished)
    ensures finished && !matched ==> !PairEqual(d.cells, p)
    ensures finished && matched ==> Extends(rest, work, KidsOf(d.cells, p.src))
    ensures finished && matched ==>
      forall i :: |rest| <= i < |work| ==> work[i].src in d.cells && work[i].dst in d.cells
    ensures finished && matched ==>
      ((forall i :: |rest| <= i < |work| ==> PairEqual(d.cells, work[i])) <==> PairEqual(d.cells, p))
  {
    hide Forest, PairEqual, Listed, Extends;
    ghost var h := d.cells;
    var l, r := d.cells[p.src].members, d.cells[p.dst].members;
    TablePair(h, p.src, p.dst);
    ForestKids(h, p.src);
    finished, matched, work, spent := true, true, rest, meter;
    var keys := l.Keys;
    assert Listed(l, r, keys, rest, work) by { ListStart(l, r, rest); }
    while keys != {}
      invariant keys <= l.Keys && finished && matched && Listed(l, r, keys, rest, work)
      invariant Dearer(meter, spent)
    {
      var k :| k in keys;
      var charged := Spend(spent, |k| + 1);
      if charged.None? { return false, false, rest, spent; }
      spent := charged.value;
      if k !in r { return true, false, rest, spent; }
      ListNext(l, r, keys, rest, work, k);
      work := work + [Item(l[k], r[k])];
      keys := keys - {k};
    }
    assert l.Keys == r.Keys by { ListedKeys(l, r, rest, work); SameKeys(l, r); }
    MatchedPairs(h, p, rest, work);
  }

  // The pairs of the keys outside `keys` have been queued, once each.
  ghost predicate Listed(l: map<Bytes, Node>, r: map<Bytes, Node>, keys: set<Bytes>, rest: seq<Pair>, work: seq<Pair>) {
    && rest <= work
    && (forall k :: k in l && k !in keys ==> k in r)
    && (forall j :: |rest| <= j < |work| ==> Matches(l, r, keys, work[j]))
    && (forall k :: k in l && k !in keys ==> exists j :: |rest| <= j < |work| && work[j] == Item(l[k], r[k]))
    && (forall i, j :: |rest| <= i < j < |work| ==> work[i].src != work[j].src)
  }

  ghost predicate Matches(l: map<Bytes, Node>, r: map<Bytes, Node>, keys: set<Bytes>, it: Pair) {
    exists k :: k in l && k !in keys && k in r && it == Item(l[k], r[k])
  }

  lemma ListStart(l: map<Bytes, Node>, r: map<Bytes, Node>, rest: seq<Pair>)
    ensures Listed(l, r, l.Keys, rest, rest)
  {
  }

  lemma ListedKeys(l: map<Bytes, Node>, r: map<Bytes, Node>, rest: seq<Pair>, work: seq<Pair>)
    requires Listed(l, r, {}, rest, work)
    ensures forall k :: k in l ==> k in r
  {
  }

  lemma ListNext(l: map<Bytes, Node>, r: map<Bytes, Node>, keys: set<Bytes>, rest: seq<Pair>, was: seq<Pair>, k: Bytes)
    requires Listed(l, r, keys, rest, was) && k in keys && k in l && k in r
    requires forall i, j :: i in l && j in l && l[i] == l[j] ==> i == j
    ensures Listed(l, r, keys - {k}, rest, was + [Item(l[k], r[k])])
  {
    var work := was + [Item(l[k], r[k])];
    assert work[|was|] == Item(l[k], r[k]);
    forall j | |rest| <= j < |work| ensures Matches(l, r, keys - {k}, work[j]) {
      if j < |was| { assert Matches(l, r, keys, was[j]); }
    }
    forall i, j | |rest| <= i < j < |work| ensures work[i].src != work[j].src {
      if j == |was| { assert Matches(l, r, keys, was[i]); }
    }
    forall x | x in l && x !in keys - {k} ensures exists j :: |rest| <= j < |work| && work[j] == Item(l[x], r[x]) {
      if x != k {
        var j :| |rest| <= j < |was| && was[j] == Item(l[x], r[x]);
        assert work[j] == was[j];
      }
    }
  }

  lemma MatchedPairs(h: Heap, p: Pair, rest: seq<Pair>, work: seq<Pair>)
    requires Forest(h) && p.src in h && p.dst in h && h[p.src].Table? && h[p.dst].Table?
    requires h[p.src].members.Keys == h[p.dst].members.Keys
    requires Listed(h[p.src].members, h[p.dst].members, {}, rest, work)
    ensures Extends(rest, work, KidsOf(h, p.src))
    ensures forall i :: |rest| <= i < |work| ==> work[i].src in h && work[i].dst in h
    ensures (forall i :: |rest| <= i < |work| ==> PairEqual(h, work[i])) <==> PairEqual(h, p)
  {
    hide Forest, PairEqual;
    var l, r := h[p.src].members, h[p.dst].members;
    TablePair(h, p.src, p.dst);
    ForestKids(h, p.src);
    forall j | |rest| <= j < |work| ensures work[j].src in KidsOf(h, p.src) {
      assert Matches(l, r, {}, work[j]);
      var k :| k in l && work[j] == Item(l[k], r[k]);
      assert Owns(h[p.src], l[k]);
    }
    if forall j :: |rest| <= j < |work| ==> PairEqual(h, work[j]) {
      forall k | k in l ensures PairEqual(h, Item(l[k], r[k])) { }
    }
  }

  lemma SameKeys(l: map<Bytes, Node>, r: map<Bytes, Node>)
    requires |l| == |r| && forall k :: k in l ==> k in r
    ensures l.Keys == r.Keys
  {
    assert |l.Keys| == |l| && |r.Keys| == |r|;
    SubsetSameSize(l.Keys, r.Keys);
  }

  lemma SubsetSameSize(a: set<Bytes>, b: set<Bytes>)
    requires a <= b && |a| == |b|
    ensures a == b
  {
    assert |b - a| == 0;
    assert b - a == {};
    assert b == a + (b - a);
  }

  // ---- The loop ----

  // Compares two trees with an explicit work list of pairs. With a meter the
  // walk may stop early, and then it has no answer.
  method CompareNodes(d: Dom, a: Node, b: Node, meter: Option<Meter>)
    returns (finished: bool, equal: bool, spent: Option<Meter>)
    requires Forest(d.cells) && a in d.cells && b in d.cells
    ensures Dearer(meter, spent) && (meter.None? ==> finished)
    ensures finished ==> (equal <==> Equal(ValueOf(d.cells, a), ValueOf(d.cells, b)))
    ensures !finished ==> !equal
  {
    hide Forest, PairEqual, PairsLive, AllEqual, Equal, Below, Extends;
    ghost var h := d.cells;
    PairStart(h, a, b);
    var work := [Item(a, b)];
    spent := meter;
    while work != []
      invariant PairsLive(h, work) && (AllEqual(h, work) <==> Equal(ValueOf(h, a), ValueOf(h, b)))
      invariant Dearer(meter, spent)
      decreases Below(h, Sources(work))
    {
      var charged := Spend(spent, 1);
      if charged.None? { return false, false, spent; }
      spent := charged.value;
      var p := work[|work| - 1];
      ghost var was := work;
      PairPop(h, work);
      work := work[..|work| - 1];
      var rest := work;
      assert was == rest + [p];
      var l, r := d.cells[p.src], d.cells[p.dst];
      LeafPair(h, p.src, p.dst);
      assert Item(p.src, p.dst) == p;
      if l.Leaf? && r.Leaf? && IsNumber(l.v) && IsNumber(r.v) {
        if CompareNumbers(l.v, r.v) != 0 { return true, false, spent; }
      } else if KindOf(l) != KindOf(r) {
        return true, false, spent;
      } else if l.Leaf? {
        if l.v.Str? {
          charged := Spend(spent, if |l.v.s| > |r.v.s| then |l.v.s| else |r.v.s|);
          if charged.None? { return false, false, spent; }
          spent := charged.value;
        }
        if l.v != r.v { return true, false, spent; }
      } else if l.Vec? {
        if |l.kids| != |r.kids| { ArrayPair(h, p.src, p.dst); return true, false, spent; }
        work := PairArrays(d, p, rest);
        PairExpand(h, was, rest, p, work);
      } else {
        if |l.members| != |r.members| { DifferentSizes(h, p); return true, false, spent; }
        var done, matched;
        done, matched, work, spent := PairTables(d, p, rest, spent);
        if !done { return false, false, spent; }
        if !matched { return true, false, spent; }
        PairExpand(h, was, rest, p, work);
      }
    }
    finished, equal := true, true;
    assert AllEqual(h, []) by { NothingLeft(h, work); }
  }

  lemma NothingLeft(h: Heap, work: seq<Pair>)
    requires Forest(h) && PairsLive(h, work) && work == []
    ensures AllEqual(h, work)
  {
  }

  lemma DifferentSizes(h: Heap, p: Pair)
    requires Forest(h) && p.src in h && p.dst in h && h[p.src].Table? && h[p.dst].Table?
    requires |h[p.src].members| != |h[p.dst].members|
    ensures !PairEqual(h, p)
  {
    TablePair(h, p.src, p.dst);
    assert |h[p.src].members.Keys| == |h[p.src].members| && |h[p.dst].members.Keys| == |h[p.dst].members|;
    assert Item(p.src, p.dst) == p;
  }

  // operator==
  method NodesEqual(d: Dom, a: Node, b: Node) returns (equal: bool)
    requires Forest(d.cells) && a in d.cells && b in d.cells
    ensures equal <==> Equal(ValueOf(d.cells, a), ValueOf(d.cells, b))
  {
    var finished, spent;
    finished, equal, spent := CompareNodes(d, a, b, None);
  }

  // patchEqual: what a patch test costs is charged to the work of the patch.
  method PatchEqual(d: Dom, a: Node, b: Node, budget: PatchBudget) returns (finished: bool, equal: bool)
    requires Forest(d.cells) && a in d.cells && b in d.cells && budget.Valid()
    modifies budget`work
    ensures budget.Valid() && old(budget.work) <= budget.work
    ensures finished ==> (equal <==> Equal(ValueOf(d.cells, a), ValueOf(d.cells, b)))
    ensures !finished ==> !equal
  {
    var spent;
    finished, equal, spent := CompareNodes(d, a, b, Some(Meter(budget.work, budget.workLimit)));
    budget.work := spent.value.used;
  }
}
