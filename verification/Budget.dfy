// The four counters of a patch call, and the measurement of a tree that is
// about to be cloned.

module PatchBudgets {
  import opened JsonValue
  import opened DomHeap
  import opened Teardown
  import opened Ownership

  // sizeof(pjson): an allocator pointer and an implementation pointer.
  const NODE_BYTES: nat := 16

  const DEFAULT_OPERATIONS: UInt64 := 10000
  const DEFAULT_NODES: UInt64 := 1000000
  const DEFAULT_BYTES: UInt64 := 64 * 1024 * 1024
  const DEFAULT_WORK: UInt64 := 1000000

  datatype PatchOptions = PatchOptions(maxOperations: UInt64, maxClonedNodes: UInt64, maxClonedBytes: UInt64,
                                       maxWork: UInt64)

  // size_t subtraction and comparison only, so nothing can wrap.
  predicate Exceeds(used: nat, limit: nat, amount: nat)
    ensures used <= limit ==> (Exceeds(used, limit, amount) <==> used + amount > limit)
  {
    amount > limit - (if used < limit then used else limit)
  }

  class PatchBudget {
    var operations: nat
    var nodes: nat
    var bytes: nat
    var work: nat
    const operationLimit: UInt64
    const nodeLimit: UInt64
    const byteLimit: UInt64
    const workLimit: UInt64

    // A limit of zero stands for the default.
    constructor (options: PatchOptions)
      ensures Valid() && operations == nodes == bytes == work == 0
      ensures operationLimit == if options.maxOperations == 0 then DEFAULT_OPERATIONS else options.maxOperations
      ensures nodeLimit == if options.maxClonedNodes == 0 then DEFAULT_NODES else options.maxClonedNodes
      ensures byteLimit == if options.maxClonedBytes == 0 then DEFAULT_BYTES else options.maxClonedBytes
      ensures workLimit == if options.maxWork == 0 then DEFAULT_WORK else options.maxWork
    {
      operations, nodes, bytes, work := 0, 0, 0, 0;
      operationLimit := if options.maxOperations == 0 then DEFAULT_OPERATIONS else options.maxOperations;
      nodeLimit := if options.maxClonedNodes == 0 then DEFAULT_NODES else options.maxClonedNodes;
      byteLimit := if options.maxClonedBytes == 0 then DEFAULT_BYTES else options.maxClonedBytes;
      workLimit := if options.maxWork == 0 then DEFAULT_WORK else options.maxWork;
    }

    // Nothing is ever charged past its limit.
    ghost predicate Valid()
      reads this
    {
      operations <= operationLimit && nodes <= nodeLimit && bytes <= byteLimit && work <= workLimit
    }

    method ChargeOperations(amount: nat) returns (ok: bool)
      requires Valid()
      modifies this`operations
      ensures Valid() && (ok <==> old(operations) + amount <= operationLimit)
      ensures operations == if ok then old(operations) + amount else old(operations)
    {
      if Exceeds(operations, operationLimit, amount) { return false; }
      operations := operations + amount;
      ok := true;
    }

    method ChargeNodes(amount: nat) returns (ok: bool)
      requires Valid()
      modifies this`nodes
      ensures Valid() && (ok <==> old(nodes) + amount <= nodeLimit)
      ensures nodes == if ok then old(nodes) + amount else old(nodes)
    {
      if Exceeds(nodes, nodeLimit, amount) { return false; }
      nodes := nodes + amount;
      ok := true;
    }

    method ChargeBytes(amount: nat) returns (ok: bool)
      requires Valid()
      modifies this`bytes
      ensures Valid() && (ok <==> old(bytes) + amount <= byteLimit)
      ensures bytes == if ok then old(bytes) + amount else old(bytes)
    {
      if Exceeds(bytes, byteLimit, amount) { return false; }
      bytes := bytes + amount;
      ok := true;
    }

    method ChargeWork(amount: nat) returns (ok: bool)
      requires Valid()
      modifies this`work
      ensures Valid() && (ok <==> old(work) + amount <= workLimit)
      ensures work == if ok then old(work) + amount else old(work)
    {
      if Exceeds(work, workLimit, amount) { return false; }
      work := work + amount;
      ok := true;
    }
  }

  // ---- Totals over a tree ----

  // A sum over a finite set; no order is involved.
  ghost function SumOver<T(!new)>(s: set<T>, w: map<T, nat>): (total: nat)
    requires s <= w.Keys
    decreases s
  {
    if s == {} then 0
    else
      var x :| x in s;
      w[x] + SumOver(s - {x}, w)
  }

  lemma {:induction false} SumPick<T(!new)>(s: set<T>, w: map<T, nat>, x: T)
    requires s <= w.Keys && x in s
    ensures SumOver(s, w) == w[x] + SumOver(s - {x}, w)
    decreases s
  {
    var y :| y in s && SumOver(s, w) == w[y] + SumOver(s - {y}, w);
    if x != y {
      SumPick(s - {y}, w, x);
      SumPick(s - {x}, w, y);
      assert s - {x} - {y} == s - {y} - {x};
    }
  }

  ghost function KeySizes(m: map<Bytes, Node>): (w: map<Bytes, nat>)
    ensures w.Keys == m.Keys
  {
    map k | k in m :: |k|
  }

  // What cloning one node costs: the node, its string, its keys.
  ghost function NodeCost(b: Body): nat {
    match b
    case Leaf(v) => if v.Str? then NODE_BYTES + |v.s| else NODE_BYTES
    case Vec(_) => NODE_BYTES
    case Table(members) => NODE_BYTES + SumOver(members.Keys, KeySizes(members))
  }

  ghost function Costs(h: Heap): (w: map<Node, nat>)
    ensures w.Keys == h.Keys
  {
    map x | x in h :: NodeCost(h[x])
  }

  ghost function TreeBytes(h: Heap, s: set<Node>): nat
    requires s <= h.Keys
  {
    SumOver(s, Costs(h))
  }

  // ---- Measuring ----

  // Charged so far plus what hangs below the work list is the whole tree.
  ghost predicate Metered(h: Heap, work: seq<Node>, root: Node, nodes: nat, bytes: nat) {
    && Unsearched(h, work)
    && Below(h, Elems(work)) <= h.Keys
    && nodes + |Below(h, Elems(work))| == |Tree(h, root)|
    && bytes + TreeBytes(h, Below(h, Elems(work))) == TreeBytes(h, Tree(h, root))
  }

  lemma MeterStart(h: Heap, root: Node)
    requires Forest(h) && root in h
    ensures Metered(h, [root], root, 0, 0)
  {
    SearchStart(h, root, root);
    assert Elems([root]) == {root};
    assert Below(h, {root}) == Tree(h, root) by {
      forall x | x in Tree(h, root) ensures x in Below(h, {root}) { assert root in {root}; }
    }
  }

  lemma MeterPop(h: Heap, was: seq<Node>, n: Node, kids: seq<Node>, work: seq<Node>, root: Node, nodes: nat, bytes: nat)
    requires Forest(h) && Metered(h, was, root, nodes, bytes) && was != [] && n == was[|was| - 1]
    requires n in h && (forall k :: k in kids <==> Owns(h[n], k))
    requires forall i, j :: 0 <= i < j < |kids| ==> kids[i] != kids[j]
    requires work == was[..|was| - 1] + kids
    ensures Metered(h, work, root, nodes + 1, bytes + NodeCost(h[n]))
    ensures Below(h, Elems(work)) < Below(h, Elems(was))
  {
    SearchPush(h, was, n, kids, work);
    SumPick(Below(h, Elems(was)), Costs(h), n);
    assert Below(h, Elems(was)) - {n} == Below(h, Elems(work));
  }

  // Each queued node will be charged once more.
  lemma QueueSize(h: Heap, work: seq<Node>)
    requires Unsearched(h, work)
    ensures |work| <= |Below(h, Elems(work))|
  {
    forall x | x in work ensures x in Below(h, Elems(work)) { ReachSelf(h, x); }
    DistinctSize(work, Below(h, Elems(work)));
  }

  lemma {:induction false} DistinctSize(s: seq<Node>, t: set<Node>)
    requires (forall i, j :: 0 <= i < j < |s| ==> s[i] != s[j]) && forall x :: x in s ==> x in t
    ensures |s| <= |t|
    decreases |s|
  {
    if s != [] {
      assert forall x :: x in s[1..] ==> x in t - {s[0]};
      DistinctSize(s[1..], t - {s[0]});
    }
  }

  // Charges a tree before it is cloned: every node, its string and its keys.
  // The early rejections by child count refuse nothing that would have fit.
  method MeasureClone(d: Dom, value: Node, budget: PatchBudget) returns (ok: bool)
    requires Forest(d.cells) && value in d.cells && budget.Valid()
    modifies budget
    ensures budget.Valid() && budget.operations == old(budget.operations)
    ensures ok <==>
      && old(budget.work) + |Tree(d.cells, value)| <= budget.workLimit
      && old(budget.nodes) + |Tree(d.cells, value)| <= budget.nodeLimit
      && old(budget.bytes) + TreeBytes(d.cells, Tree(d.cells, value)) <= budget.byteLimit
    ensures ok ==>
      && budget.work == old(budget.work) + |Tree(d.cells, value)|
      && budget.nodes == old(budget.nodes) + |Tree(d.cells, value)|
      && budget.bytes == old(budget.bytes) + TreeBytes(d.cells, Tree(d.cells, value))
  {
    hide Forest, Reaches, Owns, GoodBody, Antichain, Below, Tree, TreeBytes, Metered;
    ghost var h, work0, nodes0, bytes0 := d.cells, budget.work, budget.nodes, budget.bytes;
    var work := [value];
    MeterStart(h, value);
    while work != []
      invariant budget.Valid() && budget.operations == old(budget.operations)
      invariant budget.work - work0 == budget.nodes - nodes0 >= 0 && budget.bytes >= bytes0
      invariant Metered(h, work, value, budget.work - work0, budget.bytes - bytes0)
      decreases Below(h, Elems(work))
    {
      var n := work[|work| - 1];
      ghost var was, bytes1 := work, budget.bytes;
      MeterBounds(h, work, value, budget.work - work0, budget.bytes - bytes0);
      ok := budget.ChargeWork(1);
      if !ok { return; }
      ok := budget.ChargeNodes(1);
      if !ok { return; }
      ok := budget.ChargeBytes(NODE_BYTES);
      if !ok { return; }
      work := work[..|work| - 1];
      var kids := d.Children(d.cells[n]);
      match d.cells[n] {
        case Leaf(v) =>
          if v.Str? {
            ok := budget.ChargeBytes(|v.s|);
            if !ok { return; }
          }
        case Vec(_) =>
          if |kids| > budget.workLimit - budget.work {
            MeterPop(h, was, n, kids, work + kids, value, budget.work - 1 - work0, bytes1 - bytes0);
            MeterAhead(h, work, kids, value, budget.work - work0, bytes1 - bytes0 + NodeCost(h[n]));
            return false;
          }
        case Table(members) =>
          if |kids| > budget.workLimit - budget.work {
            MeterPop(h, was, n, kids, work + kids, value, budget.work - 1 - work0, bytes1 - bytes0);
            MeterAhead(h, work, kids, value, budget.work - work0, bytes1 - bytes0 + NodeCost(h[n]));
            return false;
          }
          ok := ChargeKeys(members, budget);
          if !ok { return; }
      }
      work := work + kids;
      MeterPop(h, was, n, kids, work, value, budget.work - 1 - work0, bytes1 - bytes0);
    }
    MeterEnd(h, value, budget.work - work0, budget.bytes - bytes0);
    ok := true;
  }

  // What the node at the top of the work list needs is part of the total.
  lemma MeterBounds(h: Heap, work: seq<Node>, root: Node, nodes: nat, bytes: nat)
    requires Forest(h) && Metered(h, work, root, nodes, bytes) && work != []
    ensures var n := work[|work| - 1];
            && n in h && GoodBody(h[n])
            && nodes + 1 <= |Tree(h, root)|
            && Tree(h, root) <= h.Keys
            && bytes + NodeCost(h[n]) <= TreeBytes(h, Tree(h, root))
  {
    var n := work[|work| - 1];
    SearchPop(h, work);
    SumPick(Below(h, Elems(work)), Costs(h), n);
    assert Below(h, Elems(work)) == Below(h, Elems(work)) - {n} + {n};
  }

  lemma MeterAhead(h: Heap, rest: seq<Node>, kids: seq<Node>, root: Node, nodes: nat, bytes: nat)
    requires Metered(h, rest + kids, root, nodes, bytes)
    ensures nodes + |kids| <= |Tree(h, root)|
  {
    QueueSize(h, rest + kids);
  }

  lemma MeterEnd(h: Heap, root: Node, nodes: nat, bytes: nat)
    requires Metered(h, [], root, nodes, bytes)
    ensures Tree(h, root) <= h.Keys && nodes == |Tree(h, root)| && bytes == TreeBytes(h, Tree(h, root))
  {
    SearchEnd(h);
  }

  method ChargeKeys(members: map<Bytes, Node>, budget: PatchBudget) returns (ok: bool)
    requires budget.Valid()
    modifies budget`bytes
    ensures budget.Valid()
    ensures ok <==> old(budget.bytes) + SumOver(members.Keys, KeySizes(members)) <= budget.byteLimit
    ensures ok ==> budget.bytes == old(budget.bytes) + SumOver(members.Keys, KeySizes(members))
  {
    var rest := members.Keys;
    while rest != {}
      invariant rest <= members.Keys && budget.Valid()
      invariant budget.bytes + SumOver(rest, KeySizes(members))
             == old(budget.bytes) + SumOver(members.Keys, KeySizes(members))
    {
      var key :| key in rest;
      SumPick(rest, KeySizes(members), key);
      ok := budget.ChargeBytes(|key|);
      if !ok { return; }
      rest := rest - {key};
    }
    ok := true;
  }
}
