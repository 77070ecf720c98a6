// One validation run as a function: the budgets, the depth and the stack of
// active references, without error sinks. The evaluator's methods are proved
// against this function; SchemaSoundness relates it to the keyword rules.

module SchemaRun {
  import opened JsonValue
  import opened Printer
  import opened SchemaRules

  datatype Step = Member(name: Bytes) | Element(at: nat)

  // Where an instance node sits: the identity the evaluator compares.
  type Path = seq<Step>

  // A reference being evaluated: its instance node and its target.
  datatype Active = Active(at: Path, target: nat)

  datatype Limits = Limits(work: nat, refs: nat, depth: nat)

  datatype Env = Env(table: Table, limits: Limits)

  datatype Used = Used(work: nat, refs: nat)

  // Aborted: a budget ran out. Otherwise cycle says that the reference stack was
  // met again.
  datatype Run = Aborted | Done(used: Used, valid: bool, notes: Notes, cycle: bool)

  predicate Passed(run: Run) {
    run.Done? && run.valid
  }

  predicate Clean(run: Run) {
    run.Done? && !run.cycle
  }

  datatype Target = Target(at: Path, doc: Doc, id: nat)

  // How the evaluator runs one subschema from given consumption.
  type Eval = (Target, Used) -> Run

  // One turn of a conjunctive loop: notes are marked in any case; Apply runs a
  // subschema and, when merge is set, keeps its annotations if it accepts.
  datatype Task =
    | Skip(charged: bool, notes: Notes)
    | Refuse(notes: Notes)
    | Apply(target: Target, charged: bool, notes: Notes, merge: bool)

  function Charge(env: Env, used: Used, amount: nat): Option<Used> {
    if used.work + amount <= env.limits.work then Some(used.(work := used.work + amount)) else None
  }

  function Cost(task: Task): nat {
    match task
    case Skip(charged, _) => if charged then 1 else 0
    case Refuse(_) => 1
    case Apply(_, charged, _, _) => if charged then 1 else 0
  }

  // ---- Conjunctive loops ----

  function Perform(env: Env, ev: Eval, task: Task, acc: Run): (r: Run)
    ensures Passed(r) ==> Passed(acc)
  {
    if acc.Aborted? then Aborted
    else match Charge(env, acc.used, Cost(task))
      case None => Aborted
      case Some(used) =>
        var marked := acc.(used := used, notes := Merge(acc.notes, task.notes));
        match task
        case Skip(_, _) => marked
        case Refuse(_) => marked.(valid := false)
        case Apply(target, _, _, merge) => Absorb(marked, ev(target, used), merge)
  }

  function Absorb(acc: Run, sub: Run, merge: bool): (r: Run)
    requires acc.Done?
    ensures Passed(r) ==> Passed(acc) && Passed(sub)
  {
    if sub.Aborted? then Aborted
    else
      Done(sub.used, acc.valid && sub.valid,
           if merge && sub.valid then Merge(acc.notes, sub.notes) else acc.notes,
           acc.cycle || sub.cycle)
  }

  function Each(env: Env, ev: Eval, tasks: seq<Task>, n: nat, acc: Run): (r: Run)
    requires n <= |tasks|
    ensures Passed(r) ==> Passed(acc)
  {
    if n == 0 then acc else Perform(env, ev, tasks[n - 1], Each(env, ev, tasks, n - 1, acc))
  }

  function EachOf(env: Env, ev: Eval, tasks: seq<Task>, acc: Run): (r: Run)
    ensures Passed(r) ==> Passed(acc)
  {
    Each(env, ev, tasks, |tasks|, acc)
  }

  // ---- Speculative loops: every branch runs, its verdict is kept apart ----

  datatype Probes = Halted | Probed(used: Used, verdicts: seq<Verdict>, cycle: bool)

  function Probe(env: Env, ev: Eval, targets: seq<Target>, cost: nat, n: nat, used: Used): (r: Probes)
    requires n <= |targets|
    ensures r.Probed? ==> |r.verdicts| == n
  {
    if n == 0 then Probed(used, [], false)
    else
      var before := Probe(env, ev, targets, cost, n - 1, used);
      if before.Halted? then Halted
      else match Charge(env, before.used, cost)
        case None => Halted
        case Some(charged) =>
          var sub := ev(targets[n - 1], charged);
          if sub.Aborted? then Halted
          else Probed(sub.used, before.verdicts + [Verdict(sub.valid, sub.notes)], before.cycle || sub.cycle)
  }

  function ProbeAll(env: Env, ev: Eval, targets: seq<Target>, cost: nat, used: Used): (r: Probes)
    ensures r.Probed? ==> |r.verdicts| == |targets|
  {
    Probe(env, ev, targets, cost, |targets|, used)
  }

  function Hits(verdicts: seq<Verdict>, n: nat): (hits: set<nat>)
    requires n <= |verdicts|
    ensures forall i: nat :: i in hits <==> i < n && verdicts[i].valid
  {
    if n == 0 then {} else Hits(verdicts, n - 1) + (if verdicts[n - 1].valid then {n - 1} else {})
  }

  function HitNotes(verdicts: seq<Verdict>, n: nat): Notes
    requires n <= |verdicts|
  {
    if n == 0 then NO_NOTES else Merge(HitNotes(verdicts, n - 1), Collected(verdicts[n - 1]))
  }

  function HitCount(verdicts: seq<Verdict>): nat {
    |Hits(verdicts, |verdicts|)|
  }

  // The annotations of the one branch that accepts, if there is just one.
  function OnlyNotes(verdicts: seq<Verdict>): Notes {
    if HitCount(verdicts) == 1 then HitNotes(verdicts, |verdicts|) else NO_NOTES
  }

  // Continue a run after a speculative loop that finished.
  function Resume(acc: Run, probes: Probes, holds: bool, notes: Notes): (r: Run)
    requires acc.Done? && probes.Probed?
    ensures Passed(r) ==> Passed(acc)
  {
    Done(probes.used, acc.valid && holds, Merge(acc.notes, notes), acc.cycle || probes.cycle)
  }

  // ---- The applications of each keyword ----

  function PrefixCount(kw: Keywords, doc: Doc): nat
    requires doc.List?
  {
    if |doc.items| < |kw.prefixItems| then |doc.items| else |kw.prefixItems|
  }

  function AtElement(at: Path, doc: Doc, i: nat, id: nat): Target
    requires doc.List? && i < |doc.items|
  {
    Target(at + [Element(i)], doc.items[i], id)
  }

  function AtField(at: Path, doc: Doc, i: nat, id: nat): Target
    requires doc.Dict? && i < |doc.fields|
  {
    Target(at + [Member(doc.fields[i].key)], doc.fields[i].value, id)
  }

  function ElementTask(at: Path, doc: Doc, i: nat, id: nat): Task
    requires doc.List? && i < |doc.items|
  {
    Apply(AtElement(at, doc, i, id), true, Notes({}, {i}), false)
  }

  function PrefixTasks(kw: Keywords, at: Path, doc: Doc): seq<Task> {
    if !doc.List? then []
    else
      var count := PrefixCount(kw, doc);
      seq(count, i requires 0 <= i < count => ElementTask(at, doc, i, kw.prefixItems[i]))
  }

  function ItemTasks(kw: Keywords, at: Path, doc: Doc): seq<Task> {
    if !doc.List? || kw.items.None? then []
    else
      var count := PrefixCount(kw, doc);
      seq(|doc.items| - count, i requires 0 <= i < |doc.items| - count =>
        ElementTask(at, doc, count + i, kw.items.value))
  }

  function ContainsTargets(kw: Keywords, at: Path, doc: Doc): seq<Target> {
    if !doc.List? || kw.contains.None? then []
    else seq(|doc.items|, i requires 0 <= i < |doc.items| => AtElement(at, doc, i, kw.contains.value))
  }

  function PropertyTask(at: Path, doc: Doc, property: Property): Task
    requires doc.Dict?
  {
    var i := IndexOf(doc.fields, property.key);
    if i < |doc.fields| then Apply(AtField(at, doc, i, property.schema), true, Notes({property.key}, {}), false)
    else Skip(true, NO_NOTES)
  }

  function PropertyTasks(kw: Keywords, at: Path, doc: Doc): seq<Task> {
    if !doc.Dict? then []
    else seq(|kw.properties|, i requires 0 <= i < |kw.properties| => PropertyTask(at, doc, kw.properties[i]))
  }

  // A boolean additionalProperties is decided in place.
  function AdditionalTask(table: Table, kw: Keywords, at: Path, doc: Doc, i: nat): Task
    requires doc.Dict? && i < |doc.fields| && kw.additional.Some?
  {
    var key := doc.fields[i].key;
    var mark := Notes({key}, {});
    if key in Declared(kw) then Skip(true, NO_NOTES)
    else match table(kw.additional.value)
      case Boolean(b) => if b then Skip(true, mark) else Refuse(mark)
      case _ => Apply(AtField(at, doc, i, kw.additional.value), true, mark, false)
  }

  function AdditionalTasks(table: Table, kw: Keywords, at: Path, doc: Doc): seq<Task> {
    if !doc.Dict? || kw.additional.None? then []
    else seq(|doc.fields|, i requires 0 <= i < |doc.fields| => AdditionalTask(table, kw, at, doc, i))
  }

  // Only the boolean false is decided in place here.
  function Leftover(table: Table, target: Target, mark: Notes): Task {
    if table(target.id) == Boolean(false) then Refuse(mark) else Apply(target, true, mark, false)
  }

  function UnevaluatedPropertyTask(table: Table, kw: Keywords, at: Path, doc: Doc, seen: Notes, i: nat): Task
    requires doc.Dict? && i < |doc.fields| && kw.unevaluatedProperties.Some?
  {
    var key := doc.fields[i].key;
    if key in seen.props then Skip(false, NO_NOTES)
    else Leftover(table, AtField(at, doc, i, kw.unevaluatedProperties.value), Notes({key}, {}))
  }

  function UnevaluatedItemTask(table: Table, kw: Keywords, at: Path, doc: Doc, seen: Notes, i: nat): Task
    requires doc.List? && i < |doc.items| && kw.unevaluatedItems.Some?
  {
    if i in seen.items then Skip(false, NO_NOTES)
    else Leftover(table, AtElement(at, doc, i, kw.unevaluatedItems.value), Notes({}, {i}))
  }

  // Member names are distinct, so the marks this loop makes never hide a later
  // member of it.
  function UnevaluatedPropertyTasks(table: Table, kw: Keywords, at: Path, doc: Doc, seen: Notes): seq<Task> {
    if !doc.Dict? || kw.unevaluatedProperties.None? then []
    else seq(|doc.fields|, i requires 0 <= i < |doc.fields| => UnevaluatedPropertyTask(table, kw, at, doc, seen, i))
  }

  function UnevaluatedItemTasks(table: Table, kw: Keywords, at: Path, doc: Doc, seen: Notes): seq<Task> {
    if !doc.List? || kw.unevaluatedItems.None? then []
    else seq(|doc.items|, i requires 0 <= i < |doc.items| => UnevaluatedItemTask(table, kw, at, doc, seen, i))
  }

  function Here(at: Path, doc: Doc, id: nat): Task {
    Apply(Target(at, doc, id), false, NO_NOTES, true)
  }

  function AllOfTasks(kw: Keywords, at: Path, doc: Doc): seq<Task> {
    seq(|kw.allOf|, i requires 0 <= i < |kw.allOf| => Apply(Target(at, doc, kw.allOf[i]), true, NO_NOTES, true))
  }

  function Branches(ids: seq<nat>, at: Path, doc: Doc): (targets: seq<Target>)
    ensures |targets| == |ids|
  {
    seq(|ids|, i requires 0 <= i < |ids| => Target(at, doc, ids[i]))
  }

  // ---- The keywords of one schema object, in order ----

  // Each assertion charges its work and may add a failure.
  function Assertions(env: Env, rules: seq<Assertion>, n: nat, doc: Doc, acc: Run): (r: Run)
    requires n <= |rules|
    ensures Passed(r) ==> Passed(acc)
  {
    if n == 0 then acc
    else
      var before := Assertions(env, rules, n - 1, doc, acc);
      if before.Aborted? then Aborted
      else match Charge(env, before.used, rules[n - 1].cost(doc))
        case None => Aborted
        case Some(used) => before.(used := used, valid := before.valid && rules[n - 1].holds(doc))
  }

  function ContainsCount(kw: Keywords, count: nat): bool {
    kw.minContains <= count && (kw.maxContains.Some? ==> count <= kw.maxContains.value)
  }

  function ContainsKeyword(env: Env, ev: Eval, kw: Keywords, at: Path, doc: Doc, acc: Run): (r: Run)
    ensures Passed(r) ==> Passed(acc)
  {
    if !doc.List? || kw.contains.None? || acc.Aborted? then acc
    else
      var probes := ProbeAll(env, ev, ContainsTargets(kw, at, doc), 1, acc.used);
      if probes.Halted? then Aborted
      else
        var hits := Hits(probes.verdicts, |probes.verdicts|);
        Resume(acc, probes, ContainsCount(kw, |hits|), Notes({}, hits))
  }

  function ConditionalKeyword(env: Env, ev: Eval, kw: Keywords, at: Path, doc: Doc, acc: Run): (r: Run)
    ensures Passed(r) ==> Passed(acc)
  {
    if kw.condition.None? || acc.Aborted? then acc
    else
      var probes := ProbeAll(env, ev, [Target(at, doc, kw.condition.value)], 0, acc.used);
      if probes.Halted? then Aborted
      else
        var matched := probes.verdicts[0];
        var next := Resume(acc, probes, true, Collected(matched));
        var branch := Branch(kw, matched.valid);
        if branch.None? then next else EachOf(env, ev, [Here(at, doc, branch.value)], next)
  }

  function AnyOfKeyword(env: Env, ev: Eval, kw: Keywords, at: Path, doc: Doc, acc: Run): (r: Run)
    ensures Passed(r) ==> Passed(acc)
  {
    if kw.anyOf.None? || acc.Aborted? then acc
    else
      var probes := ProbeAll(env, ev, Branches(kw.anyOf.value, at, doc), 1, acc.used);
      if probes.Halted? then Aborted
      else
        var n := |probes.verdicts|;
        Resume(acc, probes, Hits(probes.verdicts, n) != {}, HitNotes(probes.verdicts, n))
  }

  function OneOfKeyword(env: Env, ev: Eval, kw: Keywords, at: Path, doc: Doc, acc: Run): (r: Run)
    ensures Passed(r) ==> Passed(acc)
  {
    if kw.oneOf.None? || acc.Aborted? then acc
    else
      var probes := ProbeAll(env, ev, Branches(kw.oneOf.value, at, doc), 1, acc.used);
      if probes.Halted? then Aborted
      else
        Resume(acc, probes, HitCount(probes.verdicts) == 1, OnlyNotes(probes.verdicts))
  }

  function NotKeyword(env: Env, ev: Eval, kw: Keywords, at: Path, doc: Doc, acc: Run): (r: Run)
    ensures Passed(r) ==> Passed(acc)
  {
    if kw.negated.None? || acc.Aborted? then acc
    else
      var probes := ProbeAll(env, ev, [Target(at, doc, kw.negated.value)], 0, acc.used);
      if probes.Halted? then Aborted else Resume(acc, probes, !probes.verdicts[0].valid, NO_NOTES)
  }

  function NotesOf(run: Run): Notes {
    if run.Done? then run.notes else NO_NOTES
  }

  function ArrayKeywords(env: Env, ev: Eval, kw: Keywords, at: Path, doc: Doc, acc: Run): (r: Run)
    ensures Passed(r) ==> Passed(acc)
  {
    var prefix := EachOf(env, ev, PrefixTasks(kw, at, doc), acc);
    var items := EachOf(env, ev, ItemTasks(kw, at, doc), prefix);
    ContainsKeyword(env, ev, kw, at, doc, items)
  }

  function ObjectKeywords(env: Env, ev: Eval, kw: Keywords, at: Path, doc: Doc, acc: Run): (r: Run)
    ensures Passed(r) ==> Passed(acc)
  {
    var properties := EachOf(env, ev, PropertyTasks(kw, at, doc), acc);
    EachOf(env, ev, AdditionalTasks(env.table, kw, at, doc), properties)
  }

  function LogicKeywords(env: Env, ev: Eval, kw: Keywords, at: Path, doc: Doc, acc: Run): (r: Run)
    ensures Passed(r) ==> Passed(acc)
  {
    var all := EachOf(env, ev, AllOfTasks(kw, at, doc), acc);
    var any := AnyOfKeyword(env, ev, kw, at, doc, all);
    var one := OneOfKeyword(env, ev, kw, at, doc, any);
    NotKeyword(env, ev, kw, at, doc, one)
  }

  function UnevaluatedKeywords(env: Env, ev: Eval, kw: Keywords, at: Path, doc: Doc, acc: Run): (r: Run)
    ensures Passed(r) ==> Passed(acc)
  {
    var props := EachOf(env, ev, UnevaluatedPropertyTasks(env.table, kw, at, doc, NotesOf(acc)), acc);
    EachOf(env, ev, UnevaluatedItemTasks(env.table, kw, at, doc, NotesOf(props)), props)
  }

  // Every keyword between $ref and the unevaluated ones.
  function Applied(env: Env, ev: Eval, kw: Keywords, at: Path, doc: Doc, acc: Run): (r: Run)
    ensures Passed(r) ==> Passed(acc)
  {
    var asserted := Assertions(env, kw.assertions, |kw.assertions|, doc, acc);
    var elements := ArrayKeywords(env, ev, kw, at, doc, asserted);
    var members := ObjectKeywords(env, ev, kw, at, doc, elements);
    var conditional := ConditionalKeyword(env, ev, kw, at, doc, members);
    LogicKeywords(env, ev, kw, at, doc, conditional)
  }

  // Every keyword but $ref.
  function Rest(env: Env, ev: Eval, kw: Keywords, at: Path, doc: Doc, acc: Run): (r: Run)
    ensures Passed(r) ==> Passed(acc)
  {
    UnevaluatedKeywords(env, ev, kw, at, doc, Applied(env, ev, kw, at, doc, acc))
  }

  // ---- References and depth ----

  // What resolving a reference on a node leads to.
  datatype Resolution =
    | OverBudget
    | Failed(used: Used, cycle: bool)
    | Enter(used: Used, target: nat, active: seq<Active>)

  function Resolve(env: Env, active: seq<Active>, at: Path, ref: Ref, used: Used): Resolution
    requires !ref.NoRef?
  {
    if used.refs >= env.limits.refs then OverBudget
    else
      var next := used.(refs := used.refs + 1);
      if ref.Unresolved? then Failed(next, false)
      else
        var entry := Active(at, ref.target);
        if entry in active then Failed(next, true) else Enter(next, ref.target, active + [entry])
  }

  // The keywords of one schema object; a $ref with siblings comes first, and it
  // stays on the stack while the siblings run.
  function Body(env: Env, room: nat, active: seq<Active>, at: Path, doc: Doc, kw: Keywords, used: Used): Run
    decreases room, 2
  {
    if kw.ref.NoRef? then Rest(env, Evaluator(env, room, active), kw, at, doc, Done(used, true, NO_NOTES, false))
    else match Resolve(env, active, at, kw.ref, used)
      case OverBudget => Aborted
      case Failed(next, cycle) => Done(next, false, NO_NOTES, cycle)
      case Enter(next, target, deeper) =>
        var ev := Evaluator(env, room, deeper);
        Rest(env, ev, kw, at, doc, EachOf(env, ev, [Here(at, doc, target)], Done(next, true, NO_NOTES, false)))
  }

  // Follow references that hide their siblings, then evaluate.
  function Chain(env: Env, room: nat, active: seq<Active>, at: Path, doc: Doc, id: nat, used: Used): Run
    decreases room, 3
  {
    match env.table(id)
    case Boolean(b) => Done(used, b, NO_NOTES, false)
    case Inert => Done(used, true, NO_NOTES, false)
    case Object(kw) =>
      if kw.siblings || kw.ref.NoRef? then Body(env, room, active, at, doc, kw, used)
      else match Resolve(env, active, at, kw.ref, used)
        case OverBudget => Aborted
        case Failed(next, cycle) => Done(next, false, NO_NOTES, cycle)
        case Enter(next, target, deeper) =>
          match Charge(env, next, 1)
          case None => Aborted
          case Some(charged) =>
            if room == 0 then Aborted else Chain(env, room - 1, deeper, at, doc, target, charged)
  }

  // room is the remaining depth: every nested evaluation has less of it.
  function Evaluate(env: Env, room: nat, active: seq<Active>, target: Target, used: Used): Run
    decreases room, 0
  {
    match Charge(env, used, 1)
    case None => Aborted
    case Some(charged) =>
      if room == 0 then Aborted
      else Chain(env, room - 1, active, target.at, target.doc, target.id, charged)
  }

  function Evaluator(env: Env, room: nat, active: seq<Active>): Eval
    decreases room, 1
  {
    (target: Target, used: Used) => Evaluate(env, room, active, target, used)
  }

  // A whole run over an instance.
  function Validate(env: Env, doc: Doc, id: nat): Run {
    Evaluate(env, env.limits.depth, [], Target([], doc, id), Used(0, 0))
  }
}
