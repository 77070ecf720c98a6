// When an accepted instance is one the keyword rules accept, and which schemas
// make the cycle test answer wrongly.

module SchemaVerdicts {
  import opened JsonValue
  import opened Printer
  import opened SchemaRules
  import opened SchemaRun
  import opened SchemaSoundness
  import opened SchemaCycles

  // ---- A cycle fails every schema that does not probe it ----

  predicate Strict(run: Run) {
    run.Done? && run.cycle ==> !run.valid
  }

  // Subschemas whose verdict is not simply required.
  predicate Probed(kw: Keywords, id: nat) {
    || kw.contains == Some(id) || kw.condition == Some(id) || kw.negated == Some(id)
    || id in Alternatives(kw.anyOf) || id in Alternatives(kw.oneOf)
  }

  // Subschemas of the children of a node.
  predicate OnChild(kw: Keywords, id: nat) {
    || id in kw.prefixItems || kw.items == Some(id) || kw.contains == Some(id) || kw.additional == Some(id)
    || (exists i :: 0 <= i < |kw.properties| && kw.properties[i].schema == id)
    || kw.unevaluatedProperties == Some(id) || kw.unevaluatedItems == Some(id)
  }

  function ChildCount(doc: Doc): nat {
    match doc
    case Scalar(_) => 0
    case List(items) => |items|
    case Dict(fields) => |fields|
  }

  function ChildOf(doc: Doc, i: nat): Doc
    requires i < ChildCount(doc)
  {
    if doc.List? then doc.items[i] else doc.fields[i].value
  }

  // s holds wherever the keywords can lead.
  ghost predicate LeadsOnlyTo(kw: Keywords, doc: Doc, s: Claim) {
    && (kw.ref.To? ==> s(doc, kw.ref.target))
    && (forall id: nat :: InPlace(kw, id) ==> s(doc, id))
    && (forall i: nat, id: nat :: i < ChildCount(doc) && OnChild(kw, id) ==> s(ChildOf(doc, i), id))
  }

  lemma LeadsHere(kw: Keywords, ids: seq<nat>, doc: Doc, s: Claim)
    requires LeadsOnlyTo(kw, doc, s) && forall id :: id in ids ==> InPlace(kw, id)
    ensures OnAll(ids, doc, s)
  {
    assert forall i :: 0 <= i < |ids| ==> ids[i] in ids;
  }

  lemma LeadsDown(kw: Keywords, doc: Doc, s: Claim)
    requires LeadsOnlyTo(kw, doc, s)
    ensures doc.List? ==> forall i: nat, id: nat :: i < |doc.items| && OnChild(kw, id) ==> s(doc.items[i], id)
    ensures doc.Dict? ==> forall i: nat, id: nat :: i < |doc.fields| && OnChild(kw, id) ==> s(doc.fields[i].value, id)
  {
    hide OnChild;
    forall i: nat, id: nat | i < ChildCount(doc) && OnChild(kw, id) ensures s(ChildOf(doc, i), id) {
    }
    if doc.List? {
      assert forall i: nat :: i < |doc.items| ==> ChildOf(doc, i) == doc.items[i];
    } else if doc.Dict? {
      assert forall i: nat :: i < |doc.fields| ==> ChildOf(doc, i) == doc.fields[i].value;
    }
  }

  lemma LeadsItems(kw: Keywords, doc: Doc, seen: Notes, s: Claim)
    requires LeadsOnlyTo(kw, doc, s)
    ensures OnItems(kw, doc, s) && OnContains(kw, doc, s) && OnUnevaluated(kw, doc, seen, s)
  {
    LeadsDown(kw, doc, s);
    hide LeadsOnlyTo, ChildCount;
    assert forall i :: 0 <= i < |kw.prefixItems| ==> OnChild(kw, kw.prefixItems[i]);
    assert kw.items.Some? ==> OnChild(kw, kw.items.value);
    assert kw.contains.Some? ==> OnChild(kw, kw.contains.value);
    assert kw.unevaluatedItems.Some? ==> OnChild(kw, kw.unevaluatedItems.value);
    assert kw.unevaluatedProperties.Some? ==> OnChild(kw, kw.unevaluatedProperties.value);
  }

  lemma LeadsMembers(kw: Keywords, doc: Doc, s: Claim)
    requires LeadsOnlyTo(kw, doc, s)
    ensures OnMembers(kw, doc, s)
  {
    hide IndexOf, Declared;
    LeadsDown(kw, doc, s);
    hide LeadsOnlyTo;
    assert forall i :: 0 <= i < |kw.properties| ==> OnChild(kw, kw.properties[i].schema);
    assert kw.additional.Some? ==> OnChild(kw, kw.additional.value);
  }

  lemma LeadsConsults(kw: Keywords, doc: Doc, j: Judge, s: Claim)
    requires LeadsOnlyTo(kw, doc, s)
    ensures Consulted(kw, doc, j, s)
  {
    hide OnItems, OnMembers, OnContains, OnUnevaluated, OnAll, Evaluated;
    LeadsHere(kw, kw.allOf, doc, s);
    LeadsHere(kw, Alternatives(kw.anyOf), doc, s);
    LeadsHere(kw, Alternatives(kw.oneOf), doc, s);
    LeadsItems(kw, doc, Evaluated(kw, doc, j), s);
    LeadsMembers(kw, doc, s);
  }

  type Ids = nat -> bool

  // A safe schema leads to safe schemas only, and on the same node only to ones
  // of smaller rank: it has no way back to itself without leaving the node.
  ghost predicate Grounded(kw: Keywords, id: nat, safe: Ids, rank: nat -> nat) {
    && (kw.ref.To? ==> safe(kw.ref.target) && rank(kw.ref.target) < rank(id))
    && (Live(kw) ==> forall j: nat :: InPlace(kw, j) ==>
         safe(j) && rank(j) < rank(id) && (kw.ref.To? ==> rank(j) <= rank(kw.ref.target)))
    && (Live(kw) ==> forall j: nat :: OnChild(kw, j) ==> safe(j))
  }

  // Every subschema under contains, if, anyOf, oneOf or not is safe; and where a
  // $ref to a safe schema has siblings, they do not stay on the node.
  ghost predicate Guarded(table: Table, safe: Ids, rank: nat -> nat) {
    forall i: nat :: table(i).Object? ==>
      var kw := table(i).kw;
      && (safe(i) ==> Grounded(kw, i, safe, rank))
      && (Live(kw) ==> forall j: nat :: Probed(kw, j) ==> safe(j))
      && (!safe(i) && kw.siblings && kw.ref.To? && safe(kw.ref.target) ==> forall j: nat :: !InPlace(kw, j))
  }

  // No schema has contains, if, anyOf, oneOf or not.
  lemma NothingProbed(table: Table)
    requires forall i: nat :: table(i).Object? ==> forall j: nat :: !Probed(table(i).kw, j)
    ensures Guarded(table, i => false, i => 0)
  {
  }

  // The active references on this node: if any is safe, then so is the schema
  // being evaluated, and its rank is no greater.
  ghost predicate Ahead(active: seq<Active>, at: Path, safe: Ids, rank: nat -> nat, id: nat) {
    forall i :: 0 <= i < |active| ==>
      || |active[i].at| < |at|
      || (active[i].at == at && (safe(active[i].target) ==> safe(id) && rank(id) <= rank(active[i].target)))
  }

  // Near this node ev lets no cycle pass, and meets none in a safe schema.
  ghost predicate Firm(ev: Eval, kw: Keywords, at: Path, doc: Doc, safe: Ids) {
    forall t: Target, u: Used :: Near(t, at, doc, kw) ==> Strict(ev(t, u)) && (safe(t.id) ==> Calm(ev(t, u)))
  }

  lemma {:induction false} EachStrict(env: Env, ev: Eval, safe: Ids, kw: Keywords, at: Path, doc: Doc,
                                      tasks: seq<Task>, n: nat, acc: Run)
    requires n <= |tasks| && Firm(ev, kw, at, doc, safe) && TasksNear(tasks, n, kw, at, doc) && Strict(acc)
    ensures Strict(Each(env, ev, tasks, n, acc))
  {
    if n > 0 {
      EachStrict(env, ev, safe, kw, at, doc, tasks, n - 1, acc);
    }
  }

  lemma {:induction false} ProbeSafe(env: Env, ev: Eval, safe: Ids, kw: Keywords, at: Path, doc: Doc,
                                     targets: seq<Target>, cost: nat, n: nat, used: Used)
    requires n <= |targets| && Firm(ev, kw, at, doc, safe)
    requires forall i :: 0 <= i < n ==> Near(targets[i], at, doc, kw) && safe(targets[i].id)
    ensures var r := Probe(env, ev, targets, cost, n, used); r.Probed? ==> !r.cycle
  {
    if n > 0 {
      ProbeSafe(env, ev, safe, kw, at, doc, targets, cost, n - 1, used);
    }
  }

  lemma ArrayStrict(env: Env, ev: Eval, safe: Ids, kw: Keywords, at: Path, doc: Doc, acc: Run)
    requires Firm(ev, kw, at, doc, safe) && Strict(acc) && forall j: nat :: Probed(kw, j) ==> safe(j)
    ensures Strict(ArrayKeywords(env, ev, kw, at, doc, acc))
  {
    var prefix, items := PrefixTasks(kw, at, doc), ItemTasks(kw, at, doc);
    if doc.List? {
      ItemTaskAt(kw, at, doc);
    }
    EachStrict(env, ev, safe, kw, at, doc, prefix, |prefix|, acc);
    var middle := EachOf(env, ev, prefix, acc);
    EachStrict(env, ev, safe, kw, at, doc, items, |items|, middle);
    var last := EachOf(env, ev, items, middle);
    if doc.List? && kw.contains.Some? && last.Done? {
      var targets := ContainsTargets(kw, at, doc);
      assert forall i :: 0 <= i < |targets| ==> targets[i] == AtElement(at, doc, i, kw.contains.value);
      ProbeSafe(env, ev, safe, kw, at, doc, targets, 1, |targets|, last.used);
    }
  }

  lemma ObjectStrict(env: Env, ev: Eval, safe: Ids, kw: Keywords, at: Path, doc: Doc, acc: Run)
    requires Firm(ev, kw, at, doc, safe) && Strict(acc)
    ensures Strict(ObjectKeywords(env, ev, kw, at, doc, acc))
  {
    hide TasksNear, PropertyTasks, AdditionalTasks, Firm;
    var props, rest := PropertyTasks(kw, at, doc), AdditionalTasks(env.table, kw, at, doc);
    MembersNear(env.table, kw, at, doc);
    EachStrict(env, ev, safe, kw, at, doc, props, |props|, acc);
    EachStrict(env, ev, safe, kw, at, doc, rest, |rest|, EachOf(env, ev, props, acc));
  }

  lemma ConditionalStrict(env: Env, ev: Eval, safe: Ids, kw: Keywords, at: Path, doc: Doc, acc: Run)
    requires Firm(ev, kw, at, doc, safe) && Strict(acc) && forall j: nat :: Probed(kw, j) ==> safe(j)
    ensures Strict(ConditionalKeyword(env, ev, kw, at, doc, acc))
  {
    if kw.condition.Some? && acc.Done? {
      var targets := [Target(at, doc, kw.condition.value)];
      ProbeSafe(env, ev, safe, kw, at, doc, targets, 0, 1, acc.used);
      var probes := ProbeAll(env, ev, targets, 0, acc.used);
      if probes.Probed? {
        var next := Resume(acc, probes, true, Collected(probes.verdicts[0]));
        var branch := Branch(kw, probes.verdicts[0].valid);
        if branch.Some? {
          EachStrict(env, ev, safe, kw, at, doc, [Here(at, doc, branch.value)], 1, next);
        }
      }
    }
  }

  lemma BranchesSafe(env: Env, ev: Eval, safe: Ids, kw: Keywords, ids: seq<nat>, at: Path, doc: Doc, used: Used)
    requires Firm(ev, kw, at, doc, safe) && forall id :: id in ids ==> InPlace(kw, id) && safe(id)
    ensures var r := ProbeAll(env, ev, Branches(ids, at, doc), 1, used); r.Probed? ==> !r.cycle
  {
    var targets := Branches(ids, at, doc);
    assert forall i :: 0 <= i < |ids| ==> targets[i].id == ids[i] && ids[i] in ids;
    ProbeSafe(env, ev, safe, kw, at, doc, targets, 1, |targets|, used);
  }

  lemma LogicStrict(env: Env, ev: Eval, safe: Ids, kw: Keywords, at: Path, doc: Doc, acc: Run)
    requires Firm(ev, kw, at, doc, safe) && Strict(acc) && forall j: nat :: Probed(kw, j) ==> safe(j)
    ensures Strict(LogicKeywords(env, ev, kw, at, doc, acc))
  {
    hide Firm, EachOf, ProbeAll, Hits, HitNotes, HitCount, OnlyNotes;
    var all := EachOf(env, ev, AllOfTasks(kw, at, doc), acc);
    AllStrict(env, ev, safe, kw, at, doc, acc);
    if all.Done? && kw.anyOf.Some? {
      BranchesSafe(env, ev, safe, kw, kw.anyOf.value, at, doc, all.used);
    }
    var any := AnyOfKeyword(env, ev, kw, at, doc, all);
    if any.Done? && kw.oneOf.Some? {
      BranchesSafe(env, ev, safe, kw, kw.oneOf.value, at, doc, any.used);
    }
    var one := OneOfKeyword(env, ev, kw, at, doc, any);
    if one.Done? && kw.negated.Some? {
      NegatedSafe(env, ev, safe, kw, at, doc, one.used);
    }
  }

  lemma AllStrict(env: Env, ev: Eval, safe: Ids, kw: Keywords, at: Path, doc: Doc, acc: Run)
    requires Firm(ev, kw, at, doc, safe) && Strict(acc)
    ensures Strict(EachOf(env, ev, AllOfTasks(kw, at, doc), acc))
  {
    var tasks := AllOfTasks(kw, at, doc);
    EachStrict(env, ev, safe, kw, at, doc, tasks, |tasks|, acc);
  }

  lemma NegatedSafe(env: Env, ev: Eval, safe: Ids, kw: Keywords, at: Path, doc: Doc, used: Used)
    requires Firm(ev, kw, at, doc, safe) && kw.negated.Some? && safe(kw.negated.value)
    ensures var r := ProbeAll(env, ev, [Target(at, doc, kw.negated.value)], 0, used); r.Probed? ==> !r.cycle
  {
    ProbeSafe(env, ev, safe, kw, at, doc, [Target(at, doc, kw.negated.value)], 0, 1, used);
  }

  lemma UnevaluatedStrict(env: Env, ev: Eval, safe: Ids, kw: Keywords, at: Path, doc: Doc, acc: Run)
    requires Firm(ev, kw, at, doc, safe) && Strict(acc)
    ensures Strict(UnevaluatedKeywords(env, ev, kw, at, doc, acc))
  {
    hide Firm, Each, UnevaluatedPropertyTasks, UnevaluatedItemTasks, TasksNear;
    var props := UnevaluatedPropertyTasks(env.table, kw, at, doc, NotesOf(acc));
    var middle := EachOf(env, ev, props, acc);
    var items := UnevaluatedItemTasks(env.table, kw, at, doc, NotesOf(middle));
    LeftoverNear(env.table, kw, at, doc, NotesOf(acc));
    LeftoverNear(env.table, kw, at, doc, NotesOf(middle));
    EachStrict(env, ev, safe, kw, at, doc, props, |props|, acc);
    EachStrict(env, ev, safe, kw, at, doc, items, |items|, middle);
  }

  lemma {:induction false} AssertionsStrict(env: Env, rules: seq<Assertion>, n: nat, doc: Doc, acc: Run)
    requires n <= |rules| && Strict(acc)
    ensures Strict(SchemaRun.Assertions(env, rules, n, doc, acc))
  {
    if n > 0 {
      AssertionsStrict(env, rules, n - 1, doc, acc);
    }
  }

  lemma RestStrict(env: Env, ev: Eval, safe: Ids, kw: Keywords, at: Path, doc: Doc, acc: Run)
    requires Firm(ev, kw, at, doc, safe) && Strict(acc) && forall j: nat :: Probed(kw, j) ==> safe(j)
    ensures Strict(Rest(env, ev, kw, at, doc, acc))
  {
    hide Firm, SchemaRun.Assertions, ArrayKeywords, ObjectKeywords, ConditionalKeyword, LogicKeywords;
    hide UnevaluatedKeywords, Probed;
    var asserted := SchemaRun.Assertions(env, kw.assertions, |kw.assertions|, doc, acc);
    AssertionsStrict(env, kw.assertions, |kw.assertions|, doc, acc);
    var elements := ArrayKeywords(env, ev, kw, at, doc, asserted);
    ArrayStrict(env, ev, safe, kw, at, doc, asserted);
    var members := ObjectKeywords(env, ev, kw, at, doc, elements);
    ObjectStrict(env, ev, safe, kw, at, doc, elements);
    var conditional := ConditionalKeyword(env, ev, kw, at, doc, members);
    ConditionalStrict(env, ev, safe, kw, at, doc, members);
    LogicStrict(env, ev, safe, kw, at, doc, conditional);
    UnevaluatedStrict(env, ev, safe, kw, at, doc, Applied(env, ev, kw, at, doc, acc));
  }

  // ---- Safe schemas meet no cycle ----

  function Safely(table: Table, safe: Ids): Claim {
    (d: Doc, i: nat) => safe(i) || table(i).Boolean?
  }

  lemma GroundedConsults(table: Table, kw: Keywords, id: nat, safe: Ids, rank: nat -> nat, doc: Doc, j: Judge)
    requires Grounded(kw, id, safe, rank) && Live(kw)
    ensures Consulted(kw, doc, j, Safely(table, safe))
  {
    LeadsConsults(kw, doc, j, Safely(table, safe));
  }

  lemma SafelyPlain(table: Table, safe: Ids, k: nat)
    ensures PlainBooleans(table, JudgeAt(table, k), Safely(table, safe))
  {
  }

  // What lies near: on a child there is no active reference, and on this node
  // the subschema is ahead of every one, its own finished $ref included.
  lemma AheadNear(table: Table, active: seq<Active>, at: Path, doc: Doc, safe: Ids, rank: nat -> nat, id: nat,
                  t: Target)
    requires Guarded(table, safe, rank) && table(id).Object? && Live(table(id).kw)
    requires Ahead(active, at, safe, rank, id) && Near(t, at, doc, table(id).kw)
    ensures var kw := table(id).kw;
            Ahead(if kw.ref.To? then active + [Active(at, kw.ref.target)] else active, t.at, safe, rank, t.id)
  {
  }

  // Entering a reference: a safe one is not on the stack.
  lemma AheadEntered(table: Table, active: seq<Active>, at: Path, safe: Ids, rank: nat -> nat, id: nat)
    requires Guarded(table, safe, rank) && table(id).Object? && table(id).kw.ref.To?
    requires Ahead(active, at, safe, rank, id)
    ensures var target := table(id).kw.ref.target;
            && Ahead(active + [Active(at, target)], at, safe, rank, target)
            && (safe(id) ==> safe(target) && Active(at, target) !in active)
  {
  }

  lemma {:induction false} KeywordsFirm(env: Env, safe: Ids, rank: nat -> nat, room: nat, active: seq<Active>, at: Path,
                                        doc: Doc, id: nat)
    requires Guarded(env.table, safe, rank) && env.table(id).Object? && Live(env.table(id).kw)
    requires Ahead(active, at, safe, rank, id)
    ensures var kw := env.table(id).kw;
            && Firm(Inside(env, room, active, at, kw), kw, at, doc, safe)
            && Gentle(Inside(env, room, active, at, kw), kw, at, doc, Safely(env.table, safe))
    decreases room, 1
  {
    var kw := env.table(id).kw;
    var ev := Inside(env, room, active, at, kw);
    var stack := if kw.ref.To? then active + [Active(at, kw.ref.target)] else active;
    forall t: Target, u: Used | Near(t, at, doc, kw)
      ensures Strict(ev(t, u)) && (Safely(env.table, safe)(t.doc, t.id) ==> Calm(ev(t, u)))
    {
      AheadNear(env.table, active, at, doc, safe, rank, id, t);
      EvaluateFirm(env, safe, rank, room, stack, t, u);
    }
  }

  // The run of a $ref with siblings.
  lemma {:induction false} SiblingRefFirm(env: Env, safe: Ids, rank: nat -> nat, room: nat, active: seq<Active>,
                                          at: Path, doc: Doc, id: nat, next: Used)
    requires Guarded(env.table, safe, rank) && env.table(id).Object? && env.table(id).kw.ref.To?
    requires Ahead(active, at, safe, rank, id)
    ensures var kw := env.table(id).kw;
            var acc := EachOf(env, Inside(env, room, active, at, kw), [Here(at, doc, kw.ref.target)],
                              Done(next, true, NO_NOTES, false));
            Strict(acc) && (safe(id) ==> Calm(acc))
    decreases room, 1
  {
    var kw := env.table(id).kw;
    var ev := Inside(env, room, active, at, kw);
    AheadEntered(env.table, active, at, safe, rank, id);
    var here := [Here(at, doc, kw.ref.target)];
    forall u: Used ensures Strict(ev(here[0].target, u)) && (safe(id) ==> Calm(ev(here[0].target, u))) {
      EvaluateFirm(env, safe, rank, room, active + [Active(at, kw.ref.target)], here[0].target, u);
    }
    var start := Done(next, true, NO_NOTES, false);
    assert Each(env, ev, here, 1, start) == Perform(env, ev, here[0], Each(env, ev, here, 0, start));
  }

  lemma {:induction false} BodyFirm(env: Env, safe: Ids, rank: nat -> nat, room: nat, active: seq<Active>, at: Path,
                                    doc: Doc, id: nat, used: Used)
    requires Guarded(env.table, safe, rank) && env.table(id).Object? && Live(env.table(id).kw)
    requires Ahead(active, at, safe, rank, id)
    ensures var r := Body(env, room, active, at, doc, env.table(id).kw, used);
            Strict(r) && (safe(id) ==> Calm(r))
    decreases room, 2
  {
    hide Rest, EachOf, Firm, Gentle, Ahead, Grounded, Faithful, PlainBooleans, Consulted, Probed, RefNotes, Evaluator;
    var kw := env.table(id).kw;
    KeywordsFirm(env, safe, rank, room, active, at, doc, id);
    if kw.ref.NoRef? {
      RestFirm(env, safe, rank, room, active, at, doc, id, Done(used, true, NO_NOTES, false));
    } else if kw.ref.To? {
      AheadEntered(env.table, active, at, safe, rank, id);
      var resolved := Resolve(env, active, at, kw.ref, used);
      if resolved.Enter? {
        SiblingRefFirm(env, safe, rank, room, active, at, doc, id, resolved.used);
        var start := Done(resolved.used, true, NO_NOTES, false);
        var acc := EachOf(env, Inside(env, room, active, at, kw), [Here(at, doc, kw.ref.target)], start);
        RestFirm(env, safe, rank, room, active, at, doc, id, acc);
      }
    }
  }

  // The keywords beside the $ref, once they are known to be firm.
  lemma RestFirm(env: Env, safe: Ids, rank: nat -> nat, room: nat, active: seq<Active>, at: Path, doc: Doc, id: nat,
                 acc: Run)
    requires Guarded(env.table, safe, rank) && env.table(id).Object? && Live(env.table(id).kw)
    requires var kw := env.table(id).kw;
             && Firm(Inside(env, room, active, at, kw), kw, at, doc, safe)
             && Gentle(Inside(env, room, active, at, kw), kw, at, doc, Safely(env.table, safe))
    requires Strict(acc) && (safe(id) ==> Calm(acc))
    requires var kw := env.table(id).kw;
             (kw.ref.NoRef? && acc.Done? && acc.notes == NO_NOTES)
             || (kw.ref.To? && exists next: Used ::
                   acc == EachOf(env, Inside(env, room, active, at, kw), [Here(at, doc, kw.ref.target)],
                                 Done(next, true, NO_NOTES, false)))
    ensures var kw := env.table(id).kw;
            var r := Rest(env, Inside(env, room, active, at, kw), kw, at, doc, acc);
            Strict(r) && (safe(id) ==> Calm(r))
  {
    hide Rest, EachOf, Firm, Gentle, Grounded, Faithful, PlainBooleans, Consulted, Probed, RefNotes, Evaluator;
    var kw := env.table(id).kw;
    var ev := Inside(env, room, active, at, kw);
    RestStrict(env, ev, safe, kw, at, doc, acc);
    if safe(id) {
      var j, f, s := JudgeAt(env.table, room), SettledAt(env.table, room), Safely(env.table, safe);
      EvaluatorFaithful(env, room, if kw.ref.To? then active + [Active(at, kw.ref.target)] else active);
      BooleansArePlain(env.table, room);
      SafelyPlain(env.table, safe, room);
      GroundedConsults(env.table, kw, id, safe, rank, doc, j);
      RefNotesNone(kw, doc, j);
      if kw.ref.To? && acc.Done? {
        var next: Used :| acc == EachOf(env, ev, [Here(at, doc, kw.ref.target)], Done(next, true, NO_NOTES, false));
        RefSound(env, ev, j, f, kw, at, doc, next);
      }
      RestCalm(env, ev, j, f, s, kw, at, doc, acc);
    }
  }

  lemma {:induction false} ChainFirm(env: Env, safe: Ids, rank: nat -> nat, room: nat, active: seq<Active>, at: Path,
                                     doc: Doc, id: nat, used: Used)
    requires Guarded(env.table, safe, rank) && Ahead(active, at, safe, rank, id)
    ensures var r := Chain(env, room, active, at, doc, id, used);
            Strict(r) && (safe(id) || env.table(id).Boolean? ==> Calm(r))
    decreases room, 3
  {
    hide Body, Ahead, Grounded, Guarded;
    var schema := env.table(id);
    if schema.Object? {
      var kw := schema.kw;
      if Live(kw) {
        BodyFirm(env, safe, rank, room, active, at, doc, id, used);
      } else if kw.ref.To? {
        AheadEntered(env.table, active, at, safe, rank, id);
        var resolved := Resolve(env, active, at, kw.ref, used);
        if resolved.Enter? && room > 0 && Charge(env, resolved.used, 1).Some? {
          var charged := Charge(env, resolved.used, 1).value;
          ChainFirm(env, safe, rank, room - 1, resolved.active, at, doc, resolved.target, charged);
        }
      }
    }
  }

  lemma {:induction false} EvaluateFirm(env: Env, safe: Ids, rank: nat -> nat, room: nat, active: seq<Active>,
                                        target: Target, used: Used)
    requires Guarded(env.table, safe, rank) && Ahead(active, target.at, safe, rank, target.id)
    ensures var r := Evaluate(env, room, active, target, used);
            Strict(r) && (safe(target.id) || env.table(target.id).Boolean? ==> Calm(r))
    decreases room, 0
  {
    hide Chain, Guarded, Ahead;
    if room > 0 && Charge(env, used, 1).Some? {
      var charged := Charge(env, used, 1).value;
      ChainFirm(env, safe, rank, room - 1, active, target.at, target.doc, target.id, charged);
    }
  }

  // For every schema whose probed subschemas cannot come back to themselves on
  // one instance node: what is accepted, the rules accept.
  lemma AcceptedIsValid(env: Env, safe: Ids, rank: nat -> nat, doc: Doc, id: nat)
    requires Guarded(env.table, safe, rank) && Passed(Validate(env, doc, id))
    ensures Settled(env.table, env.limits.depth, doc, id)
    ensures Meaning(env.table, env.limits.depth, doc, id).valid
  {
    var target := Target([], doc, id);
    EvaluateFirm(env, safe, rank, env.limits.depth, [], target, Used(0, 0));
    EvaluateSound(env, env.limits.depth, [], target, Used(0, 0));
  }

  // ---- Where the cycle test is wrong ----

  // The run cannot finish without reporting a cycle; and, if strictly, without
  // failing.
  predicate Looped(run: Run, strictly: bool) {
    run.Done? ==> run.cycle && (strictly ==> !run.valid)
  }

  // A subschema evaluated on this very instance; if strictly, one that is simply
  // required.
  ghost predicate Follows(table: Table, doc: Doc, kw: Keywords, id: nat, strictly: bool) {
    if strictly then id in kw.allOf else InPlaceOn(table, doc, kw, id)
  }

  predicate InLogic(kw: Keywords, id: nat, strictly: bool) {
    || id in kw.allOf
    || (!strictly && (id in Alternatives(kw.anyOf) || id in Alternatives(kw.oneOf) || kw.negated == Some(id)))
  }

  // Evaluating id on doc comes to a reference to t on the same node, within n
  // steps.
  ghost predicate Meets(table: Table, doc: Doc, n: nat, id: nat, t: nat, strictly: bool)
    decreases n
  {
    table(id).Object?
    && var kw := table(id).kw;
    || kw.ref == To(t)
    || (n > 0 && kw.ref.To? && Meets(table, doc, n - 1, kw.ref.target, t, strictly))
    || (n > 0 && Live(kw) && !kw.ref.Unresolved?
        && exists j: nat :: Follows(table, doc, kw, j, strictly) && Meets(table, doc, n - 1, j, t, strictly))
  }

  ghost predicate LoopsAt(ev: Eval, target: Target, strictly: bool) {
    forall u: Used :: Looped(ev(target, u), strictly)
  }

  lemma {:induction false} EachLoops(env: Env, ev: Eval, tasks: seq<Task>, n: nat, acc: Run, i: nat, strictly: bool)
    requires n <= |tasks|
    requires Looped(acc, strictly) || (i < n && tasks[i].Apply? && LoopsAt(ev, tasks[i].target, strictly))
    ensures Looped(Each(env, ev, tasks, n, acc), strictly)
  {
    if n > 0 && (Looped(acc, strictly) || i < n - 1) {
      EachLoops(env, ev, tasks, n - 1, acc, i, strictly);
    }
  }

  lemma {:induction false} ProbeLoops(env: Env, ev: Eval, targets: seq<Target>, cost: nat, n: nat, used: Used, i: nat)
    requires i < n <= |targets| && LoopsAt(ev, targets[i], false)
    ensures var r := Probe(env, ev, targets, cost, n, used); r.Probed? ==> r.cycle
  {
    if i < n - 1 {
      ProbeLoops(env, ev, targets, cost, n - 1, used, i);
    }
  }

  lemma EachOfLoops(env: Env, ev: Eval, tasks: seq<Task>, acc: Run, strictly: bool)
    requires Looped(acc, strictly)
    ensures Looped(EachOf(env, ev, tasks, acc), strictly)
  {
    EachLoops(env, ev, tasks, |tasks|, acc, 0, strictly);
  }

  lemma {:induction false} AssertionsLoop(env: Env, rules: seq<Assertion>, n: nat, doc: Doc, acc: Run, strictly: bool)
    requires n <= |rules| && Looped(acc, strictly)
    ensures Looped(SchemaRun.Assertions(env, rules, n, doc, acc), strictly)
  {
    if n > 0 {
      AssertionsLoop(env, rules, n - 1, doc, acc, strictly);
    }
  }

  lemma ArrayLoops(env: Env, ev: Eval, kw: Keywords, at: Path, doc: Doc, acc: Run, strictly: bool)
    requires Looped(acc, strictly)
    ensures Looped(ArrayKeywords(env, ev, kw, at, doc, acc), strictly)
    ensures Looped(ObjectKeywords(env, ev, kw, at, doc, acc), strictly)
  {
    hide EachOf, PrefixTasks, ItemTasks, PropertyTasks, AdditionalTasks, ProbeAll;
    EachOfLoops(env, ev, PrefixTasks(kw, at, doc), acc, strictly);
    EachOfLoops(env, ev, ItemTasks(kw, at, doc), EachOf(env, ev, PrefixTasks(kw, at, doc), acc), strictly);
    EachOfLoops(env, ev, PropertyTasks(kw, at, doc), acc, strictly);
    var rest := AdditionalTasks(env.table, kw, at, doc);
    EachOfLoops(env, ev, rest, EachOf(env, ev, PropertyTasks(kw, at, doc), acc), strictly);
  }

  // Once the condition has been met without a cycle, the branch taken is the
  // one the rules select.
  lemma SelectedBranch(env: Env, ev: Eval, room: nat, kw: Keywords, at: Path, doc: Doc, used: Used, j: nat)
    requires Faithful(ev, JudgeAt(env.table, room), SettledAt(env.table, room)) && Selects(env.table, doc, kw, j)
    ensures var r := ProbeAll(env, ev, [Target(at, doc, kw.condition.value)], 0, used);
            r.Probed? && !r.cycle ==> Branch(kw, r.verdicts[0].valid) == Some(j)
  {
    hide Settled, Meaning, Faithful, Probe;
    var c, targets := kw.condition.value, [Target(at, doc, kw.condition.value)];
    var r := ProbeAll(env, ev, targets, 0, used);
    if r.Probed? && !r.cycle {
      var judge, s := JudgeAt(env.table, room), SettledAt(env.table, room);
      ProbeSound(env, ev, judge, s, targets, 0, 1, used);
      assert s(targets[0].doc, targets[0].id) && r.verdicts[0] == judge(targets[0].doc, targets[0].id);
      var k: nat :| Settled(env.table, k, doc, c) && Branch(kw, Meaning(env.table, k, doc, c).valid) == Some(j);
      if k <= room { DeeperAgrees(env.table, k, room, doc, c); } else { DeeperAgrees(env.table, room, k, doc, c); }
    }
  }

  lemma ConditionalLoops(env: Env, ev: Eval, room: nat, kw: Keywords, at: Path, doc: Doc, acc: Run, j: nat,
                         strictly: bool)
    requires Faithful(ev, JudgeAt(env.table, room), SettledAt(env.table, room))
    requires
      || Looped(acc, strictly)
      || (!strictly && LoopsAt(ev, Target(at, doc, j), strictly)
          && (kw.condition == Some(j) || Selects(env.table, doc, kw, j)))
    ensures Looped(ConditionalKeyword(env, ev, kw, at, doc, acc), strictly)
  {
    hide LoopsAt, Faithful, Settled, Meaning;
    if kw.condition.Some? && acc.Done? {
      var targets := [Target(at, doc, kw.condition.value)];
      var probes := ProbeAll(env, ev, targets, 0, acc.used);
      if !Looped(acc, strictly) {
        if kw.condition == Some(j) {
          ProbeLoops(env, ev, targets, 0, 1, acc.used, 0);
        } else {
          SelectedBranch(env, ev, room, kw, at, doc, acc.used, j);
        }
      }
      if probes.Probed? {
        var next := Resume(acc, probes, true, Collected(probes.verdicts[0]));
        var branch := Branch(kw, probes.verdicts[0].valid);
        if branch.Some? {
          EachLoops(env, ev, [Here(at, doc, branch.value)], 1, next, 0, strictly);
        }
      }
    }
  }

  lemma BranchesLoop(env: Env, ev: Eval, ids: seq<nat>, at: Path, doc: Doc, used: Used, j: nat)
    requires j in ids && LoopsAt(ev, Target(at, doc, j), false)
    ensures var r := ProbeAll(env, ev, Branches(ids, at, doc), 1, used); r.Probed? ==> r.cycle
  {
    var i :| 0 <= i < |ids| && ids[i] == j;
    ProbeLoops(env, ev, Branches(ids, at, doc), 1, |ids|, used, i);
  }

  lemma AllLoops(env: Env, ev: Eval, kw: Keywords, at: Path, doc: Doc, acc: Run, j: nat, strictly: bool)
    requires Looped(acc, strictly) || (j in kw.allOf && LoopsAt(ev, Target(at, doc, j), strictly))
    ensures Looped(EachOf(env, ev, AllOfTasks(kw, at, doc), acc), strictly)
  {
    hide LoopsAt;
    var tasks := AllOfTasks(kw, at, doc);
    if Looped(acc, strictly) {
      EachOfLoops(env, ev, tasks, acc, strictly);
    } else {
      var i :| 0 <= i < |kw.allOf| && kw.allOf[i] == j;
      EachLoops(env, ev, tasks, |tasks|, acc, i, strictly);
    }
  }

  lemma LogicLoops(env: Env, ev: Eval, kw: Keywords, at: Path, doc: Doc, acc: Run, j: nat, strictly: bool)
    requires Looped(acc, strictly)
      || (InLogic(kw, j, strictly) && LoopsAt(ev, Target(at, doc, j), strictly))
    ensures Looped(LogicKeywords(env, ev, kw, at, doc, acc), strictly)
  {
    hide EachOf, ProbeAll, Hits, HitNotes, HitCount, OnlyNotes, LoopsAt;
    var all := EachOf(env, ev, AllOfTasks(kw, at, doc), acc);
    if Looped(acc, strictly) || j in kw.allOf {
      AllLoops(env, ev, kw, at, doc, acc, j, strictly);
    }
    if all.Done? && j in Alternatives(kw.anyOf) && !Looped(all, strictly) {
      BranchesLoop(env, ev, kw.anyOf.value, at, doc, all.used, j);
    }
    var any := AnyOfKeyword(env, ev, kw, at, doc, all);
    if any.Done? && j in Alternatives(kw.oneOf) && !Looped(any, strictly) {
      BranchesLoop(env, ev, kw.oneOf.value, at, doc, any.used, j);
    }
    var one := OneOfKeyword(env, ev, kw, at, doc, any);
    if one.Done? && kw.negated == Some(j) && !Looped(one, strictly) {
      NegatedLoops(env, ev, at, doc, one.used, j);
    }
  }

  lemma NegatedLoops(env: Env, ev: Eval, at: Path, doc: Doc, used: Used, j: nat)
    requires LoopsAt(ev, Target(at, doc, j), false)
    ensures var r := ProbeAll(env, ev, [Target(at, doc, j)], 0, used); r.Probed? ==> r.cycle
  {
    ProbeLoops(env, ev, [Target(at, doc, j)], 0, 1, used, 0);
  }

  lemma UnevaluatedLoops(env: Env, ev: Eval, kw: Keywords, at: Path, doc: Doc, acc: Run, strictly: bool)
    requires Looped(acc, strictly)
    ensures Looped(UnevaluatedKeywords(env, ev, kw, at, doc, acc), strictly)
  {
    hide EachOf, UnevaluatedPropertyTasks, UnevaluatedItemTasks;
    var props := UnevaluatedPropertyTasks(env.table, kw, at, doc, NotesOf(acc));
    EachOfLoops(env, ev, props, acc, strictly);
    var middle := EachOf(env, ev, props, acc);
    EachOfLoops(env, ev, UnevaluatedItemTasks(env.table, kw, at, doc, NotesOf(middle)), middle, strictly);
  }

  lemma RestLoops(env: Env, ev: Eval, room: nat, kw: Keywords, at: Path, doc: Doc, acc: Run, j: nat, strictly: bool)
    requires Faithful(ev, JudgeAt(env.table, room), SettledAt(env.table, room))
    requires
      || Looped(acc, strictly)
      || (Follows(env.table, doc, kw, j, strictly) && LoopsAt(ev, Target(at, doc, j), strictly))
    ensures Looped(Rest(env, ev, kw, at, doc, acc), strictly)
  {
    hide SchemaRun.Assertions, ArrayKeywords, ObjectKeywords, ConditionalKeyword, LogicKeywords, UnevaluatedKeywords;
    hide LoopsAt, Faithful, Selects;
    var asserted := SchemaRun.Assertions(env, kw.assertions, |kw.assertions|, doc, acc);
    var elements := ArrayKeywords(env, ev, kw, at, doc, asserted);
    var members := ObjectKeywords(env, ev, kw, at, doc, elements);
    if Looped(acc, strictly) {
      AssertionsLoop(env, kw.assertions, |kw.assertions|, doc, acc, strictly);
      ArrayLoops(env, ev, kw, at, doc, asserted, strictly);
      ArrayLoops(env, ev, kw, at, doc, elements, strictly);
    }
    var conditional := ConditionalKeyword(env, ev, kw, at, doc, members);
    if Looped(members, strictly) || (!strictly && (kw.condition == Some(j) || Selects(env.table, doc, kw, j))) {
      ConditionalLoops(env, ev, room, kw, at, doc, members, j, strictly);
    }
    LogicLoops(env, ev, kw, at, doc, conditional, j, strictly);
    UnevaluatedLoops(env, ev, kw, at, doc, Applied(env, ev, kw, at, doc, acc), strictly);
  }

  lemma {:induction false} BodyLoops(env: Env, room: nat, active: seq<Active>, at: Path, doc: Doc, id: nat, used: Used,
                                     t: nat, n: nat, strictly: bool)
    requires env.table(id).Object? && Live(env.table(id).kw)
    requires Active(at, t) in active && Meets(env.table, doc, n, id, t, strictly)
    ensures Looped(Body(env, room, active, at, doc, env.table(id).kw, used), strictly)
    decreases room, 2
  {
    hide Rest, EachOf, Faithful, Follows, Evaluator;
    var kw := env.table(id).kw;
    var ev := Inside(env, room, active, at, kw);
    EvaluatorFaithful(env, room, if kw.ref.To? then active + [Active(at, kw.ref.target)] else active);
    if kw.ref.NoRef? {
      var j: nat :| Follows(env.table, doc, kw, j, strictly) && Meets(env.table, doc, n - 1, j, t, strictly);
      SubLoops(env, room, active, at, doc, j, t, n - 1, strictly);
      RestLoops(env, ev, room, kw, at, doc, Done(used, true, NO_NOTES, false), j, strictly);
    } else {
      var resolved := Resolve(env, active, at, kw.ref, used);
      if resolved.Enter? {
        var here := [Here(at, doc, kw.ref.target)];
        var start := Done(resolved.used, true, NO_NOTES, false);
        var acc := EachOf(env, ev, here, start);
        if Meets(env.table, doc, n - 1, kw.ref.target, t, strictly) {
          SubLoops(env, room, resolved.active, at, doc, kw.ref.target, t, n - 1, strictly);
          HereLoops(env, ev, at, doc, kw.ref.target, start, strictly);
          RestLoops(env, ev, room, kw, at, doc, acc, 0, strictly);
        } else {
          var j: nat :| Follows(env.table, doc, kw, j, strictly) && Meets(env.table, doc, n - 1, j, t, strictly);
          SubLoops(env, room, resolved.active, at, doc, j, t, n - 1, strictly);
          RestLoops(env, ev, room, kw, at, doc, acc, j, strictly);
        }
      }
    }
  }

  lemma HereLoops(env: Env, ev: Eval, at: Path, doc: Doc, id: nat, acc: Run, strictly: bool)
    requires LoopsAt(ev, Target(at, doc, id), strictly)
    ensures Looped(EachOf(env, ev, [Here(at, doc, id)], acc), strictly)
  {
    EachLoops(env, ev, [Here(at, doc, id)], 1, acc, 0, strictly);
  }

  lemma {:induction false} SubLoops(env: Env, room: nat, active: seq<Active>, at: Path, doc: Doc, id: nat, t: nat,
                                    n: nat, strictly: bool)
    requires Active(at, t) in active && Meets(env.table, doc, n, id, t, strictly)
    ensures LoopsAt(Evaluator(env, room, active), Target(at, doc, id), strictly)
    decreases room, 1
  {
    var target := Target(at, doc, id);
    forall u: Used ensures Looped(Evaluator(env, room, active)(target, u), strictly) {
      EvaluateLoops(env, room, active, target, u, t, n, strictly);
    }
  }

  lemma {:induction false} ChainLoops(env: Env, room: nat, active: seq<Active>, at: Path, doc: Doc, id: nat, used: Used,
                                      t: nat, n: nat, strictly: bool)
    requires Active(at, t) in active && Meets(env.table, doc, n, id, t, strictly)
    ensures Looped(Chain(env, room, active, at, doc, id, used), strictly)
    decreases room, 3
  {
    hide Body;
    var kw := env.table(id).kw;
    if Live(kw) {
      BodyLoops(env, room, active, at, doc, id, used, t, n, strictly);
    } else {
      var resolved := Resolve(env, active, at, kw.ref, used);
      if resolved.Enter? && room > 0 && Charge(env, resolved.used, 1).Some? {
        var charged := Charge(env, resolved.used, 1).value;
        ChainLoops(env, room - 1, resolved.active, at, doc, resolved.target, charged, t, n - 1, strictly);
      }
    }
  }

  lemma {:induction false} EvaluateLoops(env: Env, room: nat, active: seq<Active>, target: Target, used: Used, t: nat,
                                         n: nat, strictly: bool)
    requires Active(target.at, t) in active && Meets(env.table, target.doc, n, target.id, t, strictly)
    ensures Looped(Evaluate(env, room, active, target, used), strictly)
    decreases room, 0
  {
    hide Chain;
    if room > 0 && Charge(env, used, 1).Some? {
      var charged := Charge(env, used, 1).value;
      ChainLoops(env, room - 1, active, target.at, target.doc, target.id, charged, t, n, strictly);
    }
  }

  // Whatever the schema: if a keyword beside a $ref comes to the target of that
  // $ref again on the same node, then no instance, place or budget lets the
  // evaluation finish without reporting a cycle, although the $ref is finished.
  // When the keyword is allOf, every instance fails.
  lemma SecondReferenceIsCycle(env: Env, room: nat, active: seq<Active>, target: Target, used: Used, j: nat, n: nat,
                               strictly: bool)
    requires env.table(target.id).Object?
    requires var kw := env.table(target.id).kw;
             && kw.siblings && kw.ref.To?
             && Follows(env.table, target.doc, kw, j, strictly)
               && Meets(env.table, target.doc, n, j, kw.ref.target, strictly)
    ensures Looped(Evaluate(env, room, active, target, used), strictly)
  {
    hide Rest, EachOf, Meets, Follows, Faithful;
    var kw := env.table(target.id).kw;
    if room > 0 && Charge(env, used, 1).Some? {
      var charged := Charge(env, used, 1).value;
      var resolved := Resolve(env, active, target.at, kw.ref, charged);
      if resolved.Enter? {
        var start := Done(resolved.used, true, NO_NOTES, false);
        var ev := Evaluator(env, room - 1, resolved.active);
        var acc := EachOf(env, ev, [Here(target.at, target.doc, kw.ref.target)], start);
        SubLoops(env, room - 1, resolved.active, target.at, target.doc, j, kw.ref.target, n, strictly);
        EvaluatorFaithful(env, room - 1, resolved.active);
        RestLoops(env, ev, room - 1, kw, target.at, target.doc, acc, j, strictly);
      }
      EvaluatesBody(env, room, active, target, used);
    }
  }

  // What evaluating an object comes to whose keywords are not hidden.
  lemma EvaluatesBody(env: Env, room: nat, active: seq<Active>, target: Target, used: Used)
    requires env.table(target.id).Object? && Live(env.table(target.id).kw)
    requires room > 0 && Charge(env, used, 1).Some?
    ensures Evaluate(env, room, active, target, used)
         == Body(env, room - 1, active, target.at, target.doc, env.table(target.id).kw, Charge(env, used, 1).value)
  {
    hide Body;
    var charged := Charge(env, used, 1).value;
    assert Evaluate(env, room, active, target, used)
        == Chain(env, room - 1, active, target.at, target.doc, target.id, charged);
  }

  // ---- What the rules always judge ----

  // A founded schema leads to founded schemas only, and on the same node only
  // to ones of smaller rank.
  ghost predicate Founded(table: Table, founded: Ids, rank: nat -> nat, bound: nat) {
    forall i: nat :: founded(i) ==>
      && rank(i) <= bound
      && (table(i).Object? ==>
           var kw := table(i).kw;
           && (kw.ref.To? ==> founded(kw.ref.target) && rank(kw.ref.target) < rank(i))
           && (forall j: nat :: InPlace(kw, j) ==> founded(j) && rank(j) < rank(i))
           && (forall j: nat :: OnChild(kw, j) ==> founded(j)))
  }

  ghost predicate AllSettled(table: Table, k: nat, doc: Doc, founded: Ids) {
    forall id: nat :: founded(id) ==> Settled(table, k, doc, id)
  }

  // The rules judge every instance by every founded schema.
  lemma {:induction false} FoundedSettles(table: Table, founded: Ids, rank: nat -> nat, bound: nat, doc: Doc)
    returns (k: nat)
    requires Founded(table, founded, rank, bound)
    ensures AllSettled(table, k, doc, founded)
    decreases doc, 1, 0
  {
    hide Settled;
    var under := ChildrenSettle(table, founded, rank, bound, doc, ChildCount(doc));
    k := under + bound + 1;
    forall id: nat | founded(id) ensures Settled(table, k, doc, id) {
      RankSettles(table, founded, rank, bound, doc, under, id);
      DeeperAgrees(table, under + rank(id) + 1, k, doc, id);
    }
  }

  lemma {:induction false} ChildrenSettle(table: Table, founded: Ids, rank: nat -> nat, bound: nat, doc: Doc, n: nat)
    returns (k: nat)
    requires Founded(table, founded, rank, bound) && n <= ChildCount(doc)
    ensures forall i: nat :: i < n ==> AllSettled(table, k, ChildOf(doc, i), founded)
    decreases doc, 0, n
  {
    hide Settled, Founded;
    k := 0;
    if n > 0 {
      var before := ChildrenSettle(table, founded, rank, bound, doc, n - 1);
      var last := FoundedSettles(table, founded, rank, bound, ChildOf(doc, n - 1));
      k := before + last;
      forall i: nat, id: nat | i < n && founded(id) ensures Settled(table, k, ChildOf(doc, i), id) {
        DeeperAgrees(table, if i == n - 1 then last else before, k, ChildOf(doc, i), id);
      }
    }
  }

  lemma {:induction false} RankSettles(table: Table, founded: Ids, rank: nat -> nat, bound: nat, doc: Doc, under: nat,
                                       id: nat)
    requires Founded(table, founded, rank, bound) && founded(id)
    requires forall i: nat :: i < ChildCount(doc) ==> AllSettled(table, under, ChildOf(doc, i), founded)
    ensures Settled(table, under + rank(id) + 1, doc, id)
    decreases rank(id)
  {
    hide Consulted, InPlace, OnChild;
    if table(id).Object? {
      var kw, k := table(id).kw, under + rank(id);
      forall j: nat | InPlace(kw, j) || kw.ref == To(j) ensures Settled(table, k, doc, j) {
        RankSettles(table, founded, rank, bound, doc, under, j);
        DeeperAgrees(table, under + rank(j) + 1, k, doc, j);
      }
      forall i: nat, j: nat | i < ChildCount(doc) && OnChild(kw, j) ensures Settled(table, k, ChildOf(doc, i), j) {
        DeeperAgrees(table, under, k, ChildOf(doc, i), j);
      }
      LeadsConsults(kw, doc, JudgeAt(table, k), SettledAt(table, k));
    }
  }

  // ---- A loop that is only negated ----

  // The rules give such a loop no verdict.
  lemma {:induction false} MeetsDescends(table: Table, k: nat, n: nat, id: nat, t: nat, strictly: bool, doc: Doc)
    returns (m: nat)
    requires Settled(table, k, doc, id) && Meets(table, doc, n, id, t, strictly)
    ensures m < k && Settled(table, m, doc, t)
    decreases n
  {
    hide Settled, Follows;
    var kw := table(id).kw;
    if kw.ref == To(t) {
      SettledRef(table, k, doc, id);
      m := k - 1;
    } else if kw.ref.To? && n > 0 && Meets(table, doc, n - 1, kw.ref.target, t, strictly) {
      SettledRef(table, k, doc, id);
      m := MeetsDescends(table, k - 1, n - 1, kw.ref.target, t, strictly, doc);
    } else {
      var j: nat :| Follows(table, doc, kw, j, strictly) && Meets(table, doc, n - 1, j, t, strictly);
      SettledFollower(table, k, doc, id, j, strictly);
      m := MeetsDescends(table, k - 1, n - 1, j, t, strictly, doc);
    }
  }

  lemma SettledRef(table: Table, k: nat, doc: Doc, id: nat)
    requires table(id).Object? && table(id).kw.ref.To? && Settled(table, k, doc, id)
    ensures k > 0 && Settled(table, k - 1, doc, table(id).kw.ref.target)
  {
    var kw := table(id).kw;
    if Live(kw) {
      ConsultedRef(kw, doc, JudgeAt(table, k - 1), table, k - 1);
    }
    hide Consulted;
  }

  lemma SettledFollower(table: Table, k: nat, doc: Doc, id: nat, j: nat, strictly: bool)
    requires table(id).Object? && Live(table(id).kw) && !table(id).kw.ref.Unresolved? && Settled(table, k, doc, id)
    requires Follows(table, doc, table(id).kw, j, strictly)
    ensures k > 0 && Settled(table, k - 1, doc, j)
  {
    hide OnItems, OnMembers, OnContains, OnUnevaluated, Evaluated;
    var kw, s := table(id).kw, SettledAt(table, k - 1);
    assert Consulted(kw, doc, JudgeAt(table, k - 1), s);
    if Selects(table, doc, kw, j) {
      SettledBranch(table, k - 1, doc, kw, j);
    } else if j in kw.allOf {
      var i :| 0 <= i < |kw.allOf| && kw.allOf[i] == j;
    } else if j in Alternatives(kw.anyOf) {
      var i :| 0 <= i < |Alternatives(kw.anyOf)| && Alternatives(kw.anyOf)[i] == j;
    } else if j in Alternatives(kw.oneOf) {
      var i :| 0 <= i < |Alternatives(kw.oneOf)| && Alternatives(kw.oneOf)[i] == j;
    }
  }

  lemma SettledBranch(table: Table, k: nat, doc: Doc, kw: Keywords, j: nat)
    requires ConditionConsulted(kw, doc, JudgeAt(table, k), SettledAt(table, k)) && Selects(table, doc, kw, j)
    ensures Settled(table, k, doc, j)
  {
    var c, s, judge := kw.condition.value, SettledAt(table, k), JudgeAt(table, k);
    assert s(doc, c) && Settled(table, k, doc, c) && judge(doc, c) == Meaning(table, k, doc, c);
    var m: nat :| Settled(table, m, doc, c) && Branch(kw, Meaning(table, m, doc, c).valid) == Some(j);
    hide Settled, Meaning;
    if k <= m { DeeperAgrees(table, k, m, doc, c); } else { DeeperAgrees(table, m, k, doc, c); }
    assert s(doc, j);
  }

  lemma {:induction false} LoopUnsettled(table: Table, k: nat, n: nat, t: nat, strictly: bool, doc: Doc)
    requires Meets(table, doc, n, t, t, strictly)
    ensures !Settled(table, k, doc, t)
    decreases k
  {
    hide Settled, Meets;
    if Settled(table, k, doc, t) {
      var m := MeetsDescends(table, k, n, t, t, strictly, doc);
      LoopUnsettled(table, m, n, t, strictly, doc);
    }
  }

  // A reference into a loop: the run cannot finish without cycle and failure.
  lemma {:induction false} EntersLoop(env: Env, room: nat, active: seq<Active>, target: Target, used: Used, n: nat,
                                      strictly: bool)
    requires env.table(target.id).Object? && env.table(target.id).kw.ref.To?
    requires Meets(env.table, target.doc, n, env.table(target.id).kw.ref.target, env.table(target.id).kw.ref.target,
                   strictly)
    ensures Looped(Evaluate(env, room, active, target, used), strictly)
  {
    hide Rest, EachOf, Meets, Faithful;
    var kw := env.table(target.id).kw;
    if room > 0 && Charge(env, used, 1).Some? {
      var charged := Charge(env, used, 1).value;
      var resolved := Resolve(env, active, target.at, kw.ref, charged);
      if resolved.Enter? {
        if kw.siblings {
          var start := Done(resolved.used, true, NO_NOTES, false);
          var ev := Evaluator(env, room - 1, resolved.active);
          SubLoops(env, room - 1, resolved.active, target.at, target.doc, kw.ref.target, kw.ref.target, n, strictly);
          HereLoops(env, ev, target.at, target.doc, kw.ref.target, start, strictly);
          var acc := EachOf(env, ev, [Here(target.at, target.doc, kw.ref.target)], start);
          EvaluatorFaithful(env, room - 1, resolved.active);
          RestLoops(env, ev, room - 1, kw, target.at, target.doc, acc, 0, strictly);
        } else if room > 1 && Charge(env, resolved.used, 1).Some? {
          var again := Charge(env, resolved.used, 1).value;
          ChainLoops(env, room - 2, resolved.active, target.at, target.doc, resolved.target, again, kw.ref.target, n,
                     strictly);
        }
      }
      if kw.siblings {
        EvaluatesBody(env, room, active, target, used);
      } else {
        assert Evaluate(env, room, active, target, used)
            == Chain(env, room - 1, active, target.at, target.doc, target.id, charged);
      }
    }
  }

  // Whatever the loop: a schema that does nothing but negate a reference into it
  // accepts every instance on which its run finishes, and the rules judge none.
  lemma NegatedLoopAccepts(env: Env, doc: Doc, id: nat, j: nat, n: nat)
    requires env.table(id).Object? && env.table(j).Object? && env.table(j).kw.ref.To?
    requires var kw := env.table(id).kw; kw == BLANK.(siblings := kw.siblings, negated := Some(j))
    requires Meets(env.table, doc, n, env.table(j).kw.ref.target, env.table(j).kw.ref.target, true)
    ensures !EverSettled(env.table, doc, id)
    ensures var r := Validate(env, doc, id); r.Done? ==> r.valid && r.cycle
  {
    hide Meets;
    var t := env.table(j).kw.ref.target;
    forall k: nat ensures !Settled(env.table, k, doc, id) {
      NegationUnsettled(env.table, k, doc, id, j, n);
    }
    hide Settled, Rest;
    var kw, room, target := env.table(id).kw, env.limits.depth, Target([], doc, id);
    if room > 0 && Charge(env, Used(0, 0), 1).Some? {
      var charged := Charge(env, Used(0, 0), 1).value;
      var ev, start := Evaluator(env, room - 1, []), Done(charged, true, NO_NOTES, false);
      NegatedRun(env, ev, kw, [], doc, start);
      EntersLoop(env, room - 1, [], Target([], doc, j), charged, n, true);
      NegatedOnly(env, ev, kw, [], doc, start, j);
      EvaluatesBody(env, room, [], target, Used(0, 0));
    }
  }

  lemma NegatedOnly(env: Env, ev: Eval, kw: Keywords, at: Path, doc: Doc, acc: Run, j: nat)
    requires kw.negated == Some(j) && Passed(acc) && Charge(env, acc.used, 0).Some?
    requires Looped(ev(Target(at, doc, j), acc.used), true)
    ensures var r := NotKeyword(env, ev, kw, at, doc, acc); r.Done? ==> r.valid && r.cycle
  {
    ProbeSingle(env, ev, Target(at, doc, j), 0, acc.used);
  }

  lemma NegationUnsettled(table: Table, k: nat, doc: Doc, id: nat, j: nat, n: nat)
    requires table(id).Object? && table(j).Object? && table(j).kw.ref.To?
    requires table(id).kw.ref.NoRef? && table(id).kw.negated == Some(j)
    requires Meets(table, doc, n, table(j).kw.ref.target, table(j).kw.ref.target, true)
    ensures !Settled(table, k, doc, id)
  {
    hide Meets, Settled;
    if Settled(table, k, doc, id) {
      SettledFollower(table, k, doc, id, j, false);
      SettledRef(table, k - 1, doc, j);
      LoopUnsettled(table, k - 2, n, table(j).kw.ref.target, true, doc);
    }
  }
}
