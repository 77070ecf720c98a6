// What a reported reference cycle means.

module SchemaCycles {
  import opened JsonValue
  import opened Printer
  import opened SchemaRules
  import opened SchemaRun
  import opened SchemaSoundness

  // ---- Where a schema object's keywords lead ----

  // The subschemas evaluated on the same instance node, apart from a $ref.
  predicate InPlace(kw: Keywords, id: nat) {
    || id in kw.allOf || id in Alternatives(kw.anyOf) || id in Alternatives(kw.oneOf)
    || kw.condition == Some(id) || kw.thenSchema == Some(id) || kw.elseSchema == Some(id) || kw.negated == Some(id)
  }

  // The rules reach a verdict.
  ghost predicate EverSettled(table: Table, doc: Doc, id: nat) {
    exists k: nat :: Settled(table, k, doc, id)
  }

  // The branch of a conditional that this instance takes.
  ghost predicate Selects(table: Table, doc: Doc, kw: Keywords, id: nat) {
    kw.condition.Some?
    && exists k: nat ::
         Settled(table, k, doc, kw.condition.value)
         && Branch(kw, Meaning(table, k, doc, kw.condition.value).valid) == Some(id)
  }

  // The subschemas evaluated on this very instance, apart from a $ref.
  ghost predicate InPlaceOn(table: Table, doc: Doc, kw: Keywords, id: nat) {
    || id in kw.allOf || id in Alternatives(kw.anyOf) || id in Alternatives(kw.oneOf)
    || kw.condition == Some(id) || kw.negated == Some(id) || Selects(table, doc, kw, id)
  }

  // Keywords beside a $ref are evaluated only where the dialect says so.
  predicate Live(kw: Keywords) {
    kw.siblings || kw.ref.NoRef?
  }

  // A place the keywords of the node at can lead to.
  predicate Near(t: Target, at: Path, doc: Doc, kw: Keywords) {
    (t.at == at && t.doc == doc && InPlace(kw, t.id)) || |t.at| == |at| + 1
  }

  predicate Calm(run: Run) {
    run.Done? ==> !run.cycle
  }

  // From places near this node on which s holds, ev meets no cycle.
  ghost predicate Gentle(ev: Eval, kw: Keywords, at: Path, doc: Doc, s: Claim) {
    forall t: Target, u: Used :: Near(t, at, doc, kw) && s(t.doc, t.id) ==> Calm(ev(t, u))
  }

  ghost predicate TasksNear(tasks: seq<Task>, n: nat, kw: Keywords, at: Path, doc: Doc)
    requires n <= |tasks|
  {
    forall i :: 0 <= i < n && tasks[i].Apply? ==> Near(tasks[i].target, at, doc, kw)
  }

  lemma {:induction false} EachCalm(env: Env, ev: Eval, s: Claim, kw: Keywords, at: Path, doc: Doc,
                                    tasks: seq<Task>, n: nat, acc: Run)
    requires n <= |tasks| && Gentle(ev, kw, at, doc, s) && TasksNear(tasks, n, kw, at, doc) && TasksKnown(tasks, n, s)
    requires Calm(acc)
    ensures Calm(Each(env, ev, tasks, n, acc))
  {
    if n > 0 {
      EachCalm(env, ev, s, kw, at, doc, tasks, n - 1, acc);
    }
  }

  lemma {:induction false} ProbeCalm(env: Env, ev: Eval, s: Claim, kw: Keywords, at: Path, doc: Doc,
                                     targets: seq<Target>, cost: nat, n: nat, used: Used)
    requires n <= |targets| && Gentle(ev, kw, at, doc, s)
    requires forall i :: 0 <= i < n ==> Near(targets[i], at, doc, kw) && s(targets[i].doc, targets[i].id)
    ensures var r := Probe(env, ev, targets, cost, n, used); r.Probed? ==> !r.cycle
  {
    if n > 0 {
      ProbeCalm(env, ev, s, kw, at, doc, targets, cost, n - 1, used);
    }
  }

  lemma ArrayCalm(env: Env, ev: Eval, s: Claim, kw: Keywords, at: Path, doc: Doc, acc: Run)
    requires Gentle(ev, kw, at, doc, s) && OnItems(kw, doc, s) && OnContains(kw, doc, s) && Calm(acc)
    ensures Calm(ArrayKeywords(env, ev, kw, at, doc, acc))
  {
    if doc.List? {
      var prefix, items := PrefixTasks(kw, at, doc), ItemTasks(kw, at, doc);
      ItemTaskAt(kw, at, doc);
      ItemClaims(kw, at, doc, s);
      EachCalm(env, ev, s, kw, at, doc, prefix, |prefix|, acc);
      var middle := EachOf(env, ev, prefix, acc);
      EachCalm(env, ev, s, kw, at, doc, items, |items|, middle);
      var last := EachOf(env, ev, items, middle);
      if kw.contains.Some? && last.Done? {
        var targets := ContainsTargets(kw, at, doc);
        assert forall i :: 0 <= i < |targets| ==> targets[i] == AtElement(at, doc, i, kw.contains.value);
        ProbeCalm(env, ev, s, kw, at, doc, targets, 1, |targets|, last.used);
      }
    }
  }

  lemma MembersNear(table: Table, kw: Keywords, at: Path, doc: Doc)
    ensures var props := PropertyTasks(kw, at, doc); TasksNear(props, |props|, kw, at, doc)
    ensures var rest := AdditionalTasks(table, kw, at, doc); TasksNear(rest, |rest|, kw, at, doc)
  {
    hide IndexOf, Declared;
  }

  lemma ObjectCalm(env: Env, ev: Eval, j: Judge, s: Claim, kw: Keywords, at: Path, doc: Doc, acc: Run)
    requires Gentle(ev, kw, at, doc, s) && PlainBooleans(env.table, j, s) && OnMembers(kw, doc, s) && Calm(acc)
    ensures Calm(ObjectKeywords(env, ev, kw, at, doc, acc))
  {
    hide OnProperties, OnAdditional, TasksKnown, TasksNear, PropertyTasks, AdditionalTasks, Gentle, PlainBooleans;
    hide MemberNotes, TasksHold, TasksNotes;
    var props, rest := PropertyTasks(kw, at, doc), AdditionalTasks(env.table, kw, at, doc);
    PropertyTasksMean(kw, at, doc, j, s);
    AdditionalTasksMean(env, kw, at, doc, j, s);
    MembersNear(env.table, kw, at, doc);
    EachCalm(env, ev, s, kw, at, doc, props, |props|, acc);
    EachCalm(env, ev, s, kw, at, doc, rest, |rest|, EachOf(env, ev, props, acc));
  }

  lemma ConditionalCalm(env: Env, ev: Eval, j: Judge, f: Claim, s: Claim, kw: Keywords, at: Path, doc: Doc,
                        acc: Run)
    requires Faithful(ev, j, f) && Gentle(ev, kw, at, doc, s) && ConditionConsulted(kw, doc, j, s) && Calm(acc)
    ensures Calm(ConditionalKeyword(env, ev, kw, at, doc, acc))
  {
    if kw.condition.Some? && acc.Done? {
      var targets := [Target(at, doc, kw.condition.value)];
      ProbeCalm(env, ev, s, kw, at, doc, targets, 0, 1, acc.used);
      var probes := ProbeAll(env, ev, targets, 0, acc.used);
      if probes.Probed? {
        ProbeSound(env, ev, j, f, targets, 0, 1, acc.used);
        assert probes.verdicts[0] == j(targets[0].doc, targets[0].id);
        var next := Resume(acc, probes, true, Collected(probes.verdicts[0]));
        var branch := Branch(kw, probes.verdicts[0].valid);
        if branch.Some? {
          var here := [Here(at, doc, branch.value)];
          EachCalm(env, ev, s, kw, at, doc, here, 1, next);
        }
      }
    }
  }

  lemma BranchesCalm(env: Env, ev: Eval, s: Claim, kw: Keywords, ids: seq<nat>, cost: nat, at: Path, doc: Doc,
                     used: Used)
    requires Gentle(ev, kw, at, doc, s) && OnAll(ids, doc, s) && forall id :: id in ids ==> InPlace(kw, id)
    ensures var r := ProbeAll(env, ev, Branches(ids, at, doc), cost, used); r.Probed? ==> !r.cycle
  {
    var targets := Branches(ids, at, doc);
    assert forall i :: 0 <= i < |ids| ==> s(doc, ids[i]) && InPlace(kw, ids[i]);
    ProbeCalm(env, ev, s, kw, at, doc, targets, cost, |targets|, used);
  }

  lemma AllCalm(env: Env, ev: Eval, s: Claim, kw: Keywords, at: Path, doc: Doc, acc: Run)
    requires Gentle(ev, kw, at, doc, s) && Calm(acc) && OnAll(kw.allOf, doc, s)
    ensures Calm(EachOf(env, ev, AllOfTasks(kw, at, doc), acc))
  {
    var tasks := AllOfTasks(kw, at, doc);
    assert TasksKnown(tasks, |tasks|, s) by {
      assert forall i :: 0 <= i < |kw.allOf| ==> s(doc, kw.allOf[i]);
    }
    EachCalm(env, ev, s, kw, at, doc, tasks, |tasks|, acc);
  }

  lemma AnyCalm(env: Env, ev: Eval, s: Claim, kw: Keywords, at: Path, doc: Doc, acc: Run)
    requires Gentle(ev, kw, at, doc, s) && Calm(acc) && OnAll(Alternatives(kw.anyOf), doc, s)
    ensures Calm(AnyOfKeyword(env, ev, kw, at, doc, acc))
  {
    hide Gentle, OnAll, ProbeAll, Hits, HitNotes;
    if acc.Done? && kw.anyOf.Some? {
      BranchesCalm(env, ev, s, kw, kw.anyOf.value, 1, at, doc, acc.used);
    }
  }

  lemma OneCalm(env: Env, ev: Eval, s: Claim, kw: Keywords, at: Path, doc: Doc, acc: Run)
    requires Gentle(ev, kw, at, doc, s) && Calm(acc) && OnAll(Alternatives(kw.oneOf), doc, s)
    ensures Calm(OneOfKeyword(env, ev, kw, at, doc, acc))
  {
    hide Gentle, OnAll, ProbeAll, HitCount, OnlyNotes;
    if acc.Done? && kw.oneOf.Some? {
      BranchesCalm(env, ev, s, kw, kw.oneOf.value, 1, at, doc, acc.used);
    }
  }

  lemma NotCalm(env: Env, ev: Eval, s: Claim, kw: Keywords, at: Path, doc: Doc, acc: Run)
    requires Gentle(ev, kw, at, doc, s) && Calm(acc) && (kw.negated.Some? ==> s(doc, kw.negated.value))
    ensures Calm(NotKeyword(env, ev, kw, at, doc, acc))
  {
    if acc.Done? && kw.negated.Some? {
      ProbeCalm(env, ev, s, kw, at, doc, [Target(at, doc, kw.negated.value)], 0, 1, acc.used);
    }
  }

  lemma LogicCalm(env: Env, ev: Eval, s: Claim, kw: Keywords, at: Path, doc: Doc, acc: Run)
    requires Gentle(ev, kw, at, doc, s) && Calm(acc) && OnAll(kw.allOf, doc, s)
    requires OnAll(Alternatives(kw.anyOf), doc, s) && OnAll(Alternatives(kw.oneOf), doc, s)
    requires kw.negated.Some? ==> s(doc, kw.negated.value)
    ensures Calm(LogicKeywords(env, ev, kw, at, doc, acc))
  {
    hide Gentle, OnAll, EachOf, AnyOfKeyword, OneOfKeyword, NotKeyword;
    var all := EachOf(env, ev, AllOfTasks(kw, at, doc), acc);
    AllCalm(env, ev, s, kw, at, doc, acc);
    var any := AnyOfKeyword(env, ev, kw, at, doc, all);
    AnyCalm(env, ev, s, kw, at, doc, all);
    var one := OneOfKeyword(env, ev, kw, at, doc, any);
    OneCalm(env, ev, s, kw, at, doc, any);
    NotCalm(env, ev, s, kw, at, doc, one);
  }

  lemma UnevaluatedCalm(env: Env, ev: Eval, j: Judge, s: Claim, kw: Keywords, at: Path, doc: Doc, acc: Run)
    requires Gentle(ev, kw, at, doc, s) && PlainBooleans(env.table, j, s) && Calm(acc)
    requires acc.Done? ==> OnUnevaluated(kw, doc, acc.notes, s)
    ensures Calm(UnevaluatedKeywords(env, ev, kw, at, doc, acc))
  {
    hide Gentle, PlainBooleans, Each, UnevaluatedPropertyTasks, UnevaluatedItemTasks, TasksHold, TasksKnown;
    hide TasksNotes, OnUnevaluated, TasksNear;
    var props := UnevaluatedPropertyTasks(env.table, kw, at, doc, NotesOf(acc));
    var middle := EachOf(env, ev, props, acc);
    var items := UnevaluatedItemTasks(env.table, kw, at, doc, NotesOf(middle));
    if acc.Aborted? {
      AbortedStays(env, ev, props);
      AbortedStays(env, ev, items);
    } else {
      LeftoverNear(env.table, kw, at, doc, NotesOf(acc));
      LeftoverNear(env.table, kw, at, doc, NotesOf(middle));
      LeftoverMembers(env.table, kw, at, doc, acc.notes, j, s);
      LeftoverItems(env.table, kw, at, doc, NotesOf(middle), j, s);
      LeftoverNone(env, ev, kw, at, doc, acc, s);
      EachCalm(env, ev, s, kw, at, doc, props, |props|, acc);
      EachCalm(env, ev, s, kw, at, doc, items, |items|, middle);
    }
  }

  lemma {:induction false} EachAborted(env: Env, ev: Eval, tasks: seq<Task>, n: nat)
    requires n <= |tasks|
    ensures Each(env, ev, tasks, n, Aborted) == Aborted
  {
    if n > 0 {
      EachAborted(env, ev, tasks, n - 1);
    }
  }

  lemma AbortedStays(env: Env, ev: Eval, tasks: seq<Task>)
    ensures EachOf(env, ev, tasks, Aborted) == Aborted
  {
    EachAborted(env, ev, tasks, |tasks|);
  }

  lemma LeftoverNear(table: Table, kw: Keywords, at: Path, doc: Doc, seen: Notes)
    ensures var props := UnevaluatedPropertyTasks(table, kw, at, doc, seen); TasksNear(props, |props|, kw, at, doc)
    ensures var items := UnevaluatedItemTasks(table, kw, at, doc, seen); TasksNear(items, |items|, kw, at, doc)
  {
  }

  // One of the two unevaluated loops has nothing to do.
  lemma LeftoverNone(env: Env, ev: Eval, kw: Keywords, at: Path, doc: Doc, acc: Run, s: Claim)
    ensures !doc.Dict? ==>
      var props := UnevaluatedPropertyTasks(env.table, kw, at, doc, NotesOf(acc));
      TasksKnown(props, |props|, s) && EachOf(env, ev, props, acc) == acc
    ensures forall seen: Notes :: !doc.List? ==>
      var items := UnevaluatedItemTasks(env.table, kw, at, doc, seen); TasksKnown(items, |items|, s)
  {
  }

  lemma {:induction false} AssertionsCalm(env: Env, rules: seq<Assertion>, n: nat, doc: Doc, acc: Run)
    requires n <= |rules| && Calm(acc)
    ensures Calm(SchemaRun.Assertions(env, rules, n, doc, acc))
  {
    if n > 0 {
      AssertionsCalm(env, rules, n - 1, doc, acc);
    }
  }

  // Consulted, apart from the target of a $ref.
  ghost predicate Needed(kw: Keywords, doc: Doc, j: Judge, s: Claim) {
    && OnItems(kw, doc, s)
    && OnContains(kw, doc, s)
    && OnMembers(kw, doc, s)
    && ConditionConsulted(kw, doc, j, s)
    && OnAll(kw.allOf, doc, s)
    && OnAll(Alternatives(kw.anyOf), doc, s)
    && OnAll(Alternatives(kw.oneOf), doc, s)
    && (kw.negated.Some? ==> s(doc, kw.negated.value))
    && OnUnevaluated(kw, doc, Evaluated(kw, doc, j), s)
  }

  lemma RestCalm(env: Env, ev: Eval, j: Judge, f: Claim, s: Claim, kw: Keywords, at: Path, doc: Doc, acc: Run)
    requires Faithful(ev, j, f) && PlainBooleans(env.table, j, f)
    requires Gentle(ev, kw, at, doc, s) && PlainBooleans(env.table, j, s)
    requires Needed(kw, doc, j, s) && Calm(acc) && (acc.Done? ==> acc.notes == RefNotes(kw, doc, j))
    ensures Calm(Rest(env, ev, kw, at, doc, acc))
  {
    hide Faithful, Gentle, PlainBooleans, SchemaRun.Assertions, ArrayKeywords, ObjectKeywords, ConditionalKeyword;
    hide LogicKeywords, UnevaluatedKeywords, OnItems, OnContains, OnMembers, OnAll, ConditionConsulted, OnUnevaluated;
    hide Evaluated, EvaluatedHold, RefNotes;
    var asserted := SchemaRun.Assertions(env, kw.assertions, |kw.assertions|, doc, acc);
    AssertionsCalm(env, kw.assertions, |kw.assertions|, doc, acc);
    var elements := ArrayKeywords(env, ev, kw, at, doc, asserted);
    ArrayCalm(env, ev, s, kw, at, doc, asserted);
    var members := ObjectKeywords(env, ev, kw, at, doc, elements);
    ObjectCalm(env, ev, j, s, kw, at, doc, elements);
    var conditional := ConditionalKeyword(env, ev, kw, at, doc, members);
    ConditionalCalm(env, ev, j, f, s, kw, at, doc, members);
    LogicCalm(env, ev, s, kw, at, doc, conditional);
    var applied := Applied(env, ev, kw, at, doc, acc);
    if applied.Done? {
      AppliedSound(env, ev, j, f, kw, at, doc, acc);
    }
    UnevaluatedCalm(env, ev, j, s, kw, at, doc, applied);
  }

  // ---- Which references a schema can meet on the same node ----

  // may(d, i, t): evaluating i on d can follow a reference to t without leaving
  // the node.
  type Reach = (Doc, nat, nat) -> bool

  ghost predicate Inherits(may: Reach, doc: Doc, from: nat, to: nat) {
    forall t: nat :: may(doc, from, t) ==> may(doc, to, t)
  }

  // may misses no reference that a schema meets on a node it judges.
  ghost predicate Covers(table: Table, may: Reach) {
    forall d: Doc, i: nat :: table(i).Object? && EverSettled(table, d, i) ==>
      var kw := table(i).kw;
      && (kw.ref.To? ==> may(d, i, kw.ref.target) && Inherits(may, d, kw.ref.target, i))
      && (Live(kw) && !kw.ref.Unresolved? ==>
           forall j: nat :: InPlaceOn(table, d, kw, j) ==> Inherits(may, d, j, i))
  }

  // No keyword beside a $ref meets the target of that $ref again on the same
  // node, on any instance that the rules judge.
  ghost predicate RefsApart(table: Table, may: Reach) {
    && Covers(table, may)
    && forall d: Doc, i: nat ::
         table(i).Object? && EverSettled(table, d, i) && table(i).kw.siblings && table(i).kw.ref.To? ==>
           forall j: nat :: InPlaceOn(table, d, table(i).kw, j) ==> !may(d, j, table(i).kw.ref.target)
  }

  // A dialect in which a $ref hides its siblings needs no check, nor does a
  // schema whose references have no siblings that stay on the node.
  lemma SimplyApart(table: Table)
    requires forall i: nat :: table(i).Object? && table(i).kw.siblings && table(i).kw.ref.To? ==>
      forall j: nat :: !InPlace(table(i).kw, j)
    ensures RefsApart(table, (d, i, t) => true)
  {
    forall d: Doc, i: nat, j: nat | table(i).Object? && InPlaceOn(table, d, table(i).kw, j)
      ensures InPlace(table(i).kw, j)
    {
    }
  }

  // ---- A settled schema meets no cycle ----

  // Every active reference sits above this node; or on it with a target that
  // depth k does not settle, or that the schema id does not meet again.
  ghost predicate Pending(table: Table, may: Reach, active: seq<Active>, at: Path, doc: Doc, id: nat, k: nat) {
    forall i :: 0 <= i < |active| ==>
      || |active[i].at| < |at|
      || (active[i].at == at && (!Settled(table, k, doc, active[i].target) || !may(doc, id, active[i].target)))
  }

  ghost predicate Open(table: Table, may: Reach, active: seq<Active>, at: Path, doc: Doc, id: nat, k: nat) {
    k > 0 ==> Pending(table, may, active, at, doc, id, k - 1)
  }

  // Fewer levels settle less, a subschema meets no more than its schema, and a
  // child node is above no reference.
  lemma OpenNear(table: Table, may: Reach, active: seq<Active>, at: Path, doc: Doc, id: nat, k: nat, t: Target)
    requires k > 0 && Open(table, may, active, at, doc, id, k)
    requires |t.at| == |at| + 1 || (t.at == at && t.doc == doc && Inherits(may, doc, t.id, id))
    ensures Open(table, may, active, t.at, t.doc, t.id, k - 1)
  {
    if k > 1 {
      forall i | 0 <= i < |active|
        ensures
          || |active[i].at| < |t.at|
          || (active[i].at == t.at
              && (!Settled(table, k - 2, t.doc, active[i].target) || !may(t.doc, t.id, active[i].target)))
      {
        if active[i].at == at && Settled(table, k - 2, doc, active[i].target) {
          DeeperAgrees(table, k - 2, k - 1, doc, active[i].target);
        }
      }
    }
  }

  // A finished reference that the subschema does not meet again may stay.
  lemma OpenPast(table: Table, may: Reach, active: seq<Active>, entry: Active, at: Path, doc: Doc, id: nat, k: nat)
    requires Open(table, may, active, at, doc, id, k)
    requires |entry.at| < |at| || (entry.at == at && !may(doc, id, entry.target))
    ensures Open(table, may, active + [entry], at, doc, id, k)
  {
  }

  // The least depth that settles a schema.
  ghost function Least(table: Table, k: nat, doc: Doc, id: nat): (m: nat)
    requires Settled(table, k, doc, id)
    ensures m <= k && Settled(table, m, doc, id) && (m > 0 ==> !Settled(table, m - 1, doc, id))
  {
    if k > 0 && Settled(table, k - 1, doc, id) then Least(table, k - 1, doc, id) else k
  }

  // Following a reference to a target whose least depth is m.
  lemma OpenEntered(table: Table, may: Reach, active: seq<Active>, at: Path, doc: Doc, id: nat, k: nat, m: nat,
                    target: nat)
    requires k > 0 && Open(table, may, active, at, doc, id, k) && m < k && Inherits(may, doc, target, id)
    requires m > 0 ==> !Settled(table, m - 1, doc, target)
    ensures Open(table, may, active + [Active(at, target)], at, doc, target, m)
  {
    if m > 0 {
      var deeper := active + [Active(at, target)];
      forall i | 0 <= i < |deeper|
        ensures
          || |deeper[i].at| < |at|
          || (deeper[i].at == at
              && (!Settled(table, m - 1, doc, deeper[i].target) || !may(doc, target, deeper[i].target)))
      {
        if i < |active| && deeper[i].at == at && Settled(table, m - 1, doc, active[i].target) {
          DeeperAgrees(table, m - 1, k - 1, doc, active[i].target);
        }
      }
    }
  }

  // A settled target that the schema meets is not on the stack.
  lemma NotActive(table: Table, may: Reach, active: seq<Active>, at: Path, doc: Doc, id: nat, k: nat, target: nat)
    requires k > 0 && Open(table, may, active, at, doc, id, k) && Settled(table, k - 1, doc, target)
      && may(doc, id, target)
    ensures Active(at, target) !in active
  {
  }

  // An evaluator is also faithful to any greater depth.
  lemma FaithfulDeeper(env: Env, room: nat, active: seq<Active>, k: nat)
    requires room <= k
    ensures Faithful(Evaluator(env, room, active), JudgeAt(env.table, k), SettledAt(env.table, k))
  {
    var ev := Evaluator(env, room, active);
    EvaluatorFaithful(env, room, active);
    forall t: Target, u: Used | Clean(ev(t, u))
      ensures Right(ev(t, u), t, JudgeAt(env.table, k), SettledAt(env.table, k))
    {
      assert Right(ev(t, u), t, JudgeAt(env.table, room), SettledAt(env.table, room));
      DeeperAgrees(env.table, room, k, t.doc, t.id);
    }
  }

  lemma AgreeDeeper(table: Table, k: nat, more: nat)
    requires k <= more
    ensures AgreeOn(JudgeAt(table, k), JudgeAt(table, more), SettledAt(table, k))
    ensures PlainBooleans(table, JudgeAt(table, more), SettledAt(table, k))
  {
    forall d: Doc, i: nat | Settled(table, k, d, i)
      ensures Meaning(table, k, d, i) == Meaning(table, more, d, i)
    {
      DeeperAgrees(table, k, more, d, i);
    }
  }

  lemma RefNotesNone(kw: Keywords, doc: Doc, j: Judge)
    ensures kw.ref.NoRef? ==> RefNotes(kw, doc, j) == NO_NOTES
  {
  }

  // What depth k settles; on doc itself only what doc is really held against.
  ghost function HeldAt(table: Table, k: nat, doc: Doc, kw: Keywords): Claim {
    (d: Doc, i: nat) => Settled(table, k, d, i) && (d == doc && table(i).Object? ==> InPlaceOn(table, doc, kw, i))
  }

  lemma SmallerItem(doc: Doc, i: nat)
    ensures doc.List? && i < |doc.items| ==> doc.items[i] != doc
    ensures doc.Dict? && i < |doc.fields| ==> doc.fields[i].value != doc
  {
    if doc.List? && i < |doc.items| { assert doc.items[i] < doc; }
    if doc.Dict? && i < |doc.fields| { assert doc.fields[i].value < doc; }
  }

  lemma HeldChildren(table: Table, k: nat, doc: Doc, kw: Keywords, seen: Notes)
    requires var s := SettledAt(table, k);
             OnItems(kw, doc, s) && OnContains(kw, doc, s) && OnMembers(kw, doc, s) && OnUnevaluated(kw, doc, seen, s)
    ensures var s := HeldAt(table, k, doc, kw);
            OnItems(kw, doc, s) && OnContains(kw, doc, s) && OnMembers(kw, doc, s) && OnUnevaluated(kw, doc, seen, s)
  {
    hide Settled, InPlaceOn, IndexOf, Declared;
    forall i: nat ensures doc.List? && i < |doc.items| ==> doc.items[i] != doc { SmallerItem(doc, i); }
    forall i: nat ensures doc.Dict? && i < |doc.fields| ==> doc.fields[i].value != doc { SmallerItem(doc, i); }
  }

  lemma HeldHere(table: Table, k: nat, doc: Doc, kw: Keywords, ids: seq<nat>)
    requires OnAll(ids, doc, SettledAt(table, k)) && forall id :: id in ids ==> InPlaceOn(table, doc, kw, id)
    ensures OnAll(ids, doc, HeldAt(table, k, doc, kw))
  {
    hide Settled, InPlaceOn;
    assert forall i :: 0 <= i < |ids| ==> ids[i] in ids;
  }

  lemma HeldConditional(table: Table, k: nat, deep: nat, doc: Doc, kw: Keywords)
    requires k <= deep && ConditionConsulted(kw, doc, JudgeAt(table, deep), SettledAt(table, k))
    ensures ConditionConsulted(kw, doc, JudgeAt(table, deep), HeldAt(table, k, doc, kw))
  {
    hide Settled, Meaning;
    if kw.condition.Some? {
      assert SettledAt(table, k)(doc, kw.condition.value);
      DeeperAgrees(table, k, deep, doc, kw.condition.value);
      var j, s := JudgeAt(table, deep), SettledAt(table, k);
      assert s(doc, kw.condition.value) && Settled(table, k, doc, kw.condition.value);
      assert j(doc, kw.condition.value) == Meaning(table, deep, doc, kw.condition.value);
      var branch := Branch(kw, j(doc, kw.condition.value).valid);
      if branch.Some? {
        assert s(doc, branch.value) && Settled(table, k, doc, branch.value);
        assert Selects(table, doc, kw, branch.value);
      }
    }
  }

  lemma ConsultedHeld(table: Table, k: nat, deep: nat, doc: Doc, kw: Keywords)
    requires k <= deep && Consulted(kw, doc, JudgeAt(table, deep), SettledAt(table, k))
    ensures Needed(kw, doc, JudgeAt(table, deep), HeldAt(table, k, doc, kw))
  {
    hide OnItems, OnContains, OnMembers, OnUnevaluated, OnAll, ConditionConsulted, Evaluated, Settled, Selects;
    var j := JudgeAt(table, deep);
    assert kw.negated.Some? ==> InPlaceOn(table, doc, kw, kw.negated.value);
    HeldChildren(table, k, doc, kw, Evaluated(kw, doc, j));
    HeldConditional(table, k, deep, doc, kw);
    HeldHere(table, k, doc, kw, kw.allOf);
    HeldHere(table, k, doc, kw, Alternatives(kw.anyOf));
    HeldHere(table, k, doc, kw, Alternatives(kw.oneOf));
  }

  lemma HeldBooleans(table: Table, k: nat, deep: nat, doc: Doc, kw: Keywords)
    ensures PlainBooleans(table, JudgeAt(table, deep), HeldAt(table, k, doc, kw))
  {
    hide InPlaceOn;
  }

  lemma NoObjectCalm(env: Env, room: nat, active: seq<Active>, target: Target, used: Used)
    requires !env.table(target.id).Object?
    ensures Calm(Evaluate(env, room, active, target, used))
  {
    if room > 0 && Charge(env, used, 1).Some? {
      assert Calm(Chain(env, room - 1, active, target.at, target.doc, target.id, Charge(env, used, 1).value));
    }
  }

  // The evaluator of a schema object's keywords: whatever they lead to is open
  // one level down, also with a finished $ref on the stack.
  lemma {:induction false} KeywordsGentle(env: Env, may: Reach, room: nat, active: seq<Active>, at: Path, doc: Doc,
                                          id: nat, k: nat)
    requires RefsApart(env.table, may) && env.table(id).Object? && Live(env.table(id).kw)
    requires k > 0 && Open(env.table, may, active, at, doc, id, k) && !env.table(id).kw.ref.Unresolved?
    requires EverSettled(env.table, doc, id)
    ensures var kw := env.table(id).kw;
            Gentle(Inside(env, room, active, at, kw), kw, at, doc, HeldAt(env.table, k - 1, doc, kw))
    decreases room, 1
  {
    hide Settled, Evaluate, InPlaceOn, EverSettled, Open;
    var kw := env.table(id).kw;
    var ev := Inside(env, room, active, at, kw);
    var stack := if kw.ref.To? then active + [Active(at, kw.ref.target)] else active;
    forall t: Target, u: Used | Near(t, at, doc, kw) && HeldAt(env.table, k - 1, doc, kw)(t.doc, t.id)
      ensures Calm(ev(t, u))
    {
      if env.table(t.id).Object? {
        OpenNear(env.table, may, active, at, doc, id, k, t);
        if kw.ref.To? {
          OpenPast(env.table, may, active, Active(at, kw.ref.target), t.at, t.doc, t.id, k - 1);
        }
        EvaluateCalm(env, may, room, stack, t, u, k - 1);
      } else {
        NoObjectCalm(env, room, stack, t, u);
      }
    }
  }

  // The run of a $ref with siblings.
  lemma {:induction false} SiblingRefCalm(env: Env, may: Reach, room: nat, active: seq<Active>, at: Path, doc: Doc,
                                          id: nat, k: nat, next: Used)
    requires RefsApart(env.table, may) && env.table(id).Object? && env.table(id).kw.ref.To?
    requires k > 0 && Open(env.table, may, active, at, doc, id, k)
    requires Settled(env.table, k - 1, doc, env.table(id).kw.ref.target) && EverSettled(env.table, doc, id)
    ensures var kw := env.table(id).kw;
            Calm(EachOf(env, Inside(env, room, active, at, kw), [Here(at, doc, kw.ref.target)],
                        Done(next, true, NO_NOTES, false)))
    decreases room, 1
  {
    var kw := env.table(id).kw;
    var target, ev := kw.ref.target, Inside(env, room, active, at, kw);
    var m := Least(env.table, k - 1, doc, target);
    MeetsOwn(env.table, may, doc, id);
    OpenEntered(env.table, may, active, at, doc, id, k, m, target);
    var here := [Here(at, doc, target)];
    forall u: Used ensures Calm(ev(here[0].target, u)) {
      EvaluateCalm(env, may, room, active + [Active(at, target)], here[0].target, u, m);
    }
    var start := Done(next, true, NO_NOTES, false);
    assert Each(env, ev, here, 1, start) == Perform(env, ev, here[0], Each(env, ev, here, 0, start));
  }

  lemma {:induction false} BodyCalm(env: Env, may: Reach, room: nat, active: seq<Active>, at: Path, doc: Doc, id: nat,
                                    used: Used, k: nat)
    requires RefsApart(env.table, may) && env.table(id).Object? && Live(env.table(id).kw)
    requires k > 0 && Open(env.table, may, active, at, doc, id, k) && !env.table(id).kw.ref.Unresolved?
    requires Consulted(env.table(id).kw, doc, JudgeAt(env.table, k - 1), SettledAt(env.table, k - 1))
    requires EverSettled(env.table, doc, id)
    ensures Calm(Body(env, room, active, at, doc, env.table(id).kw, used))
    decreases room, 2
  {
    hide Rest, Faithful, Gentle, PlainBooleans, Consulted, Open, RefsApart, Settled, Meaning, AgreeOn, RefNotes, EachOf;
    hide Needed, EverSettled, Evaluator;
    var kw := env.table(id).kw;
    var ev := Inside(env, room, active, at, kw);
    var s, held := SettledAt(env.table, k - 1), HeldAt(env.table, k - 1, doc, kw);
    KeywordsGentle(env, may, room, active, at, doc, id, k);
    var deep := if room < k - 1 then k - 1 else room;
    var j, f := JudgeAt(env.table, deep), SettledAt(env.table, deep);
    FaithfulDeeper(env, room, if kw.ref.To? then active + [Active(at, kw.ref.target)] else active, deep);
    AgreeDeeper(env.table, k - 1, deep);
    AgreeDeeper(env.table, deep, deep);
    ConsultedAgree(kw, doc, JudgeAt(env.table, k - 1), j, s, s);
    ConsultedHeld(env.table, k - 1, deep, doc, kw);
    HeldBooleans(env.table, k - 1, deep, doc, kw);
    RefNotesNone(kw, doc, j);
    if kw.ref.NoRef? {
      RestCalm(env, ev, j, f, held, kw, at, doc, Done(used, true, NO_NOTES, false));
    } else {
      ConsultedRef(kw, doc, JudgeAt(env.table, k - 1), env.table, k - 1);
      var resolved := Resolve(env, active, at, kw.ref, used);
      MeetsOwn(env.table, may, doc, id);
      NotActive(env.table, may, active, at, doc, id, k, kw.ref.target);
      if resolved.Enter? {
        SiblingRefCalm(env, may, room, active, at, doc, id, k, resolved.used);
        var acc := EachOf(env, ev, [Here(at, doc, kw.ref.target)], Done(resolved.used, true, NO_NOTES, false));
        if acc.Done? {
          RefSound(env, ev, j, f, kw, at, doc, resolved.used);
        }
        RestCalm(env, ev, j, f, held, kw, at, doc, acc);
      }
    }
  }

  lemma ConsultedRef(kw: Keywords, doc: Doc, j: Judge, table: Table, k: nat)
    requires Consulted(kw, doc, j, SettledAt(table, k))
    ensures kw.ref.To? ==> Settled(table, k, doc, kw.ref.target)
  {
    hide OnItems, OnContains, OnMembers, OnAll, OnUnevaluated, ConditionConsulted;
  }

  lemma MeetsOwn(table: Table, may: Reach, doc: Doc, id: nat)
    requires RefsApart(table, may) && table(id).Object? && table(id).kw.ref.To? && EverSettled(table, doc, id)
    ensures may(doc, id, table(id).kw.ref.target) && Inherits(may, doc, table(id).kw.ref.target, id)
  {
  }

  // A settled target is not on the stack, because every active reference on
  // this node needs more depth than its own evaluation has left, or is finished
  // and not met again.
  lemma {:induction false} ChainCalm(env: Env, may: Reach, room: nat, active: seq<Active>, at: Path, doc: Doc, id: nat,
                                     used: Used, k: nat)
    requires RefsApart(env.table, may) && Settled(env.table, k, doc, id)
    requires Open(env.table, may, active, at, doc, id, k)
    ensures Calm(Chain(env, room, active, at, doc, id, used))
    decreases room, 3
  {
    hide Body, Consulted, Open;
    var schema := env.table(id);
    if schema.Object? && !schema.kw.ref.Unresolved? {
      var kw := schema.kw;
      if Live(kw) {
        BodyCalm(env, may, room, active, at, doc, id, used, k);
      } else {
        var resolved, target := Resolve(env, active, at, kw.ref, used), kw.ref.target;
        MeetsOwn(env.table, may, doc, id);
        NotActive(env.table, may, active, at, doc, id, k, target);
        var m := Least(env.table, k - 1, doc, target);
        OpenEntered(env.table, may, active, at, doc, id, k, m, target);
        if resolved.Enter? && room > 0 && Charge(env, resolved.used, 1).Some? {
          var charged := Charge(env, resolved.used, 1).value;
          ChainCalm(env, may, room - 1, resolved.active, at, doc, target, charged, m);
        }
      }
    } else if schema.Object? {
      UnresolvedCalm(env, room, active, at, doc, id, used);
    }
  }

  lemma UnresolvedCalm(env: Env, room: nat, active: seq<Active>, at: Path, doc: Doc, id: nat, used: Used)
    requires env.table(id).Object? && env.table(id).kw.ref.Unresolved?
    ensures Calm(Chain(env, room, active, at, doc, id, used))
  {
    hide Rest;
  }

  lemma {:induction false} EvaluateCalm(env: Env, may: Reach, room: nat, active: seq<Active>, target: Target,
                                        used: Used, k: nat)
    requires RefsApart(env.table, may) && Settled(env.table, k, target.doc, target.id)
    requires Open(env.table, may, active, target.at, target.doc, target.id, k)
    ensures Calm(Evaluate(env, room, active, target, used))
    decreases room, 0
  {
    hide Chain, Settled, Open;
    if room > 0 && Charge(env, used, 1).Some? {
      var charged := Charge(env, used, 1).value;
      ChainCalm(env, may, room - 1, active, target.at, target.doc, target.id, charged, k);
    }
  }

  // Where no keyword beside a $ref meets its target again, a run that finishes
  // reports a cycle exactly when the rules never reach a verdict, at any depth.
  lemma CycleMeansNoVerdict(env: Env, may: Reach, doc: Doc, id: nat)
    requires RefsApart(env.table, may) && Validate(env, doc, id).Done?
    ensures Validate(env, doc, id).cycle <==> !EverSettled(env.table, doc, id)
  {
    var target := Target([], doc, id);
    if Validate(env, doc, id).cycle {
      if EverSettled(env.table, doc, id) {
        var k: nat :| Settled(env.table, k, doc, id);
        EvaluateCalm(env, may, env.limits.depth, [], target, Used(0, 0), k);
      }
    } else {
      EvaluateSound(env, env.limits.depth, [], target, Used(0, 0));
    }
  }

  // ---- Where references have siblings, a cycle may be reported in vain ----

  const BLANK := Keywords(true, NoRef, [], [], None, None, 1, None, [], None, None, None, None, [], None, None, None,
                          None, None)

  ghost predicate OnlyRefs(kw: Keywords) {
    kw == BLANK.(ref := kw.ref, allOf := kw.allOf)
  }

  lemma PlainRun(env: Env, ev: Eval, kw: Keywords, at: Path, doc: Doc, acc: Run)
    requires OnlyRefs(kw)
    ensures Rest(env, ev, kw, at, doc, acc) == EachOf(env, ev, AllOfTasks(kw, at, doc), acc)
  {
    assert PrefixTasks(kw, at, doc) == [] && PropertyTasks(kw, at, doc) == [];
    hide PrefixTasks, PropertyTasks, AllOfTasks;
    var conditional := ConditionalKeyword(env, ev, kw, at, doc, acc);
    assert Applied(env, ev, kw, at, doc, acc) == LogicKeywords(env, ev, kw, at, doc, conditional);
  }

  lemma PlainRules(kw: Keywords, doc: Doc, j: Judge, s: Claim)
    requires OnlyRefs(kw)
    ensures Rules(kw, doc, j).valid <==>
      (kw.ref.To? ==> j(doc, kw.ref.target).valid) && OnAll(kw.allOf, doc, Accepted(j))
    ensures Consulted(kw, doc, j, s) <==> (kw.ref.To? ==> s(doc, kw.ref.target)) && OnAll(kw.allOf, doc, s)
  {
    hide Evaluated;
  }

  // Schema 0 refers to 1 and, beside that, requires 2, which refers to 1 too.
  function TwiceReferred(id: nat): Schema {
    if id == 0 then Object(BLANK.(ref := To(1), allOf := [2]))
    else if id == 2 then Object(BLANK.(ref := To(1)))
    else Inert
  }

  lemma TwiceReferredMeans(doc: Doc)
    ensures Settled(TwiceReferred, 2, doc, 0) && Meaning(TwiceReferred, 2, doc, 0).valid
  {
    hide Rules, Consulted;
    var first, second := TwiceReferred(0).kw, TwiceReferred(2).kw;
    PlainRules(second, doc, JudgeAt(TwiceReferred, 0), SettledAt(TwiceReferred, 0));
    assert Settled(TwiceReferred, 1, doc, 2) && Meaning(TwiceReferred, 1, doc, 2).valid;
    PlainRules(first, doc, JudgeAt(TwiceReferred, 1), SettledAt(TwiceReferred, 1));
  }

  // The first reference is finished but still on the stack, so the second is
  // taken for a cycle, and a valid instance is rejected.
  lemma FinishedReferenceCounts(doc: Doc, limits: Limits)
    requires limits.work >= 4 && limits.refs >= 2 && limits.depth >= 2
    ensures Settled(TwiceReferred, 2, doc, 0) && Meaning(TwiceReferred, 2, doc, 0).valid
    ensures var r := Validate(Env(TwiceReferred, limits), doc, 0); r.Done? && r.cycle && !r.valid
  {
    TwiceReferredMeans(doc);
    hide Rest, Settled, Meaning;
    var env := Env(TwiceReferred, limits);
    var first := TwiceReferred(0).kw;
    var stack, room := [Active([], 1)], limits.depth - 1;
    var ev := Evaluator(env, room, stack);
    assert Evaluate(env, room, stack, Target([], doc, 1), Used(1, 1)) == Done(Used(2, 1), true, NO_NOTES, false);
    var before, after := Done(Used(1, 1), true, NO_NOTES, false), Done(Used(2, 1), true, NO_NOTES, false);
    EachSingle(env, ev, Here([], doc, 1), before);
    assert EachOf(env, ev, [Here([], doc, 1)], before) == after;
    PlainRun(env, ev, first, [], doc, after);
    var second := Apply(Target([], doc, 2), true, NO_NOTES, true);
    assert AllOfTasks(first, [], doc) == [second];
    assert Active([], 1) in stack;
    assert Resolve(env, stack, [], To(1), Used(4, 1)) == Failed(Used(4, 2), true);
    var inner := TwiceReferred(2).kw;
    assert Body(env, room - 1, stack, [], doc, inner, Used(4, 1)) == Done(Used(4, 2), false, NO_NOTES, true);
    assert Evaluate(env, room, stack, second.target, Used(3, 1)) == Done(Used(4, 2), false, NO_NOTES, true);
    EachSingle(env, ev, second, after);
    var r := EachOf(env, ev, [second], after);
    assert [] + stack == stack;
    assert Resolve(env, [], [], To(1), Used(1, 0)) == Enter(Used(1, 1), 1, stack);
    assert Body(env, room, [], [], doc, first, Used(1, 0)) == r;
    assert Chain(env, room, [], [], doc, 0, Used(1, 0)) == r;
    assert Evaluate(env, limits.depth, [], Target([], doc, 0), Used(0, 0)) == r;
  }

  lemma EachSingle(env: Env, ev: Eval, task: Task, acc: Run)
    ensures EachOf(env, ev, [task], acc) == Perform(env, ev, task, acc)
    ensures Merge(NO_NOTES, NO_NOTES) == NO_NOTES
  {
    assert Each(env, ev, [task], 1, acc) == Perform(env, ev, task, Each(env, ev, [task], 0, acc));
  }

  // ---- A cycle met under not is not a rejection ----

  // Schema 1 refers to itself; schema 0 negates it.
  function NegatedLoop(id: nat): Schema {
    if id == 0 then Object(BLANK.(siblings := false, negated := Some(1)))
    else Object(BLANK.(siblings := false, ref := To(1)))
  }

  lemma {:induction false} LoopNeverSettles(k: nat, doc: Doc)
    ensures !Settled(NegatedLoop, k, doc, 1)
  {
    if k > 0 {
      LoopNeverSettles(k - 1, doc);
    }
  }

  lemma NegatedLoopNeverSettles(k: nat, doc: Doc)
    ensures !Settled(NegatedLoop, k, doc, 0)
  {
    if k > 0 {
      LoopNeverSettles(k - 1, doc);
    }
  }

  // The rules give no verdict at any depth, yet the run accepts: the cycle only
  // fails the negated subschema.
  lemma CycleUnderNotAccepts(doc: Doc, limits: Limits)
    requires limits.work >= 3 && limits.refs >= 2 && limits.depth >= 3
    ensures !EverSettled(NegatedLoop, doc, 0)
    ensures var r := Validate(Env(NegatedLoop, limits), doc, 0); Passed(r) && r.cycle
  {
    forall k: nat
      ensures !Settled(NegatedLoop, k, doc, 0)
    {
      NegatedLoopNeverSettles(k, doc);
    }
    hide Settled, Meaning;
    var env, room := Env(NegatedLoop, limits), limits.depth - 1;
    var kw, start := NegatedLoop(0).kw, Done(Used(1, 0), true, NO_NOTES, false);
    var ev := Evaluator(env, room, []);
    var stack := [Active([], 1)];
    assert [] + stack == stack && Active([], 1) in stack;
    assert Resolve(env, [], [], To(1), Used(2, 0)) == Enter(Used(2, 1), 1, stack);
    assert Resolve(env, stack, [], To(1), Used(3, 1)) == Failed(Used(3, 2), true);
    var looped := Done(Used(3, 2), false, NO_NOTES, true);
    assert Chain(env, room - 2, stack, [], doc, 1, Used(3, 1)) == looped;
    assert Chain(env, room - 1, [], [], doc, 1, Used(2, 0)) == looped;
    var target := Target([], doc, 1);
    assert Evaluate(env, room, [], target, Used(1, 0)) == looped;
    ProbeSingle(env, ev, target, 0, Used(1, 0));
    NegatedRun(env, ev, kw, [], doc, start);
    assert Chain(env, room, [], [], doc, 0, Used(1, 0)) == Body(env, room, [], [], doc, kw, Used(1, 0));
  }

  lemma ProbeSingle(env: Env, ev: Eval, target: Target, cost: nat, used: Used)
    ensures ProbeAll(env, ev, [target], cost, used) ==
      (match Charge(env, used, cost)
       case None => Halted
       case Some(charged) =>
         var sub := ev(target, charged);
         if sub.Aborted? then Halted else Probed(sub.used, [Verdict(sub.valid, sub.notes)], sub.cycle))
  {
    assert Probe(env, ev, [target], cost, 0, used) == Probed(used, [], false);
    assert Probe(env, ev, [target], cost, 1, used) == ProbeAll(env, ev, [target], cost, used);
  }

  lemma NegatedRun(env: Env, ev: Eval, kw: Keywords, at: Path, doc: Doc, acc: Run)
    requires kw == BLANK.(siblings := kw.siblings, negated := kw.negated)
    ensures Rest(env, ev, kw, at, doc, acc) == NotKeyword(env, ev, kw, at, doc, acc)
  {
    assert PrefixTasks(kw, at, doc) == [] && PropertyTasks(kw, at, doc) == [] && AllOfTasks(kw, at, doc) == [];
  }
}
