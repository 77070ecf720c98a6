// That evaluations end once the limits are large enough, and what follows for
// the cycle test and for what is accepted.

module SchemaEnds {
  import opened JsonValue
  import opened Printer
  import opened SchemaRules
  import opened SchemaRun
  import opened SchemaSoundness
  import opened SchemaCycles
  import opened SchemaVerdicts

  // ---- Spending at most so much ----

  predicate Spends(run: Run, used: Used, n: nat) {
    run.Done? && run.used.work <= used.work + n && run.used.refs <= used.refs + n
  }

  predicate Affords(env: Env, used: Used, n: nat) {
    used.work + n <= env.limits.work && used.refs + n <= env.limits.refs
  }

  // A place the keywords of the node at can lead to.
  ghost predicate Led(t: Target, kw: Keywords, at: Path, doc: Doc) {
    || (t.at == at && t.doc == doc && InPlace(kw, t.id))
    || (OnChild(kw, t.id) && exists i: nat :: i < ChildCount(doc) && t.doc == ChildOf(doc, i))
  }

  // Every place the keywords lead to costs at most n.
  ghost predicate Prompt(env: Env, ev: Eval, kw: Keywords, at: Path, doc: Doc, n: nat) {
    forall t: Target, u: Used :: Led(t, kw, at, doc) && Affords(env, u, n) ==> Spends(ev(t, u), u, n)
  }

  ghost predicate TasksLed(tasks: seq<Task>, n: nat, kw: Keywords, at: Path, doc: Doc)
    requires n <= |tasks|
  {
    forall i :: 0 <= i < n && tasks[i].Apply? ==> Led(tasks[i].target, kw, at, doc)
  }

  function Times(k: nat, m: nat): nat {
    if k == 0 then 0 else Times(k - 1, m) + m
  }

  lemma {:induction false} TimesMore(k: nat, w: nat, m: nat)
    requires k <= w
    ensures Times(k, m) <= Times(w, m)
  {
    if k < w {
      TimesMore(k, w - 1, m);
    }
  }

  lemma {:induction false} EachEnds(env: Env, ev: Eval, kw: Keywords, at: Path, doc: Doc, n: nat, tasks: seq<Task>,
                                    k: nat, acc: Run)
    requires k <= |tasks| && Prompt(env, ev, kw, at, doc, n) && TasksLed(tasks, k, kw, at, doc)
    requires acc.Done? && Affords(env, acc.used, Times(k, n + 1))
    ensures Spends(Each(env, ev, tasks, k, acc), acc.used, Times(k, n + 1))
  {
    hide Led;
    if k > 0 {
      EachEnds(env, ev, kw, at, doc, n, tasks, k - 1, acc);
    }
  }

  lemma EachOfEnds(env: Env, ev: Eval, kw: Keywords, at: Path, doc: Doc, n: nat, tasks: seq<Task>, w: nat, acc: Run)
    requires Prompt(env, ev, kw, at, doc, n) && TasksLed(tasks, |tasks|, kw, at, doc) && |tasks| <= w
    requires acc.Done? && Affords(env, acc.used, Times(w, n + 1))
    ensures Spends(EachOf(env, ev, tasks, acc), acc.used, Times(w, n + 1))
  {
    hide Prompt, TasksLed, Times, Each;
    TimesMore(|tasks|, w, n + 1);
    EachEnds(env, ev, kw, at, doc, n, tasks, |tasks|, acc);
  }

  lemma {:induction false} ProbeEnds(env: Env, ev: Eval, kw: Keywords, at: Path, doc: Doc, n: nat,
                                     targets: seq<Target>, cost: nat, k: nat, used: Used)
    requires k <= |targets| && Prompt(env, ev, kw, at, doc, n) && cost <= 1
    requires forall i :: 0 <= i < k ==> Led(targets[i], kw, at, doc)
    requires Affords(env, used, Times(k, n + 1))
    ensures var r := Probe(env, ev, targets, cost, k, used);
            r.Probed? && Spends(Done(r.used, true, NO_NOTES, false), used, Times(k, n + 1))
  {
    hide Led;
    if k > 0 {
      ProbeEnds(env, ev, kw, at, doc, n, targets, cost, k - 1, used);
    }
  }

  lemma ProbeAllEnds(env: Env, ev: Eval, kw: Keywords, at: Path, doc: Doc, n: nat, targets: seq<Target>, cost: nat,
                     w: nat, used: Used)
    requires Prompt(env, ev, kw, at, doc, n) && cost <= 1 && |targets| <= w
    requires forall i :: 0 <= i < |targets| ==> Led(targets[i], kw, at, doc)
    requires Affords(env, used, Times(w, n + 1))
    ensures var r := ProbeAll(env, ev, targets, cost, used);
            r.Probed? && Spends(Done(r.used, true, NO_NOTES, false), used, Times(w, n + 1))
  {
    hide Prompt, Led, Times, Probe;
    TimesMore(|targets|, w, n + 1);
    ProbeEnds(env, ev, kw, at, doc, n, targets, cost, |targets|, used);
  }

  function AssertionCost(rules: seq<Assertion>, n: nat, doc: Doc): nat
    requires n <= |rules|
  {
    if n == 0 then 0 else AssertionCost(rules, n - 1, doc) + rules[n - 1].cost(doc)
  }

  lemma {:induction false} AssertionsEnd(env: Env, rules: seq<Assertion>, n: nat, doc: Doc, acc: Run)
    requires n <= |rules| && acc.Done? && Affords(env, acc.used, AssertionCost(rules, n, doc))
    ensures Spends(SchemaRun.Assertions(env, rules, n, doc, acc), acc.used, AssertionCost(rules, n, doc))
  {
    if n > 0 {
      AssertionsEnd(env, rules, n - 1, doc, acc);
    }
  }

  // ---- The keywords of one object ----

  // No loop over subschemas has more turns.
  function Most(kw: Keywords, doc: Doc): nat {
    ChildCount(doc) + |kw.properties| + |kw.allOf| + |Alternatives(kw.anyOf)| + |Alternatives(kw.oneOf)| + 1
  }

  function RestCost(kw: Keywords, doc: Doc, n: nat): nat {
    AssertionCost(kw.assertions, |kw.assertions|, doc) + 13 * Times(Most(kw, doc), n + 1)
  }

  lemma ElementLed(kw: Keywords, at: Path, doc: Doc, i: nat, id: nat)
    requires doc.List? && i < |doc.items| && OnChild(kw, id)
    ensures Led(AtElement(at, doc, i, id), kw, at, doc)
  {
    assert ChildOf(doc, i) == doc.items[i];
  }

  lemma FieldLed(kw: Keywords, at: Path, doc: Doc, i: nat, id: nat)
    requires doc.Dict? && i < |doc.fields| && OnChild(kw, id)
    ensures Led(AtField(at, doc, i, id), kw, at, doc)
  {
    assert ChildOf(doc, i) == doc.fields[i].value;
  }

  lemma ArrayLed(kw: Keywords, at: Path, doc: Doc)
    ensures var ts := PrefixTasks(kw, at, doc); |ts| <= ChildCount(doc) && TasksLed(ts, |ts|, kw, at, doc)
    ensures var ts := ItemTasks(kw, at, doc); |ts| <= ChildCount(doc) && TasksLed(ts, |ts|, kw, at, doc)
    ensures var ts := ContainsTargets(kw, at, doc);
            |ts| <= ChildCount(doc) && forall i :: 0 <= i < |ts| ==> Led(ts[i], kw, at, doc)
  {
    hide Led;
    if doc.List? {
      forall i: nat, id: nat | i < |doc.items| && OnChild(kw, id) ensures Led(AtElement(at, doc, i, id), kw, at, doc) {
        ElementLed(kw, at, doc, i, id);
      }
      assert forall i :: 0 <= i < |kw.prefixItems| ==> OnChild(kw, kw.prefixItems[i]);
      assert kw.items.Some? ==> OnChild(kw, kw.items.value);
      ItemTaskAt(kw, at, doc);
    }
  }

  lemma PropertiesLed(kw: Keywords, at: Path, doc: Doc)
    ensures var ts := PropertyTasks(kw, at, doc); |ts| <= |kw.properties| && TasksLed(ts, |ts|, kw, at, doc)
  {
    hide Led, IndexOf;
    if doc.Dict? {
      forall n: nat | n < |kw.properties|
        ensures var t := PropertyTask(at, doc, kw.properties[n]); t.Apply? ==> Led(t.target, kw, at, doc)
      {
        var i := IndexOf(doc.fields, kw.properties[n].key);
        if i < |doc.fields| { FieldLed(kw, at, doc, i, kw.properties[n].schema); }
      }
    }
  }

  lemma AdditionalLed(table: Table, kw: Keywords, at: Path, doc: Doc)
    ensures var ts := AdditionalTasks(table, kw, at, doc); |ts| <= ChildCount(doc) && TasksLed(ts, |ts|, kw, at, doc)
  {
    hide Led, Declared;
    if doc.Dict? && kw.additional.Some? {
      forall i: nat | i < |doc.fields| ensures Led(AtField(at, doc, i, kw.additional.value), kw, at, doc) {
        FieldLed(kw, at, doc, i, kw.additional.value);
      }
    }
  }

  lemma LeftoverLed(table: Table, kw: Keywords, at: Path, doc: Doc, seen: Notes)
    ensures var ts := UnevaluatedPropertyTasks(table, kw, at, doc, seen);
            |ts| <= ChildCount(doc) && TasksLed(ts, |ts|, kw, at, doc)
    ensures var ts := UnevaluatedItemTasks(table, kw, at, doc, seen);
            |ts| <= ChildCount(doc) && TasksLed(ts, |ts|, kw, at, doc)
  {
    hide Led;
    if doc.Dict? && kw.unevaluatedProperties.Some? {
      forall i: nat | i < |doc.fields| ensures Led(AtField(at, doc, i, kw.unevaluatedProperties.value), kw, at, doc) {
        FieldLed(kw, at, doc, i, kw.unevaluatedProperties.value);
      }
    }
    if doc.List? && kw.unevaluatedItems.Some? {
      forall i: nat | i < |doc.items| ensures Led(AtElement(at, doc, i, kw.unevaluatedItems.value), kw, at, doc) {
        ElementLed(kw, at, doc, i, kw.unevaluatedItems.value);
      }
    }
  }

  lemma ArrayEnds(env: Env, ev: Eval, kw: Keywords, at: Path, doc: Doc, n: nat, w: nat, acc: Run)
    requires Prompt(env, ev, kw, at, doc, n) && ChildCount(doc) <= w
    requires acc.Done? && Affords(env, acc.used, 3 * Times(w, n + 1))
    ensures Spends(ArrayKeywords(env, ev, kw, at, doc, acc), acc.used, 3 * Times(w, n + 1))
  {
    hide Prompt, Led, TasksLed, Times, EachOf, ProbeAll, Hits, PrefixTasks, ItemTasks, ContainsTargets;
    ArrayLed(kw, at, doc);
    var prefix := EachOf(env, ev, PrefixTasks(kw, at, doc), acc);
    EachOfEnds(env, ev, kw, at, doc, n, PrefixTasks(kw, at, doc), w, acc);
    var items := EachOf(env, ev, ItemTasks(kw, at, doc), prefix);
    EachOfEnds(env, ev, kw, at, doc, n, ItemTasks(kw, at, doc), w, prefix);
    ProbeAllEnds(env, ev, kw, at, doc, n, ContainsTargets(kw, at, doc), 1, w, items.used);
  }

  lemma ObjectEnds(env: Env, ev: Eval, kw: Keywords, at: Path, doc: Doc, n: nat, w: nat, acc: Run)
    requires Prompt(env, ev, kw, at, doc, n) && ChildCount(doc) <= w && |kw.properties| <= w
    requires acc.Done? && Affords(env, acc.used, 2 * Times(w, n + 1))
    ensures Spends(ObjectKeywords(env, ev, kw, at, doc, acc), acc.used, 2 * Times(w, n + 1))
  {
    hide Prompt, Led, TasksLed, Times, EachOf, PropertyTasks, AdditionalTasks;
    PropertiesLed(kw, at, doc);
    AdditionalLed(env.table, kw, at, doc);
    var named := EachOf(env, ev, PropertyTasks(kw, at, doc), acc);
    EachOfEnds(env, ev, kw, at, doc, n, PropertyTasks(kw, at, doc), w, acc);
    EachOfEnds(env, ev, kw, at, doc, n, AdditionalTasks(env.table, kw, at, doc), w, named);
  }

  lemma ConditionalEnds(env: Env, ev: Eval, kw: Keywords, at: Path, doc: Doc, n: nat, w: nat, acc: Run)
    requires Prompt(env, ev, kw, at, doc, n) && 1 <= w
    requires acc.Done? && Affords(env, acc.used, 2 * Times(w, n + 1))
    ensures Spends(ConditionalKeyword(env, ev, kw, at, doc, acc), acc.used, 2 * Times(w, n + 1))
  {
    hide Prompt, Times, EachOf, ProbeAll;
    if kw.condition.Some? {
      var targets := [Target(at, doc, kw.condition.value)];
      ProbeAllEnds(env, ev, kw, at, doc, n, targets, 0, w, acc.used);
      var probes := ProbeAll(env, ev, targets, 0, acc.used);
      var next := Resume(acc, probes, true, Collected(probes.verdicts[0]));
      var branch := Branch(kw, probes.verdicts[0].valid);
      if branch.Some? {
        EachOfEnds(env, ev, kw, at, doc, n, [Here(at, doc, branch.value)], w, next);
      }
    }
  }

  lemma BranchesLed(kw: Keywords, ids: seq<nat>, at: Path, doc: Doc)
    requires forall id :: id in ids ==> InPlace(kw, id)
    ensures var ts := Branches(ids, at, doc); forall i :: 0 <= i < |ts| ==> Led(ts[i], kw, at, doc)
  {
    assert forall i :: 0 <= i < |ids| ==> ids[i] in ids;
  }

  lemma AllLed(kw: Keywords, at: Path, doc: Doc)
    ensures var ts := AllOfTasks(kw, at, doc); |ts| == |kw.allOf| && TasksLed(ts, |ts|, kw, at, doc)
  {
    assert forall i :: 0 <= i < |kw.allOf| ==> kw.allOf[i] in kw.allOf;
  }

  lemma LogicEnds(env: Env, ev: Eval, kw: Keywords, at: Path, doc: Doc, n: nat, w: nat, acc: Run)
    requires Prompt(env, ev, kw, at, doc, n) && 1 <= w
    requires |kw.allOf| <= w && |Alternatives(kw.anyOf)| <= w && |Alternatives(kw.oneOf)| <= w
    requires acc.Done? && Affords(env, acc.used, 4 * Times(w, n + 1))
    ensures Spends(LogicKeywords(env, ev, kw, at, doc, acc), acc.used, 4 * Times(w, n + 1))
  {
    hide Prompt, TasksLed, Times, EachOf, ProbeAll, Hits, HitNotes, HitCount, OnlyNotes, AllOfTasks, Branches, Led;
    AllLed(kw, at, doc);
    var all := EachOf(env, ev, AllOfTasks(kw, at, doc), acc);
    EachOfEnds(env, ev, kw, at, doc, n, AllOfTasks(kw, at, doc), w, acc);
    if kw.anyOf.Some? {
      BranchesLed(kw, kw.anyOf.value, at, doc);
      ProbeAllEnds(env, ev, kw, at, doc, n, Branches(kw.anyOf.value, at, doc), 1, w, all.used);
    }
    var any := AnyOfKeyword(env, ev, kw, at, doc, all);
    if kw.oneOf.Some? {
      BranchesLed(kw, kw.oneOf.value, at, doc);
      ProbeAllEnds(env, ev, kw, at, doc, n, Branches(kw.oneOf.value, at, doc), 1, w, any.used);
    }
    var one := OneOfKeyword(env, ev, kw, at, doc, any);
    if kw.negated.Some? {
      NegatedLed(kw, at, doc);
      ProbeAllEnds(env, ev, kw, at, doc, n, [Target(at, doc, kw.negated.value)], 0, w, one.used);
    }
  }

  lemma NegatedLed(kw: Keywords, at: Path, doc: Doc)
    requires kw.negated.Some?
    ensures Led(Target(at, doc, kw.negated.value), kw, at, doc)
  {
  }

  lemma UnevaluatedEnds(env: Env, ev: Eval, kw: Keywords, at: Path, doc: Doc, n: nat, w: nat, acc: Run)
    requires Prompt(env, ev, kw, at, doc, n) && ChildCount(doc) <= w
    requires acc.Done? && Affords(env, acc.used, 2 * Times(w, n + 1))
    ensures Spends(UnevaluatedKeywords(env, ev, kw, at, doc, acc), acc.used, 2 * Times(w, n + 1))
  {
    hide Prompt, Led, TasksLed, Times, EachOf, UnevaluatedPropertyTasks, UnevaluatedItemTasks;
    var props := UnevaluatedPropertyTasks(env.table, kw, at, doc, NotesOf(acc));
    LeftoverLed(env.table, kw, at, doc, NotesOf(acc));
    var middle := EachOf(env, ev, props, acc);
    EachOfEnds(env, ev, kw, at, doc, n, props, w, acc);
    LeftoverLed(env.table, kw, at, doc, NotesOf(middle));
    EachOfEnds(env, ev, kw, at, doc, n, UnevaluatedItemTasks(env.table, kw, at, doc, NotesOf(middle)), w, middle);
  }

  lemma RestEnds(env: Env, ev: Eval, kw: Keywords, at: Path, doc: Doc, n: nat, acc: Run)
    requires Prompt(env, ev, kw, at, doc, n) && acc.Done? && Affords(env, acc.used, RestCost(kw, doc, n))
    ensures Spends(Rest(env, ev, kw, at, doc, acc), acc.used, RestCost(kw, doc, n))
  {
    hide Prompt, Times, SchemaRun.Assertions, ArrayKeywords, ObjectKeywords, ConditionalKeyword, LogicKeywords;
    hide UnevaluatedKeywords, AssertionCost;
    var w := Most(kw, doc);
    var asserted := SchemaRun.Assertions(env, kw.assertions, |kw.assertions|, doc, acc);
    AssertionsEnd(env, kw.assertions, |kw.assertions|, doc, acc);
    var elements := ArrayKeywords(env, ev, kw, at, doc, asserted);
    ArrayEnds(env, ev, kw, at, doc, n, w, asserted);
    var members := ObjectKeywords(env, ev, kw, at, doc, elements);
    ObjectEnds(env, ev, kw, at, doc, n, w, elements);
    var conditional := ConditionalKeyword(env, ev, kw, at, doc, members);
    ConditionalEnds(env, ev, kw, at, doc, n, w, members);
    LogicEnds(env, ev, kw, at, doc, n, w, conditional);
    UnevaluatedEnds(env, ev, kw, at, doc, n, w, Applied(env, ev, kw, at, doc, acc));
  }

  // ---- Which schemas end ----

  // Known schemas lead to known ones, on the same node only to ones of smaller
  // rank; a $ref may lead anywhere as long as its target is one of finitely many.
  ghost predicate Ending(table: Table, known: Ids, rank: nat -> nat, targets: set<nat>) {
    forall i: nat :: known(i) && table(i).Object? ==>
      var kw := table(i).kw;
      && (kw.ref.To? ==> known(kw.ref.target) && (kw.ref.target in targets || rank(kw.ref.target) < rank(i)))
      && (forall j: nat :: InPlace(kw, j) ==> known(j) && rank(j) < rank(i))
      && (forall j: nat :: OnChild(kw, j) ==> known(j))
  }

  // Every finite schema is of this kind when its objects are numbered so that the
  // subschemas on the same node come after their parent.
  lemma TreesEnd(table: Table, size: nat)
    requires forall i: nat :: table(i).Object? ==>
      var kw := table(i).kw;
      i < size && (kw.ref.To? ==> kw.ref.target < size) && forall j: nat :: InPlace(kw, j) ==> i < j
    ensures Ending(table, i => true, i => if i < size then size - i else 0, Below(size))
  {
  }

  // The targets that a $ref on this node can still enter.
  ghost function Free(targets: set<nat>, active: seq<Active>, at: Path): set<nat> {
    set t | t in targets && Active(at, t) !in active
  }

  // n of each budget and n levels are enough, whatever was spent before and
  // wherever it is evaluated, if at most free targets can still be entered.
  ghost predicate Ends(table: Table, targets: set<nat>, free: nat, doc: Doc, id: nat, n: nat) {
    forall env: Env, room: nat, active: seq<Active>, at: Path, used: Used ::
      env.table == table && room >= n && |Free(targets, active, at)| <= free && Affords(env, used, n) ==>
        Spends(Evaluate(env, room, active, Target(at, doc, id), used), used, n)
  }

  lemma EndsMore(table: Table, targets: set<nat>, free: nat, doc: Doc, id: nat, n: nat, m: nat)
    requires Ends(table, targets, free, doc, id, n) && n <= m
    ensures Ends(table, targets, free, doc, id, m)
  {
    hide Evaluate;
  }

  lemma SmallerSubset(a: set<nat>, b: set<nat>)
    requires a <= b
    ensures |a| <= |b| && (a != b ==> |a| < |b|)
  {
    assert b == a + (b - a);
  }

  lemma FreeEntered(targets: set<nat>, active: seq<Active>, at: Path, t: nat)
    ensures |Free(targets, active + [Active(at, t)], at)| <= |Free(targets, active, at)|
    ensures t in targets && Active(at, t) !in active ==>
      |Free(targets, active + [Active(at, t)], at)| < |Free(targets, active, at)|
  {
    var before, after := Free(targets, active, at), Free(targets, active + [Active(at, t)], at);
    SmallerSubset(after, before);
    assert t in targets && Active(at, t) !in active ==> t in before && t !in after;
  }

  lemma FreeAtMost(targets: set<nat>, active: seq<Active>, at: Path)
    ensures |Free(targets, active, at)| <= |targets|
  {
    SmallerSubset(Free(targets, active, at), targets);
  }

  // Each subschema of the object costs at most m.
  ghost predicate SubsEnd(table: Table, targets: set<nat>, free: nat, doc: Doc, kw: Keywords, m: nat) {
    && (forall j: nat :: InPlace(kw, j) ==> Ends(table, targets, free, doc, j, m))
    && (forall i: nat, j: nat :: i < ChildCount(doc) && OnChild(kw, j) ==>
         Ends(table, targets, |targets|, ChildOf(doc, i), j, m))
  }

  // The target of the $ref costs at most m, once it has been entered.
  ghost predicate RefEnds(table: Table, targets: set<nat>, free: nat, doc: Doc, kw: Keywords, m: nat) {
    kw.ref.To? ==>
      if kw.ref.target !in targets then Ends(table, targets, free, doc, kw.ref.target, m)
      else free > 0 ==> Ends(table, targets, free - 1, doc, kw.ref.target, m)
  }

  lemma SubsPrompt(env: Env, targets: set<nat>, free: nat, room: nat, active: seq<Active>, at: Path, doc: Doc,
                   kw: Keywords, m: nat)
    requires SubsEnd(env.table, targets, free, doc, kw, m) && room >= m && |Free(targets, active, at)| <= free
    ensures Prompt(env, Evaluator(env, room, active), kw, at, doc, m)
  {
    hide Evaluate, InPlace, OnChild, Free;
    var ev := Evaluator(env, room, active);
    forall t: Target, u: Used | Led(t, kw, at, doc) && Affords(env, u, m) ensures Spends(ev(t, u), u, m) {
      assert t == Target(t.at, t.doc, t.id);
      if t.at == at && t.doc == doc && InPlace(kw, t.id) {
        assert Ends(env.table, targets, free, t.doc, t.id, m);
      } else {
        FreeAtMost(targets, active, t.at);
        assert Ends(env.table, targets, |targets|, t.doc, t.id, m);
      }
    }
  }

  // Entering the target of a $ref and evaluating it.
  lemma RefRun(env: Env, targets: set<nat>, free: nat, room: nat, active: seq<Active>, at: Path, doc: Doc,
               kw: Keywords, used: Used, m: nat)
    requires RefEnds(env.table, targets, free, doc, kw, m) && room >= m && |Free(targets, active, at)| <= free
    requires kw.ref.To? && Active(at, kw.ref.target) !in active && Affords(env, used, m)
    ensures Spends(Evaluate(env, room, active + [Active(at, kw.ref.target)], Target(at, doc, kw.ref.target), used),
                   used, m)
  {
    hide Evaluate, Free;
    FreeEntered(targets, active, at, kw.ref.target);
  }

  lemma BodyEnds(env: Env, targets: set<nat>, free: nat, room: nat, active: seq<Active>, at: Path, doc: Doc,
                 kw: Keywords, used: Used, m: nat)
    requires SubsEnd(env.table, targets, free, doc, kw, m) && RefEnds(env.table, targets, free, doc, kw, m)
    requires room >= m && |Free(targets, active, at)| <= free && Affords(env, used, m + RestCost(kw, doc, m) + 1)
    ensures Spends(Body(env, room, active, at, doc, kw, used), used, m + RestCost(kw, doc, m) + 1)
  {
    hide SubsEnd, RefEnds, Free, Rest, RestCost, EachOf, Evaluate, Prompt;
    if kw.ref.NoRef? {
      SubsPrompt(env, targets, free, room, active, at, doc, kw, m);
      RestEnds(env, Evaluator(env, room, active), kw, at, doc, m, Done(used, true, NO_NOTES, false));
    } else {
      var resolved := Resolve(env, active, at, kw.ref, used);
      if resolved.Enter? {
        var start := Done(resolved.used, true, NO_NOTES, false);
        var ev, here := Evaluator(env, room, resolved.active), Here(at, doc, kw.ref.target);
        RefRun(env, targets, free, room, active, at, doc, kw, resolved.used, m);
        EachSingle(env, ev, here, start);
        var acc := EachOf(env, ev, [here], start);
        assert Spends(acc, resolved.used, m);
        FreeEntered(targets, active, at, kw.ref.target);
        SubsPrompt(env, targets, free, room, resolved.active, at, doc, kw, m);
        RestEnds(env, ev, kw, at, doc, m, acc);
      }
    }
  }

  // What an object costs, given what its subschemas cost.
  function ObjectCost(kw: Keywords, doc: Doc, m: nat): nat {
    m + RestCost(kw, doc, m) + 3
  }

  lemma ObjectRun(env: Env, targets: set<nat>, free: nat, room: nat, active: seq<Active>, target: Target, used: Used,
                  m: nat)
    requires env.table(target.id).Object?
    requires var kw := env.table(target.id).kw;
             && SubsEnd(env.table, targets, free, target.doc, kw, m)
             && RefEnds(env.table, targets, free, target.doc, kw, m)
             && room >= ObjectCost(kw, target.doc, m) && Affords(env, used, ObjectCost(kw, target.doc, m))
    requires |Free(targets, active, target.at)| <= free
    ensures Spends(Evaluate(env, room, active, target, used), used, ObjectCost(env.table(target.id).kw, target.doc, m))
  {
    hide SubsEnd, RefEnds, Free, RestCost, Body;
    var kw, at, doc := env.table(target.id).kw, target.at, target.doc;
    var charged := Charge(env, used, 1).value;
    if Live(kw) {
      EvaluatesBody(env, room, active, target, used);
      BodyEnds(env, targets, free, room - 1, active, at, doc, kw, charged, m);
    } else {
      assert Evaluate(env, room, active, target, used) == Chain(env, room - 1, active, at, doc, target.id, charged);
      var resolved := Resolve(env, active, at, kw.ref, charged);
      if resolved.Enter? {
        RefRun(env, targets, free, room - 1, active, at, doc, kw, resolved.used, m);
        HiddenRefRun(env, room - 1, active, target, charged);
      }
    }
  }

  // A $ref that hides its siblings costs what evaluating its target costs.
  lemma HiddenRefRun(env: Env, room: nat, active: seq<Active>, target: Target, used: Used)
    requires env.table(target.id).Object? && !Live(env.table(target.id).kw) && room > 0
    requires var resolved := Resolve(env, active, target.at, env.table(target.id).kw.ref, used);
             resolved.Enter? && Charge(env, resolved.used, 1).Some?
    ensures var resolved := Resolve(env, active, target.at, env.table(target.id).kw.ref, used);
            && Chain(env, room, active, target.at, target.doc, target.id, used)
            == Evaluate(env, room, resolved.active, Target(target.at, target.doc, resolved.target), resolved.used)
  {
    hide Body;
    var resolved := Resolve(env, active, target.at, env.table(target.id).kw.ref, used);
    var charged := Charge(env, resolved.used, 1).value;
    var next := Chain(env, room - 1, resolved.active, target.at, target.doc, resolved.target, charged);
    assert Evaluate(env, room, resolved.active, Target(target.at, target.doc, resolved.target), resolved.used) == next;
  }

  lemma ObjectEndsAt(table: Table, targets: set<nat>, free: nat, doc: Doc, id: nat, m: nat)
    requires table(id).Object? && SubsEnd(table, targets, free, doc, table(id).kw, m)
    requires RefEnds(table, targets, free, doc, table(id).kw, m)
    ensures Ends(table, targets, free, doc, id, ObjectCost(table(id).kw, doc, m))
  {
    hide SubsEnd, RefEnds, Free, ObjectCost, Evaluate;
    var n := ObjectCost(table(id).kw, doc, m);
    forall env: Env, room: nat, active: seq<Active>, at: Path, used: Used |
      env.table == table && room >= n && |Free(targets, active, at)| <= free && Affords(env, used, n)
      ensures Spends(Evaluate(env, room, active, Target(at, doc, id), used), used, n)
    {
      ObjectRun(env, targets, free, room, active, Target(at, doc, id), used, m);
    }
  }

  lemma PlainEnds(table: Table, targets: set<nat>, free: nat, doc: Doc, id: nat)
    requires !table(id).Object?
    ensures Ends(table, targets, free, doc, id, 1)
  {
    forall env: Env, room: nat, active: seq<Active>, at: Path, used: Used |
      env.table == table && room >= 1 && Affords(env, used, 1)
      ensures Spends(Evaluate(env, room, active, Target(at, doc, id), used), used, 1)
    {
      var charged := Charge(env, used, 1).value;
      assert Chain(env, room - 1, active, at, doc, id, charged).Done?;
    }
  }

  // ---- The subschemas as lists ----

  function OptionIds(id: Option<nat>): seq<nat> {
    if id.Some? then [id.value] else []
  }

  function InPlaceIds(kw: Keywords): (ids: seq<nat>)
    ensures forall id :: InPlace(kw, id) ==> id in ids
    ensures forall id :: id in ids ==> InPlace(kw, id)
  {
    kw.allOf + Alternatives(kw.anyOf) + Alternatives(kw.oneOf) + OptionIds(kw.condition) + OptionIds(kw.thenSchema)
    + OptionIds(kw.elseSchema) + OptionIds(kw.negated)
  }

  function PropertyIds(kw: Keywords): (ids: seq<nat>)
    ensures |ids| == |kw.properties| && forall i :: 0 <= i < |ids| ==> ids[i] == kw.properties[i].schema
  {
    seq(|kw.properties|, i requires 0 <= i < |kw.properties| => kw.properties[i].schema)
  }

  function ChildIds(kw: Keywords): (ids: seq<nat>)
    ensures forall id :: OnChild(kw, id) ==> id in ids
    ensures forall id :: id in ids ==> OnChild(kw, id)
  {
    kw.prefixItems + OptionIds(kw.items) + OptionIds(kw.contains) + OptionIds(kw.additional) + PropertyIds(kw)
    + OptionIds(kw.unevaluatedProperties) + OptionIds(kw.unevaluatedItems)
  }

  // ---- Known schemas end ----

  lemma {:induction false} KnownEnds(table: Table, known: Ids, rank: nat -> nat, targets: set<nat>, free: nat,
                                     doc: Doc, id: nat)
    returns (n: nat)
    requires Ending(table, known, rank, targets) && known(id)
    ensures Ends(table, targets, free, doc, id, n)
    decreases doc, free, rank(id), 2, 0
  {
    hide Ends;
    if !table(id).Object? {
      PlainEnds(table, targets, free, doc, id);
      return 1;
    }
    var kw := table(id).kw;
    var here := HereEnd(table, known, rank, targets, free, doc, id, |InPlaceIds(kw)|);
    var below := ChildrenEnd(table, known, rank, targets, free, doc, id, ChildCount(doc));
    var entered := 0;
    if kw.ref.To? && kw.ref.target !in targets {
      entered := KnownEnds(table, known, rank, targets, free, doc, kw.ref.target);
    } else if kw.ref.To? && free > 0 {
      entered := KnownEnds(table, known, rank, targets, free - 1, doc, kw.ref.target);
    }
    var m := here + below + entered;
    Together(table, targets, free, doc, kw, here, below, entered);
    ObjectEndsAt(table, targets, free, doc, id, m);
    n := ObjectCost(kw, doc, m);
  }

  lemma Together(table: Table, targets: set<nat>, free: nat, doc: Doc, kw: Keywords, here: nat, below: nat,
                 entered: nat)
    requires forall k :: 0 <= k < |InPlaceIds(kw)| ==> Ends(table, targets, free, doc, InPlaceIds(kw)[k], here)
    requires forall i: nat, k: nat :: i < ChildCount(doc) && k < |ChildIds(kw)| ==>
      Ends(table, targets, |targets|, ChildOf(doc, i), ChildIds(kw)[k], below)
    requires RefEnds(table, targets, free, doc, kw, entered)
    ensures SubsEnd(table, targets, free, doc, kw, here + below + entered)
    ensures RefEnds(table, targets, free, doc, kw, here + below + entered)
  {
    hide Ends, InPlace, OnChild, InPlaceIds, ChildIds;
    var m := here + below + entered;
    forall j: nat | InPlace(kw, j) ensures Ends(table, targets, free, doc, j, m) {
      var k :| 0 <= k < |InPlaceIds(kw)| && InPlaceIds(kw)[k] == j;
      EndsMore(table, targets, free, doc, j, here, m);
    }
    forall i: nat, j: nat | i < ChildCount(doc) && OnChild(kw, j)
      ensures Ends(table, targets, |targets|, ChildOf(doc, i), j, m)
    {
      var k :| 0 <= k < |ChildIds(kw)| && ChildIds(kw)[k] == j;
      EndsMore(table, targets, |targets|, ChildOf(doc, i), j, below, m);
    }
    if kw.ref.To? {
      if kw.ref.target !in targets {
        EndsMore(table, targets, free, doc, kw.ref.target, entered, m);
      } else if free > 0 {
        EndsMore(table, targets, free - 1, doc, kw.ref.target, entered, m);
      }
    }
  }

  lemma {:induction false} HereEnd(table: Table, known: Ids, rank: nat -> nat, targets: set<nat>, free: nat, doc: Doc,
                                   id: nat, k: nat)
    returns (m: nat)
    requires Ending(table, known, rank, targets) && known(id) && table(id).Object?
    requires k <= |InPlaceIds(table(id).kw)|
    ensures forall i :: 0 <= i < k ==> Ends(table, targets, free, doc, InPlaceIds(table(id).kw)[i], m)
    decreases doc, free, rank(id), 0, k
  {
    hide Ends;
    m := 0;
    if k > 0 {
      var ids := InPlaceIds(table(id).kw);
      assert InPlace(table(id).kw, ids[k - 1]);
      var before := HereEnd(table, known, rank, targets, free, doc, id, k - 1);
      var last := KnownEnds(table, known, rank, targets, free, doc, ids[k - 1]);
      m := before + last;
      forall i | 0 <= i < k ensures Ends(table, targets, free, doc, ids[i], m) {
        EndsMore(table, targets, free, doc, ids[i], if i == k - 1 then last else before, m);
      }
    }
  }

  lemma {:induction false} ChildrenEnd(table: Table, known: Ids, rank: nat -> nat, targets: set<nat>, free: nat,
                                       doc: Doc, id: nat, n: nat)
    returns (m: nat)
    requires Ending(table, known, rank, targets) && known(id) && table(id).Object? && n <= ChildCount(doc)
    ensures forall i: nat, k: nat :: i < n && k < |ChildIds(table(id).kw)| ==>
      Ends(table, targets, |targets|, ChildOf(doc, i), ChildIds(table(id).kw)[k], m)
    decreases doc, free, rank(id), 1, n
  {
    hide Ends;
    m := 0;
    if n > 0 {
      var ids := ChildIds(table(id).kw);
      var before := ChildrenEnd(table, known, rank, targets, free, doc, id, n - 1);
      var last := ChildEnd(table, known, rank, targets, free, doc, id, n - 1, |ids|);
      m := before + last;
      forall i: nat, k: nat | i < n && k < |ids| ensures Ends(table, targets, |targets|, ChildOf(doc, i), ids[k], m) {
        EndsMore(table, targets, |targets|, ChildOf(doc, i), ids[k], if i == n - 1 then last else before, m);
      }
    }
  }

  lemma {:induction false} ChildEnd(table: Table, known: Ids, rank: nat -> nat, targets: set<nat>, free: nat,
                                    doc: Doc, id: nat, i: nat, k: nat)
    returns (m: nat)
    requires Ending(table, known, rank, targets) && known(id) && table(id).Object? && i < ChildCount(doc)
    requires k <= |ChildIds(table(id).kw)|
    ensures forall l: nat :: l < k ==>
      Ends(table, targets, |targets|, ChildOf(doc, i), ChildIds(table(id).kw)[l], m)
    decreases doc, free, rank(id), 0, k
  {
    hide Ends;
    m := 0;
    if k > 0 {
      var ids, child := ChildIds(table(id).kw), ChildOf(doc, i);
      assert OnChild(table(id).kw, ids[k - 1]);
      var before := ChildEnd(table, known, rank, targets, free, doc, id, i, k - 1);
      var last := KnownEnds(table, known, rank, targets, |targets|, child, ids[k - 1]);
      m := before + last;
      forall l: nat | l < k ensures Ends(table, targets, |targets|, child, ids[l], m) {
        EndsMore(table, targets, |targets|, child, ids[l], if l == k - 1 then last else before, m);
      }
    }
  }

  predicate AtLeast(limits: Limits, n: nat) {
    limits.work >= n && limits.refs >= n && limits.depth >= n
  }

  // However its references loop: on every instance a known schema is evaluated
  // to the end once the limits are large enough.
  lemma RunsEnd(table: Table, known: Ids, rank: nat -> nat, targets: set<nat>, doc: Doc, id: nat)
    returns (n: nat)
    requires Ending(table, known, rank, targets) && known(id)
    ensures forall limits: Limits :: AtLeast(limits, n) ==> Validate(Env(table, limits), doc, id).Done?
  {
    n := KnownEnds(table, known, rank, targets, |targets|, doc, id);
    FreeAtMost(targets, [], []);
    hide Evaluate, Free;
    forall limits: Limits | AtLeast(limits, n) ensures Validate(Env(table, limits), doc, id).Done? {
      assert Affords(Env(table, limits), Used(0, 0), n);
    }
  }

  // ---- A finished reference that counts as active ----

  lemma FoundedEnding(table: Table, founded: Ids, rank: nat -> nat, bound: nat)
    requires Founded(table, founded, rank, bound)
    ensures Ending(table, founded, rank, {})
  {
  }

  // For every founded schema in which a keyword beside a $ref comes to its target
  // again: the rules reach a verdict, every run that finishes reports a cycle, and
  // with large enough limits all runs finish.
  lemma CycleInVain(table: Table, founded: Ids, rank: nat -> nat, bound: nat, doc: Doc, id: nat, j: nat, n: nat,
                    strictly: bool)
    returns (m: nat)
    requires Founded(table, founded, rank, bound) && founded(id)
    requires table(id).Object?
    requires var kw := table(id).kw;
             && kw.siblings && kw.ref.To?
             && Follows(table, doc, kw, j, strictly) && Meets(table, doc, n, j, kw.ref.target, strictly)
    ensures EverSettled(table, doc, id)
    ensures forall limits: Limits :: Looped(Validate(Env(table, limits), doc, id), strictly)
    ensures forall limits: Limits :: AtLeast(limits, m) ==> Validate(Env(table, limits), doc, id).Done?
  {
    hide Evaluate, Follows, Meets, Founded, Settled;
    var k := FoundedSettles(table, founded, rank, bound, doc);
    assert Settled(table, k, doc, id);
    forall limits: Limits ensures Looped(Validate(Env(table, limits), doc, id), strictly) {
      SecondReferenceIsCycle(Env(table, limits), limits.depth, [], Target([], doc, id), Used(0, 0), j, n, strictly);
    }
    FoundedEnding(table, founded, rank, bound);
    m := RunsEnd(table, founded, rank, {}, doc, id);
  }

  // ---- Which schemas the cycle test is right for ----

  ghost predicate MeetsEver(table: Table, doc: Doc, id: nat, t: nat) {
    exists n: nat :: Meets(table, doc, n, id, t, false)
  }

  // On no instance that the rules judge does a keyword beside a $ref come to the
  // target of that $ref again.
  ghost predicate NeverMetAgain(table: Table) {
    forall doc: Doc, i: nat, j: nat ::
      table(i).Object? && table(i).kw.siblings && table(i).kw.ref.To? && EverSettled(table, doc, i)
      && InPlaceOn(table, doc, table(i).kw, j) ==>
        !MeetsEver(table, doc, j, table(i).kw.ref.target)
  }

  // A step to a $ref, or to a keyword on the same node.
  lemma MeetsStep(table: Table, doc: Doc, i: nat, j: nat, t: nat)
    requires table(i).Object? && MeetsEver(table, doc, j, t)
    requires var kw := table(i).kw;
             kw.ref == To(j) || (Live(kw) && !kw.ref.Unresolved? && InPlaceOn(table, doc, kw, j))
    ensures MeetsEver(table, doc, i, t)
  {
    hide InPlaceOn;
    var n: nat :| Meets(table, doc, n, j, t, false);
    assert Follows(table, doc, table(i).kw, j, false) || table(i).kw.ref == To(j);
    assert Meets(table, doc, n + 1, i, t, false);
  }

  lemma MeetsAtOnce(table: Table, doc: Doc, i: nat)
    requires table(i).Object? && table(i).kw.ref.To?
    ensures MeetsEver(table, doc, i, table(i).kw.ref.target)
  {
    assert Meets(table, doc, 0, i, table(i).kw.ref.target, false);
  }

  ghost function MeetsRelation(table: Table): Reach {
    (d: Doc, i: nat, t: nat) => MeetsEver(table, d, i, t)
  }

  lemma CoversAt(table: Table, doc: Doc, i: nat)
    requires table(i).Object?
    ensures var kw, may := table(i).kw, MeetsRelation(table);
            && (kw.ref.To? ==> may(doc, i, kw.ref.target) && Inherits(may, doc, kw.ref.target, i))
            && (Live(kw) && !kw.ref.Unresolved? ==>
                 forall j: nat :: InPlaceOn(table, doc, kw, j) ==> Inherits(may, doc, j, i))
  {
    hide MeetsEver, InPlaceOn;
    var kw, may := table(i).kw, MeetsRelation(table);
    if kw.ref.To? { MeetsAtOnce(table, doc, i); }
    forall j: nat | kw.ref == To(j) || (Live(kw) && !kw.ref.Unresolved? && InPlaceOn(table, doc, kw, j))
      ensures Inherits(may, doc, j, i)
    {
      forall t: nat | may(doc, j, t) ensures may(doc, i, t) {
        MeetsStep(table, doc, i, j, t);
      }
    }
  }

  lemma ApartSuffices(table: Table)
    requires NeverMetAgain(table)
    ensures RefsApart(table, MeetsRelation(table))
  {
    hide MeetsEver, InPlaceOn, EverSettled, Inherits;
    var may := MeetsRelation(table);
    forall d: Doc, i: nat | table(i).Object? && EverSettled(table, d, i)
      ensures var kw := table(i).kw;
              && (kw.ref.To? ==> may(d, i, kw.ref.target) && Inherits(may, d, kw.ref.target, i))
              && (Live(kw) && !kw.ref.Unresolved? ==>
                   forall j: nat :: InPlaceOn(table, d, kw, j) ==> Inherits(may, d, j, i))
    {
      CoversAt(table, d, i);
    }
    assert Covers(table, may);
    forall d: Doc, i: nat |
      table(i).Object? && EverSettled(table, d, i) && table(i).kw.siblings && table(i).kw.ref.To?
      ensures forall j: nat :: InPlaceOn(table, d, table(i).kw, j) ==> !may(d, j, table(i).kw.ref.target)
    {
    }
  }

  // Whatever the limits and the instance, a finished run of id reports a cycle
  // exactly when the rules reach no verdict.
  ghost predicate CycleTestRight(table: Table, id: nat) {
    forall limits: Limits, doc: Doc ::
      var r := Validate(Env(table, limits), doc, id);
      r.Done? ==> (r.cycle <==> !EverSettled(table, doc, id))
  }

  // Some run of id finishes with a cycle although the rules judge the instance.
  lemma WronglyReported(table: Table, rank: nat -> nat, targets: set<nat>, doc: Doc, i: nat, j: nat, n: nat)
    requires Ending(table, k => true, rank, targets) && EverSettled(table, doc, i)
    requires table(i).Object? && table(i).kw.siblings && table(i).kw.ref.To? && InPlaceOn(table, doc, table(i).kw, j)
    requires Meets(table, doc, n, j, table(i).kw.ref.target, false)
    ensures !CycleTestRight(table, i)
  {
    hide Ending, Meets, Evaluate, InPlaceOn, EverSettled;
    var m := RunsEnd(table, k => true, rank, targets, doc, i);
    var limits := Limits(m, m, m);
    assert Follows(table, doc, table(i).kw, j, false);
    SecondReferenceIsCycle(Env(table, limits), m, [], Target([], doc, i), Used(0, 0), j, n, false);
    assert Validate(Env(table, limits), doc, i).Done?;
  }

  // For every table whose loops all pass through finitely many $ref targets, the
  // cycle test is right for all schemas, instances and limits exactly when no
  // keyword beside a $ref comes to its target again on an instance that the rules
  // judge.
  lemma WhereTheCycleTestIsRight(table: Table, rank: nat -> nat, targets: set<nat>)
    requires Ending(table, k => true, rank, targets)
    ensures (forall id: nat :: CycleTestRight(table, id)) <==> NeverMetAgain(table)
  {
    hide Ending, InPlaceOn, EverSettled, Evaluate;
    if NeverMetAgain(table) {
      ApartSuffices(table);
      forall id: nat, limits: Limits, doc: Doc | Validate(Env(table, limits), doc, id).Done?
        ensures Validate(Env(table, limits), doc, id).cycle <==> !EverSettled(table, doc, id)
      {
        hide Validate;
        CycleMeansNoVerdict(Env(table, limits), MeetsRelation(table), doc, id);
      }
    } else {
      var doc: Doc, i: nat, j: nat :|
        table(i).Object? && table(i).kw.siblings && table(i).kw.ref.To? && EverSettled(table, doc, i)
        && InPlaceOn(table, doc, table(i).kw, j) && MeetsEver(table, doc, j, table(i).kw.ref.target);
      var n: nat :| Meets(table, doc, n, j, table(i).kw.ref.target, false);
      WronglyReported(table, rank, targets, doc, i, j, n);
    }
  }

  // ---- A negated loop is accepted ----

  // Where runs end, a schema that only negates a reference into a loop of required
  // references is accepted by every run with large enough limits, on every
  // instance, and the rules judge none of them.
  lemma NegatedLoopPasses(table: Table, known: Ids, rank: nat -> nat, targets: set<nat>, doc: Doc, id: nat, j: nat,
                          n: nat)
    returns (m: nat)
    requires Ending(table, known, rank, targets) && known(id)
    requires table(id).Object? && table(j).Object? && table(j).kw.ref.To?
    requires var kw := table(id).kw; kw == BLANK.(siblings := kw.siblings, negated := Some(j))
    requires Meets(table, doc, n, table(j).kw.ref.target, table(j).kw.ref.target, true)
    ensures !EverSettled(table, doc, id)
    ensures forall limits: Limits :: AtLeast(limits, m) ==> Passed(Validate(Env(table, limits), doc, id))
  {
    hide Ending, Meets, Evaluate;
    m := RunsEnd(table, known, rank, targets, doc, id);
    NegatedLoopAccepts(Env(table, Limits(m, m, m)), doc, id, j, n);
    forall limits: Limits | AtLeast(limits, m) ensures Passed(Validate(Env(table, limits), doc, id)) {
      NegatedLoopAccepts(Env(table, limits), doc, id, j, n);
    }
  }
}
