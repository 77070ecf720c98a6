// A run that finishes inside its budgets and meets no reference cycle gives the
// verdict and the annotations of the keyword rules.

module SchemaSoundness {
  import opened JsonValue
  import opened Printer
  import opened SchemaRules
  import opened SchemaRun

  // Whenever ev finishes without a cycle, s holds of the subschema and ev gives
  // the verdict of j.
  ghost predicate Faithful(ev: Eval, j: Judge, s: Claim) {
    forall t: Target, u: Used :: Clean(ev(t, u)) ==> Right(ev(t, u), t, j, s)
  }

  ghost predicate Right(run: Run, t: Target, j: Judge, s: Claim) {
    run.Done? && s(t.doc, t.id) && Verdict(run.valid, run.notes) == j(t.doc, t.id)
  }

  // r continues acc with a keyword group that holds or not and adds notes.
  ghost predicate Adds(acc: Run, r: Run, holds: bool, notes: Notes) {
    && Clean(acc) && Clean(r)
    && r.valid == (acc.valid && holds)
    && r.notes == Merge(acc.notes, notes)
  }

  // ---- Loops ----

  predicate TaskHolds(task: Task, j: Judge) {
    match task
    case Skip(_, _) => true
    case Refuse(_) => false
    case Apply(target, _, _, _) => j(target.doc, target.id).valid
  }

  function TaskNotes(task: Task, j: Judge): Notes {
    if task.Apply? && task.merge then Merge(task.notes, Collected(j(task.target.doc, task.target.id)))
    else task.notes
  }

  function TasksNotes(tasks: seq<Task>, n: nat, j: Judge): Notes
    requires n <= |tasks|
  {
    if n == 0 then NO_NOTES else Merge(TasksNotes(tasks, n - 1, j), TaskNotes(tasks[n - 1], j))
  }

  ghost predicate TasksHold(tasks: seq<Task>, n: nat, j: Judge)
    requires n <= |tasks|
  {
    forall i :: 0 <= i < n ==> TaskHolds(tasks[i], j)
  }

  ghost predicate TasksKnown(tasks: seq<Task>, n: nat, s: Claim)
    requires n <= |tasks|
  {
    forall i :: 0 <= i < n && tasks[i].Apply? ==> s(tasks[i].target.doc, tasks[i].target.id)
  }

  lemma PerformSound(env: Env, ev: Eval, j: Judge, s: Claim, task: Task, acc: Run)
    requires Faithful(ev, j, s) && Clean(Perform(env, ev, task, acc))
    ensures Adds(acc, Perform(env, ev, task, acc), TaskHolds(task, j), TaskNotes(task, j))
    ensures task.Apply? ==> s(task.target.doc, task.target.id)
  {
    var used := Charge(env, acc.used, Cost(task)).value;
    if task.Apply? {
      assert Right(ev(task.target, used), task.target, j, s);
    }
  }

  lemma {:induction false} EachSound(env: Env, ev: Eval, j: Judge, s: Claim, tasks: seq<Task>, n: nat, acc: Run)
    requires n <= |tasks| && Faithful(ev, j, s) && Clean(Each(env, ev, tasks, n, acc))
    ensures Adds(acc, Each(env, ev, tasks, n, acc), TasksHold(tasks, n, j), TasksNotes(tasks, n, j))
    ensures TasksKnown(tasks, n, s)
  {
    hide Perform, TaskHolds, TaskNotes, Faithful;
    if n > 0 {
      PerformSound(env, ev, j, s, tasks[n - 1], Each(env, ev, tasks, n - 1, acc));
      EachSound(env, ev, j, s, tasks, n - 1, acc);
    }
  }

  lemma {:induction false} ProbeSound(env: Env, ev: Eval, j: Judge, s: Claim, targets: seq<Target>, cost: nat,
                                      n: nat, used: Used)
    requires n <= |targets| && Faithful(ev, j, s)
    requires var r := Probe(env, ev, targets, cost, n, used); r.Probed? && !r.cycle
    ensures forall i :: 0 <= i < n ==>
      && s(targets[i].doc, targets[i].id)
      && Probe(env, ev, targets, cost, n, used).verdicts[i] == j(targets[i].doc, targets[i].id)
  {
    if n > 0 {
      ProbeSound(env, ev, j, s, targets, cost, n - 1, used);
      var before := Probe(env, ev, targets, cost, n - 1, used);
      var charged := Charge(env, before.used, cost).value;
      assert Right(ev(targets[n - 1], charged), targets[n - 1], j, s);
    }
  }

  // ---- Each keyword group ----

  // Marks of n tasks that only mark.
  lemma {:induction false} MarksAre(tasks: seq<Task>, n: nat, j: Judge, first: nat)
    requires n <= |tasks|
    requires forall i :: 0 <= i < n ==> tasks[i].Apply? && !tasks[i].merge && tasks[i].notes == Notes({}, {first + i})
    ensures TasksNotes(tasks, n, j).props == {}
    ensures forall i: nat :: i in TasksNotes(tasks, n, j).items <==> first <= i < first + n
  {
    if n > 0 {
      MarksAre(tasks, n - 1, j, first);
    }
  }

  lemma ItemsSound(env: Env, ev: Eval, j: Judge, s: Claim, kw: Keywords, at: Path, doc: Doc, acc: Run)
    requires Faithful(ev, j, s)
    requires Clean(EachOf(env, ev, ItemTasks(kw, at, doc), EachOf(env, ev, PrefixTasks(kw, at, doc), acc)))
    ensures Adds(acc, EachOf(env, ev, ItemTasks(kw, at, doc), EachOf(env, ev, PrefixTasks(kw, at, doc), acc)),
                 OnItems(kw, doc, Accepted(j)), ItemNotes(kw, doc))
    ensures OnItems(kw, doc, s)
  {
    var prefix, items := PrefixTasks(kw, at, doc), ItemTasks(kw, at, doc);
    EachSound(env, ev, j, s, items, |items|, EachOf(env, ev, prefix, acc));
    EachSound(env, ev, j, s, prefix, |prefix|, acc);
    ItemTasksMean(kw, at, doc, j, s);
  }

  lemma ItemTasksMean(kw: Keywords, at: Path, doc: Doc, j: Judge, s: Claim)
    ensures var prefix, items := PrefixTasks(kw, at, doc), ItemTasks(kw, at, doc);
            && (TasksHold(prefix, |prefix|, j) && TasksHold(items, |items|, j) <==> OnItems(kw, doc, Accepted(j)))
            && (TasksKnown(prefix, |prefix|, s) && TasksKnown(items, |items|, s) ==> OnItems(kw, doc, s))
            && Merge(TasksNotes(prefix, |prefix|, j), TasksNotes(items, |items|, j)) == ItemNotes(kw, doc)
  {
    var prefix, items := PrefixTasks(kw, at, doc), ItemTasks(kw, at, doc);
    if doc.List? {
      var count := PrefixCount(kw, doc);
      ItemTaskAt(kw, at, doc);
      MarksAre(prefix, |prefix|, j, 0);
      MarksAre(items, |items|, j, count);
      assert Merge(TasksNotes(prefix, |prefix|, j), TasksNotes(items, |items|, j)).items == ItemNotes(kw, doc).items;
      ItemClaims(kw, at, doc, Accepted(j));
      ItemClaims(kw, at, doc, s);
    }
  }

  lemma ItemTaskAt(kw: Keywords, at: Path, doc: Doc)
    requires doc.List?
    ensures |PrefixTasks(kw, at, doc)| == PrefixCount(kw, doc)
    ensures |ItemTasks(kw, at, doc)| == if kw.items.Some? then |doc.items| - PrefixCount(kw, doc) else 0
    ensures forall i :: 0 <= i < |PrefixTasks(kw, at, doc)| ==>
      PrefixTasks(kw, at, doc)[i] == ElementTask(at, doc, i, kw.prefixItems[i])
    ensures forall i :: 0 <= i < |ItemTasks(kw, at, doc)| ==>
      ItemTasks(kw, at, doc)[i] == ElementTask(at, doc, PrefixCount(kw, doc) + i, kw.items.value)
  {
  }

  lemma ItemClaims(kw: Keywords, at: Path, doc: Doc, p: Claim)
    requires doc.List?
    ensures var prefix, items := PrefixTasks(kw, at, doc), ItemTasks(kw, at, doc);
            (TasksKnown(prefix, |prefix|, p) && TasksKnown(items, |items|, p)) <==> OnItems(kw, doc, p)
  {
    var prefix, items := PrefixTasks(kw, at, doc), ItemTasks(kw, at, doc);
    ItemTaskAt(kw, at, doc);
    var count := PrefixCount(kw, doc);
    if OnItems(kw, doc, p) {
    } else {
      var i :| 0 <= i < |doc.items| && !((i < |kw.prefixItems| ==> p(doc.items[i], kw.prefixItems[i]))
        && (|kw.prefixItems| <= i && kw.items.Some? ==> p(doc.items[i], kw.items.value)));
      if i < |kw.prefixItems| {
        assert prefix[i].target.doc == doc.items[i];
      } else {
        assert items[i - count].target.doc == doc.items[i];
      }
    }
  }

  lemma ContainsProbes(env: Env, ev: Eval, j: Judge, s: Claim, kw: Keywords, at: Path, doc: Doc, used: Used)
    requires Faithful(ev, j, s) && doc.List? && kw.contains.Some?
    requires var r := ProbeAll(env, ev, ContainsTargets(kw, at, doc), 1, used); r.Probed? && !r.cycle
    ensures OnContains(kw, doc, s)
    ensures var r := ProbeAll(env, ev, ContainsTargets(kw, at, doc), 1, used);
            Hits(r.verdicts, |r.verdicts|) == Matching(kw, doc, j)
  {
    var targets := ContainsTargets(kw, at, doc);
    ProbeSound(env, ev, j, s, targets, 1, |targets|, used);
    hide Faithful;
    assert forall i :: 0 <= i < |targets| ==> targets[i].doc == doc.items[i] && targets[i].id == kw.contains.value;
  }

  lemma ContainsSound(env: Env, ev: Eval, j: Judge, s: Claim, kw: Keywords, at: Path, doc: Doc, acc: Run)
    requires Faithful(ev, j, s) && Clean(ContainsKeyword(env, ev, kw, at, doc, acc))
    ensures Adds(acc, ContainsKeyword(env, ev, kw, at, doc, acc), ContainsHolds(kw, doc, j), ContainsNotes(kw, doc, j))
    ensures OnContains(kw, doc, s)
  {
    hide Faithful, ProbeAll, Hits, ContainsTargets;
    if doc.List? && kw.contains.Some? {
      ContainsProbes(env, ev, j, s, kw, at, doc, acc.used);
    } else {
      assert Merge(acc.notes, NO_NOTES) == acc.notes;
    }
  }

  // ---- Members ----

  lemma PropertiesMean(kw: Keywords, at: Path, doc: Doc, p: Claim)
    requires doc.Dict?
    ensures var tasks := PropertyTasks(kw, at, doc);
            TasksKnown(tasks, |tasks|, p) <==> OnProperties(kw, doc, p)
  {
    var tasks := PropertyTasks(kw, at, doc);
    assert forall n :: 0 <= n < |tasks| ==> tasks[n] == PropertyTask(at, doc, kw.properties[n]);
    if TasksKnown(tasks, |tasks|, p) {
      forall n | 0 <= n < |kw.properties| && IndexOf(doc.fields, kw.properties[n].key) < |doc.fields|
        ensures p(doc.fields[IndexOf(doc.fields, kw.properties[n].key)].value, kw.properties[n].schema)
      {
        assert tasks[n].Apply?;
      }
    }
  }

  // One of the first n entries of properties has this key.
  ghost predicate NamedBefore(kw: Keywords, n: nat, key: Bytes)
    requires n <= |kw.properties|
  {
    exists i :: 0 <= i < n && kw.properties[i].key == key
  }

  lemma NamedMore(kw: Keywords, n: nat, key: Bytes)
    requires 0 < n <= |kw.properties|
    ensures NamedBefore(kw, n, key) <==> NamedBefore(kw, n - 1, key) || kw.properties[n - 1].key == key
  {
  }

  lemma PropertyMark(kw: Keywords, at: Path, doc: Doc, n: nat, j: Judge)
    requires doc.Dict? && n < |kw.properties| == |PropertyTasks(kw, at, doc)|
    ensures var key := kw.properties[n].key;
            TaskNotes(PropertyTasks(kw, at, doc)[n], j) == Notes(if key in Names(doc.fields) then {key} else {}, {})
  {
    var key := kw.properties[n].key;
    var found := IndexOf(doc.fields, key);
    assert found < |doc.fields| ==> doc.fields[found].key in Names(doc.fields);
  }

  lemma {:induction false} PropertyMarks(kw: Keywords, at: Path, doc: Doc, n: nat, j: Judge)
    requires doc.Dict? && n <= |PropertyTasks(kw, at, doc)| == |kw.properties|
    ensures TasksNotes(PropertyTasks(kw, at, doc), n, j).items == {}
    ensures forall key :: key in TasksNotes(PropertyTasks(kw, at, doc), n, j).props <==>
      key in Names(doc.fields) && NamedBefore(kw, n, key)
  {
    hide PropertyTasks, PropertyTask, TaskNotes, IndexOf, Names;
    if n > 0 {
      hide NamedBefore;
      PropertyMarks(kw, at, doc, n - 1, j);
      PropertyMark(kw, at, doc, n - 1, j);
      forall key
        ensures NamedBefore(kw, n, key) <==> NamedBefore(kw, n - 1, key) || kw.properties[n - 1].key == key
      {
        NamedMore(kw, n, key);
      }
    }
  }

  lemma PropertiesHold(kw: Keywords, at: Path, doc: Doc, j: Judge)
    requires doc.Dict?
    ensures var tasks := PropertyTasks(kw, at, doc);
            TasksHold(tasks, |tasks|, j) <==> TasksKnown(tasks, |tasks|, Accepted(j))
  {
    var tasks := PropertyTasks(kw, at, doc);
    assert forall i :: 0 <= i < |tasks| ==> tasks[i] == PropertyTask(at, doc, kw.properties[i]);
    assert forall i :: 0 <= i < |tasks| && !tasks[i].Apply? ==> TaskHolds(tasks[i], j);
  }

  lemma PropertyTasksMean(kw: Keywords, at: Path, doc: Doc, j: Judge, s: Claim)
    ensures var tasks := PropertyTasks(kw, at, doc);
            && (TasksHold(tasks, |tasks|, j) <==> OnProperties(kw, doc, Accepted(j)))
            && (TasksKnown(tasks, |tasks|, s) <==> OnProperties(kw, doc, s))
            && TasksNotes(tasks, |tasks|, j) == MemberNotes(kw.(additional := None), doc)
  {
    if doc.Dict? {
      var tasks := PropertyTasks(kw, at, doc);
      PropertiesMean(kw, at, doc, Accepted(j));
      PropertiesMean(kw, at, doc, s);
      hide OnProperties, TasksHold, TasksKnown, PropertyTasks, IndexOf, Names, PropertyTask;
      PropertiesHold(kw, at, doc, j);
      PropertyCount(kw, at, doc);
      PropertyMarks(kw, at, doc, |tasks|, j);
      var declared := Declared(kw);
      assert forall key :: key in declared <==> NamedBefore(kw, |tasks|, key);
      assert TasksNotes(tasks, |tasks|, j).props == Names(doc.fields) * declared;
    }
  }

  lemma PropertyCount(kw: Keywords, at: Path, doc: Doc)
    requires doc.Dict?
    ensures |PropertyTasks(kw, at, doc)| == |kw.properties|
  {
  }

  lemma PropertiesSound(env: Env, ev: Eval, j: Judge, s: Claim, kw: Keywords, at: Path, doc: Doc, acc: Run)
    requires Faithful(ev, j, s) && Clean(EachOf(env, ev, PropertyTasks(kw, at, doc), acc))
    ensures Adds(acc, EachOf(env, ev, PropertyTasks(kw, at, doc), acc), OnProperties(kw, doc, Accepted(j)),
                 MemberNotes(kw.(additional := None), doc))
    ensures OnProperties(kw, doc, s)
  {
    hide OnProperties, TasksHold, TasksKnown, PropertyTasks, Faithful, TasksNotes, MemberNotes, Each;
    var tasks := PropertyTasks(kw, at, doc);
    EachSound(env, ev, j, s, tasks, |tasks|, acc);
    PropertyTasksMean(kw, at, doc, j, s);
  }

  // A boolean schema is judged the same at every depth.
  ghost predicate PlainBooleans(table: Table, j: Judge, s: Claim) {
    forall d: Doc, i: nat :: table(i).Boolean? ==> s(d, i) && j(d, i) == Verdict(table(i).accepts, NO_NOTES)
  }

  lemma AdditionalMean(env: Env, kw: Keywords, at: Path, doc: Doc, j: Judge, s: Claim)
    requires doc.Dict? && kw.additional.Some? && PlainBooleans(env.table, j, s)
    ensures var tasks := AdditionalTasks(env.table, kw, at, doc);
            && (TasksHold(tasks, |tasks|, j) <==> OnAdditional(kw, doc, Accepted(j)))
            && (TasksKnown(tasks, |tasks|, s) <==> OnAdditional(kw, doc, s))
  {
    var tasks := AdditionalTasks(env.table, kw, at, doc);
    assert forall i :: 0 <= i < |tasks| ==> tasks[i] == AdditionalTask(env.table, kw, at, doc, i);
    assert forall i :: 0 <= i < |tasks| && doc.fields[i].key !in Declared(kw) ==>
      && (TaskHolds(tasks[i], j) <==> j(doc.fields[i].value, kw.additional.value).valid)
      && (tasks[i].Apply? || s(doc.fields[i].value, kw.additional.value));
  }

  lemma {:induction false} AdditionalMarks(table: Table, kw: Keywords, at: Path, doc: Doc, n: nat, j: Judge)
    requires doc.Dict? && kw.additional.Some? && n <= |doc.fields|
    ensures n <= |AdditionalTasks(table, kw, at, doc)|
    ensures var notes := TasksNotes(AdditionalTasks(table, kw, at, doc), n, j);
            && notes.items == {} && notes.props <= Names(doc.fields) - Declared(kw)
            && forall i :: 0 <= i < n ==> doc.fields[i].key in Declared(kw) || doc.fields[i].key in notes.props
  {
    hide Declared;
    if n > 0 {
      AdditionalMarks(table, kw, at, doc, n - 1, j);
      assert AdditionalTasks(table, kw, at, doc)[n - 1] == AdditionalTask(table, kw, at, doc, n - 1);
      assert doc.fields[n - 1].key in Names(doc.fields);
    }
  }

  lemma AdditionalTasksMean(env: Env, kw: Keywords, at: Path, doc: Doc, j: Judge, s: Claim)
    requires PlainBooleans(env.table, j, s)
    ensures var tasks := AdditionalTasks(env.table, kw, at, doc);
            && (TasksHold(tasks, |tasks|, j) <==> OnAdditional(kw, doc, Accepted(j)))
            && (TasksKnown(tasks, |tasks|, s) <==> OnAdditional(kw, doc, s))
            && Merge(MemberNotes(kw.(additional := None), doc), TasksNotes(tasks, |tasks|, j)) == MemberNotes(kw, doc)
  {
    if doc.Dict? && kw.additional.Some? {
      var tasks := AdditionalTasks(env.table, kw, at, doc);
      AdditionalMean(env, kw, at, doc, j, s);
      hide OnAdditional, TasksHold, TasksKnown, PlainBooleans, AdditionalTask;
      AdditionalMarks(env.table, kw, at, doc, |doc.fields|, j);
      var props, declared := TasksNotes(tasks, |tasks|, j).props, Declared(kw);
      assert forall key :: key in Names(doc.fields) && key !in declared ==> key in props;
      assert props == Names(doc.fields) - declared;
    }
  }

  lemma MembersSound(env: Env, ev: Eval, j: Judge, s: Claim, kw: Keywords, at: Path, doc: Doc, acc: Run)
    requires Faithful(ev, j, s) && PlainBooleans(env.table, j, s) && Clean(ObjectKeywords(env, ev, kw, at, doc, acc))
    ensures Adds(acc, ObjectKeywords(env, ev, kw, at, doc, acc), OnMembers(kw, doc, Accepted(j)), MemberNotes(kw, doc))
    ensures OnMembers(kw, doc, s)
  {
    hide OnProperties, OnAdditional, TasksHold, TasksKnown, PropertyTasks, AdditionalTasks, Faithful, TasksNotes;
    hide MemberNotes, Each, PlainBooleans;
    var tasks := AdditionalTasks(env.table, kw, at, doc);
    EachSound(env, ev, j, s, tasks, |tasks|, EachOf(env, ev, PropertyTasks(kw, at, doc), acc));
    PropertiesSound(env, ev, j, s, kw, at, doc, acc);
    AdditionalTasksMean(env, kw, at, doc, j, s);
  }

  // ---- Combinators ----

  lemma ConditionalSound(env: Env, ev: Eval, j: Judge, s: Claim, kw: Keywords, at: Path, doc: Doc, acc: Run)
    requires Faithful(ev, j, s) && Clean(ConditionalKeyword(env, ev, kw, at, doc, acc))
    ensures Adds(acc, ConditionalKeyword(env, ev, kw, at, doc, acc), ConditionHolds(kw, doc, j),
                 ConditionNotes(kw, doc, j))
    ensures ConditionConsulted(kw, doc, j, s)
  {
    if kw.condition.Some? {
      var targets := [Target(at, doc, kw.condition.value)];
      var probes := ProbeAll(env, ev, targets, 0, acc.used);
      var next := Resume(acc, probes, true, Collected(probes.verdicts[0]));
      var branch := Branch(kw, probes.verdicts[0].valid);
      if branch.Some? {
        var here := [Here(at, doc, branch.value)];
        EachSound(env, ev, j, s, here, 1, next);
        assert TasksNotes(here, 1, j) == Merge(TasksNotes(here, 0, j), TaskNotes(here[0], j));
        assert TasksHold(here, 1, j) == TaskHolds(here[0], j);
      }
      ProbeSound(env, ev, j, s, targets, 0, 1, acc.used);
      assert targets[0].doc == doc;
    }
  }

  lemma {:induction false} HitNotesAre(ids: seq<nat>, n: nat, doc: Doc, j: Judge, verdicts: seq<Verdict>)
    requires n <= |ids| == |verdicts|
    requires forall i :: 0 <= i < |ids| ==> verdicts[i] == j(doc, ids[i])
    ensures HitNotes(verdicts, n) == Gather(ids, n, doc, j)
  {
    if n > 0 {
      HitNotesAre(ids, n - 1, doc, j, verdicts);
    }
  }

  lemma BranchesSound(env: Env, ev: Eval, j: Judge, s: Claim, ids: seq<nat>, at: Path, doc: Doc, used: Used)
    requires Faithful(ev, j, s)
    requires var r := ProbeAll(env, ev, Branches(ids, at, doc), 1, used); r.Probed? && !r.cycle
    ensures OnAll(ids, doc, s)
    ensures var r := ProbeAll(env, ev, Branches(ids, at, doc), 1, used);
            && |r.verdicts| == |ids|
            && Hits(r.verdicts, |r.verdicts|) == Passing(ids, doc, j)
            && HitNotes(r.verdicts, |r.verdicts|) == Gather(ids, |ids|, doc, j)
  {
    var targets := Branches(ids, at, doc);
    ProbeSound(env, ev, j, s, targets, 1, |targets|, used);
    assert forall i :: 0 <= i < |ids| ==> targets[i].doc == doc && targets[i].id == ids[i];
    HitNotesAre(ids, |ids|, doc, j, ProbeAll(env, ev, targets, 1, used).verdicts);
  }

  lemma AnySound(env: Env, ev: Eval, j: Judge, s: Claim, kw: Keywords, at: Path, doc: Doc, acc: Run)
    requires Faithful(ev, j, s) && Clean(AnyOfKeyword(env, ev, kw, at, doc, acc))
    ensures Adds(acc, AnyOfKeyword(env, ev, kw, at, doc, acc), AnyHolds(kw, doc, j),
                 Gather(Alternatives(kw.anyOf), |Alternatives(kw.anyOf)|, doc, j))
    ensures OnAll(Alternatives(kw.anyOf), doc, s)
  {
    if kw.anyOf.Some? {
      BranchesSound(env, ev, j, s, kw.anyOf.value, at, doc, acc.used);
      var passing := Passing(kw.anyOf.value, doc, j);
      assert AnyHolds(kw, doc, j) <==> passing != {} by {
        if AnyHolds(kw, doc, j) {
          var i :| 0 <= i < |kw.anyOf.value| && j(doc, kw.anyOf.value[i]).valid;
          assert i in passing;
        } else {
          assert forall i :: i !in passing;
        }
      }
    }
  }

  lemma OneSound(env: Env, ev: Eval, j: Judge, s: Claim, kw: Keywords, at: Path, doc: Doc, acc: Run)
    requires Faithful(ev, j, s) && Clean(OneOfKeyword(env, ev, kw, at, doc, acc))
    ensures Adds(acc, OneOfKeyword(env, ev, kw, at, doc, acc), OneHolds(kw, doc, j), OneNotes(kw, doc, j))
    ensures OnAll(Alternatives(kw.oneOf), doc, s)
  {
    if kw.oneOf.Some? {
      BranchesSound(env, ev, j, s, kw.oneOf.value, at, doc, acc.used);
    }
  }

  lemma NotSound(env: Env, ev: Eval, j: Judge, s: Claim, kw: Keywords, at: Path, doc: Doc, acc: Run)
    requires Faithful(ev, j, s) && Clean(NotKeyword(env, ev, kw, at, doc, acc))
    ensures Adds(acc, NotKeyword(env, ev, kw, at, doc, acc), NotHolds(kw, doc, j), NO_NOTES)
    ensures kw.negated.Some? ==> s(doc, kw.negated.value)
  {
    if kw.negated.Some? {
      var targets := [Target(at, doc, kw.negated.value)];
      ProbeSound(env, ev, j, s, targets, 0, 1, acc.used);
      assert targets[0].doc == doc;
    }
  }

  lemma {:induction false} AllNotes(kw: Keywords, at: Path, doc: Doc, n: nat, j: Judge)
    requires n <= |kw.allOf|
    ensures TasksNotes(AllOfTasks(kw, at, doc), n, j) == Gather(kw.allOf, n, doc, j)
  {
    if n > 0 {
      AllNotes(kw, at, doc, n - 1, j);
    }
  }

  lemma AllSound(env: Env, ev: Eval, j: Judge, s: Claim, kw: Keywords, at: Path, doc: Doc, acc: Run)
    requires Faithful(ev, j, s) && Clean(EachOf(env, ev, AllOfTasks(kw, at, doc), acc))
    ensures Adds(acc, EachOf(env, ev, AllOfTasks(kw, at, doc), acc), OnAll(kw.allOf, doc, Accepted(j)),
                 Gather(kw.allOf, |kw.allOf|, doc, j))
    ensures OnAll(kw.allOf, doc, s)
  {
    var tasks := AllOfTasks(kw, at, doc);
    EachSound(env, ev, j, s, tasks, |tasks|, acc);
    AllNotes(kw, at, doc, |tasks|, j);
    assert forall i :: 0 <= i < |tasks| ==> tasks[i].target.doc == doc && tasks[i].target.id == kw.allOf[i];
    if TasksHold(tasks, |tasks|, j) {
      assert forall i :: 0 <= i < |kw.allOf| ==> TaskHolds(tasks[i], j);
    }
  }

  // ---- Assertions and unevaluated children ----

  lemma {:induction false} AssertionsSound(env: Env, rules: seq<Assertion>, n: nat, doc: Doc, acc: Run)
    requires n <= |rules| && Clean(SchemaRun.Assertions(env, rules, n, doc, acc))
    ensures Adds(acc, SchemaRun.Assertions(env, rules, n, doc, acc), forall i :: 0 <= i < n ==> rules[i].holds(doc),
                 NO_NOTES)
  {
    if n > 0 {
      AssertionsSound(env, rules, n - 1, doc, acc);
    } else {
      assert Merge(acc.notes, NO_NOTES) == acc.notes;
    }
  }

  lemma LeftoverMeans(table: Table, target: Target, mark: Notes, j: Judge, s: Claim)
    requires PlainBooleans(table, j, s)
    ensures var task := Leftover(table, target, mark);
            && (TaskHolds(task, j) <==> j(target.doc, target.id).valid)
            && (task.Apply? ==> task.target == target && !task.merge)
            && (!task.Apply? ==> s(target.doc, target.id))
            && task.notes == mark
  {
  }

  lemma LeftoverMembers(table: Table, kw: Keywords, at: Path, doc: Doc, seen: Notes, j: Judge, s: Claim)
    requires PlainBooleans(table, j, s)
    ensures var tasks := UnevaluatedPropertyTasks(table, kw, at, doc, seen);
            doc.Dict? ==>
              && (TasksHold(tasks, |tasks|, j) <==> OnUnevaluated(kw, doc, seen, Accepted(j)))
              && (TasksKnown(tasks, |tasks|, s) <==> OnUnevaluated(kw, doc, seen, s))
  {
    if doc.Dict? && kw.unevaluatedProperties.Some? {
      var tasks := UnevaluatedPropertyTasks(table, kw, at, doc, seen);
      forall i | 0 <= i < |doc.fields| && doc.fields[i].key !in seen.props
        ensures TaskHolds(tasks[i], j) <==> j(doc.fields[i].value, kw.unevaluatedProperties.value).valid
        ensures !tasks[i].Apply? ==> s(doc.fields[i].value, kw.unevaluatedProperties.value)
        ensures tasks[i].Apply? ==> tasks[i].target == AtField(at, doc, i, kw.unevaluatedProperties.value)
      {
        var target := AtField(at, doc, i, kw.unevaluatedProperties.value);
        LeftoverMeans(table, target, Notes({doc.fields[i].key}, {}), j, s);
      }
      assert forall i :: 0 <= i < |tasks| ==> tasks[i] == UnevaluatedPropertyTask(table, kw, at, doc, seen, i);
    }
  }

  lemma LeftoverItems(table: Table, kw: Keywords, at: Path, doc: Doc, seen: Notes, j: Judge, s: Claim)
    requires PlainBooleans(table, j, s)
    ensures var tasks := UnevaluatedItemTasks(table, kw, at, doc, seen);
            doc.List? ==>
              && (TasksHold(tasks, |tasks|, j) <==> OnUnevaluated(kw, doc, seen, Accepted(j)))
              && (TasksKnown(tasks, |tasks|, s) <==> OnUnevaluated(kw, doc, seen, s))
  {
    if doc.List? && kw.unevaluatedItems.Some? {
      var tasks := UnevaluatedItemTasks(table, kw, at, doc, seen);
      forall i: nat | i < |doc.items| && i !in seen.items
        ensures TaskHolds(tasks[i], j) <==> j(doc.items[i], kw.unevaluatedItems.value).valid
        ensures !tasks[i].Apply? ==> s(doc.items[i], kw.unevaluatedItems.value)
        ensures tasks[i].Apply? ==> tasks[i].target == AtElement(at, doc, i, kw.unevaluatedItems.value)
      {
        LeftoverMeans(table, AtElement(at, doc, i, kw.unevaluatedItems.value), Notes({}, {i}), j, s);
      }
      assert forall i :: 0 <= i < |tasks| ==> tasks[i] == UnevaluatedItemTask(table, kw, at, doc, seen, i);
    }
  }

  lemma {:induction false} LeftoverMemberMarks(table: Table, kw: Keywords, at: Path, doc: Doc, seen: Notes, n: nat,
                                               j: Judge)
    requires doc.Dict? && kw.unevaluatedProperties.Some? && n <= |doc.fields|
    ensures n <= |UnevaluatedPropertyTasks(table, kw, at, doc, seen)|
    ensures var notes := TasksNotes(UnevaluatedPropertyTasks(table, kw, at, doc, seen), n, j);
            && notes.items == {} && notes.props <= Names(doc.fields)
            && forall i :: 0 <= i < n ==> doc.fields[i].key in seen.props || doc.fields[i].key in notes.props
  {
    if n > 0 {
      LeftoverMemberMarks(table, kw, at, doc, seen, n - 1, j);
      assert UnevaluatedPropertyTasks(table, kw, at, doc, seen)[n - 1]
          == UnevaluatedPropertyTask(table, kw, at, doc, seen, n - 1);
      assert doc.fields[n - 1].key in Names(doc.fields);
    }
  }

  lemma {:induction false} LeftoverItemMarks(table: Table, kw: Keywords, at: Path, doc: Doc, seen: Notes, n: nat,
                                             j: Judge)
    requires doc.List? && kw.unevaluatedItems.Some? && n <= |doc.items|
    ensures n <= |UnevaluatedItemTasks(table, kw, at, doc, seen)|
    ensures var notes := TasksNotes(UnevaluatedItemTasks(table, kw, at, doc, seen), n, j);
            && notes.props == {}
            && forall i: nat :: i in seen.items || i in notes.items <==> i in seen.items || i < n
  {
    if n > 0 {
      LeftoverItemMarks(table, kw, at, doc, seen, n - 1, j);
      assert UnevaluatedItemTasks(table, kw, at, doc, seen)[n - 1]
          == UnevaluatedItemTask(table, kw, at, doc, seen, n - 1);
    }
  }

  lemma LeftoverNotes(table: Table, kw: Keywords, at: Path, doc: Doc, seen: Notes, j: Judge)
    ensures var props, items := UnevaluatedPropertyTasks(table, kw, at, doc, seen),
                                UnevaluatedItemTasks(table, kw, at, doc, seen);
            && (doc.Dict? ==> Merge(seen, TasksNotes(props, |props|, j)) == Merge(seen, UnevaluatedNotes(kw, doc)))
            && (doc.List? ==> Merge(seen, TasksNotes(items, |items|, j)) == Merge(seen, UnevaluatedNotes(kw, doc)))
  {
    if doc.Dict? && kw.unevaluatedProperties.Some? {
      LeftoverMemberMarks(table, kw, at, doc, seen, |doc.fields|, j);
      var props := UnevaluatedPropertyTasks(table, kw, at, doc, seen);
      assert |props| == |doc.fields|;
      var notes := TasksNotes(props, |props|, j);
      assert seen.props + notes.props == seen.props + Names(doc.fields);
    }
    if doc.List? && kw.unevaluatedItems.Some? {
      LeftoverItemMarks(table, kw, at, doc, seen, |doc.items|, j);
      var items := UnevaluatedItemTasks(table, kw, at, doc, seen);
      assert |items| == |doc.items|;
      assert seen.items + TasksNotes(items, |items|, j).items == seen.items + Below(|doc.items|);
    }
  }

  lemma UnevaluatedSound(env: Env, ev: Eval, j: Judge, s: Claim, kw: Keywords, at: Path, doc: Doc, acc: Run)
    requires Faithful(ev, j, s) && PlainBooleans(env.table, j, s)
    requires Clean(UnevaluatedKeywords(env, ev, kw, at, doc, acc))
    ensures Clean(acc)
    ensures Adds(acc, UnevaluatedKeywords(env, ev, kw, at, doc, acc), OnUnevaluated(kw, doc, acc.notes, Accepted(j)),
                 UnevaluatedNotes(kw, doc))
    ensures OnUnevaluated(kw, doc, acc.notes, s)
  {
    hide Faithful, PlainBooleans, Each, UnevaluatedPropertyTask, UnevaluatedItemTask, TasksHold, TasksKnown, TasksNotes;
    var props := UnevaluatedPropertyTasks(env.table, kw, at, doc, NotesOf(acc));
    var middle := EachOf(env, ev, props, acc);
    var items := UnevaluatedItemTasks(env.table, kw, at, doc, NotesOf(middle));
    EachSound(env, ev, j, s, items, |items|, middle);
    EachSound(env, ev, j, s, props, |props|, acc);
    LeftoverMembers(env.table, kw, at, doc, acc.notes, j, s);
    LeftoverNotes(env.table, kw, at, doc, acc.notes, j);
    NoTasks(props, j);
    NoTasks(items, j);
    LeftoverItems(env.table, kw, at, doc, middle.notes, j, s);
    LeftoverNotes(env.table, kw, at, doc, middle.notes, j);
  }

  lemma NoTasks(tasks: seq<Task>, j: Judge)
    ensures tasks == [] ==> TasksHold(tasks, |tasks|, j) && TasksNotes(tasks, |tasks|, j) == NO_NOTES
  {
  }

  // ---- A whole schema object ----

  lemma ArraySound(env: Env, ev: Eval, j: Judge, s: Claim, kw: Keywords, at: Path, doc: Doc, acc: Run)
    requires Faithful(ev, j, s) && Clean(ArrayKeywords(env, ev, kw, at, doc, acc))
    ensures Adds(acc, ArrayKeywords(env, ev, kw, at, doc, acc),
                 OnItems(kw, doc, Accepted(j)) && ContainsHolds(kw, doc, j),
                 Merge(ItemNotes(kw, doc), ContainsNotes(kw, doc, j)))
    ensures OnItems(kw, doc, s) && OnContains(kw, doc, s)
  {
    hide Faithful, EachOf, ContainsKeyword, OnItems, OnContains, ContainsHolds, ItemNotes, ContainsNotes;
    var items := EachOf(env, ev, ItemTasks(kw, at, doc), EachOf(env, ev, PrefixTasks(kw, at, doc), acc));
    ContainsSound(env, ev, j, s, kw, at, doc, items);
    ItemsSound(env, ev, j, s, kw, at, doc, acc);
  }

  ghost predicate LogicHolds(kw: Keywords, doc: Doc, j: Judge) {
    OnAll(kw.allOf, doc, Accepted(j)) && AnyHolds(kw, doc, j) && OneHolds(kw, doc, j) && NotHolds(kw, doc, j)
  }

  function LogicNotes(kw: Keywords, doc: Doc, j: Judge, before: Notes): Notes {
    var all := Merge(before, Gather(kw.allOf, |kw.allOf|, doc, j));
    var any := Merge(all, Gather(Alternatives(kw.anyOf), |Alternatives(kw.anyOf)|, doc, j));
    Merge(any, OneNotes(kw, doc, j))
  }

  lemma LogicSound(env: Env, ev: Eval, j: Judge, s: Claim, kw: Keywords, at: Path, doc: Doc, acc: Run)
    requires Faithful(ev, j, s) && Clean(LogicKeywords(env, ev, kw, at, doc, acc))
    ensures Clean(acc)
    ensures var r := LogicKeywords(env, ev, kw, at, doc, acc);
            r.valid == (acc.valid && LogicHolds(kw, doc, j)) && r.notes == LogicNotes(kw, doc, j, acc.notes)
    ensures OnAll(kw.allOf, doc, s) && OnAll(Alternatives(kw.anyOf), doc, s) && OnAll(Alternatives(kw.oneOf), doc, s)
    ensures kw.negated.Some? ==> s(doc, kw.negated.value)
  {
    hide Faithful, EachOf, AnyOfKeyword, OneOfKeyword, NotKeyword, OnAll, AnyHolds, OneHolds, NotHolds, OneNotes;
    hide Gather;
    var all := EachOf(env, ev, AllOfTasks(kw, at, doc), acc);
    var any := AnyOfKeyword(env, ev, kw, at, doc, all);
    NotSound(env, ev, j, s, kw, at, doc, OneOfKeyword(env, ev, kw, at, doc, any));
    OneSound(env, ev, j, s, kw, at, doc, any);
    AnySound(env, ev, j, s, kw, at, doc, all);
    AllSound(env, ev, j, s, kw, at, doc, acc);
  }

  lemma AppliedSound(env: Env, ev: Eval, j: Judge, s: Claim, kw: Keywords, at: Path, doc: Doc, acc: Run)
    requires Faithful(ev, j, s) && PlainBooleans(env.table, j, s) && Clean(Applied(env, ev, kw, at, doc, acc))
    ensures Clean(acc)
    ensures acc.valid == (kw.ref.To? ==> j(doc, kw.ref.target).valid) ==>
      Applied(env, ev, kw, at, doc, acc).valid == EvaluatedHold(kw, doc, j)
    ensures acc.notes == RefNotes(kw, doc, j) ==> Applied(env, ev, kw, at, doc, acc).notes == Evaluated(kw, doc, j)
    ensures OnItems(kw, doc, s) && OnContains(kw, doc, s) && OnMembers(kw, doc, s) && ConditionConsulted(kw, doc, j, s)
    ensures OnAll(kw.allOf, doc, s) && OnAll(Alternatives(kw.anyOf), doc, s) && OnAll(Alternatives(kw.oneOf), doc, s)
    ensures kw.negated.Some? ==> s(doc, kw.negated.value)
  {
    hide Faithful, PlainBooleans, SchemaRun.Assertions, ArrayKeywords, ObjectKeywords, ConditionalKeyword;
    hide LogicKeywords, OnItems, OnContains, OnMembers, ContainsHolds, ConditionHolds, OnAll;
    hide AnyHolds, OneHolds, NotHolds, ItemNotes, ContainsNotes, MemberNotes, ConditionNotes, OneNotes;
    hide Gather, RefNotes, ConditionConsulted;
    var asserted := SchemaRun.Assertions(env, kw.assertions, |kw.assertions|, doc, acc);
    var elements := ArrayKeywords(env, ev, kw, at, doc, asserted);
    var members := ObjectKeywords(env, ev, kw, at, doc, elements);
    var conditional := ConditionalKeyword(env, ev, kw, at, doc, members);
    LogicSound(env, ev, j, s, kw, at, doc, conditional);
    ConditionalSound(env, ev, j, s, kw, at, doc, members);
    MembersSound(env, ev, j, s, kw, at, doc, elements);
    ArraySound(env, ev, j, s, kw, at, doc, asserted);
    AssertionsSound(env, kw.assertions, |kw.assertions|, doc, acc);
    MergeSplits(acc.notes, ItemNotes(kw, doc), ContainsNotes(kw, doc, j));
  }

  // What the runs of $ref and of the remaining keywords amount to.
  lemma RestSound(env: Env, ev: Eval, j: Judge, s: Claim, kw: Keywords, at: Path, doc: Doc, acc: Run)
    requires Faithful(ev, j, s) && PlainBooleans(env.table, j, s) && Clean(Rest(env, ev, kw, at, doc, acc))
    ensures Clean(acc)
    ensures var r := Rest(env, ev, kw, at, doc, acc);
            acc.valid == (kw.ref.To? ==> j(doc, kw.ref.target).valid) && acc.notes == RefNotes(kw, doc, j) ==>
              Verdict(r.valid, r.notes) == Rules(kw, doc, j)
    ensures (kw.ref.To? ==> s(doc, kw.ref.target)) && acc.notes == RefNotes(kw, doc, j) ==> Consulted(kw, doc, j, s)
  {
    hide Faithful, PlainBooleans, Applied, UnevaluatedKeywords, EvaluatedHold, Evaluated, UnevaluatedNotes, RefNotes;
    hide OnItems, OnContains, OnMembers, OnAll, OnUnevaluated, ConditionConsulted;
    UnevaluatedSound(env, ev, j, s, kw, at, doc, Applied(env, ev, kw, at, doc, acc));
    AppliedSound(env, ev, j, s, kw, at, doc, acc);
  }

  lemma MergeSplits(a: Notes, b: Notes, c: Notes)
    ensures Merge(Merge(a, NO_NOTES), Merge(b, c)) == Merge(Merge(a, b), c)
  {
  }

  // ---- The theorem ----

  lemma BooleansArePlain(table: Table, k: nat)
    ensures PlainBooleans(table, JudgeAt(table, k), SettledAt(table, k))
  {
  }

  lemma RefSound(env: Env, ev: Eval, j: Judge, s: Claim, kw: Keywords, at: Path, doc: Doc, next: Used)
    requires kw.ref.To? && Faithful(ev, j, s)
    requires Clean(EachOf(env, ev, [Here(at, doc, kw.ref.target)], Done(next, true, NO_NOTES, false)))
    ensures s(doc, kw.ref.target)
    ensures var acc := EachOf(env, ev, [Here(at, doc, kw.ref.target)], Done(next, true, NO_NOTES, false));
            acc.valid == j(doc, kw.ref.target).valid && acc.notes == RefNotes(kw, doc, j)
  {
    var here := [Here(at, doc, kw.ref.target)];
    EachSound(env, ev, j, s, here, 1, Done(next, true, NO_NOTES, false));
    assert TasksNotes(here, 1, j) == Merge(TasksNotes(here, 0, j), TaskNotes(here[0], j));
    assert TasksHold(here, 1, j) == TaskHolds(here[0], j);
  }

  // The evaluator a schema object's keywords run under: its own $ref, if it has
  // one, is on the stack.
  function Inside(env: Env, room: nat, active: seq<Active>, at: Path, kw: Keywords): Eval {
    Evaluator(env, room, if kw.ref.To? then active + [Active(at, kw.ref.target)] else active)
  }

  lemma BodyRules(env: Env, room: nat, active: seq<Active>, at: Path, doc: Doc, kw: Keywords, used: Used, j: Judge,
                  s: Claim)
    requires Faithful(Inside(env, room, active, at, kw), j, s) && PlainBooleans(env.table, j, s)
    requires Clean(Body(env, room, active, at, doc, kw, used)) && !kw.ref.Unresolved?
    ensures Consulted(kw, doc, j, s)
    ensures var r := Body(env, room, active, at, doc, kw, used); Verdict(r.valid, r.notes) == Rules(kw, doc, j)
  {
    hide Rest, Consulted, Rules, EachOf, Faithful, PlainBooleans, Evaluator;
    var ev := Inside(env, room, active, at, kw);
    if kw.ref.NoRef? {
      RestSound(env, ev, j, s, kw, at, doc, Done(used, true, NO_NOTES, false));
    } else {
      var resolved := Resolve(env, active, at, kw.ref, used);
      var acc := EachOf(env, ev, [Here(at, doc, resolved.target)], Done(resolved.used, true, NO_NOTES, false));
      RestSound(env, ev, j, s, kw, at, doc, acc);
      RefSound(env, ev, j, s, kw, at, doc, resolved.used);
    }
  }

  lemma UnrollKeywords(table: Table, k: nat, doc: Doc, id: nat)
    requires table(id).Object? && (table(id).kw.siblings || table(id).kw.ref.NoRef?)
    ensures var kw := table(id).kw;
            if kw.ref.Unresolved? then
              Settled(table, k + 1, doc, id) && Meaning(table, k + 1, doc, id) == Verdict(false, NO_NOTES)
            else
              && Settled(table, k + 1, doc, id) == Consulted(kw, doc, JudgeAt(table, k), SettledAt(table, k))
              && Meaning(table, k + 1, doc, id) == Rules(kw, doc, JudgeAt(table, k))
  {
    hide Consulted, Rules;
  }

  lemma {:induction false} BodySound(env: Env, room: nat, active: seq<Active>, at: Path, doc: Doc, id: nat, used: Used)
    requires env.table(id).Object? && (env.table(id).kw.siblings || env.table(id).kw.ref.NoRef?)
    requires Clean(Body(env, room, active, at, doc, env.table(id).kw, used))
    ensures Settled(env.table, room + 1, doc, id)
    ensures var r := Body(env, room, active, at, doc, env.table(id).kw, used);
            Verdict(r.valid, r.notes) == Meaning(env.table, room + 1, doc, id)
    decreases room, 2
  {
    hide Rest, Consulted, Rules, EachOf, Faithful, PlainBooleans, Settled, Meaning, Evaluator, JudgeAt, SettledAt;
    var kw := env.table(id).kw;
    UnrollKeywords(env.table, room, doc, id);
    if !kw.ref.Unresolved? {
      BooleansArePlain(env.table, room);
      EvaluatorFaithful(env, room, if kw.ref.To? then active + [Active(at, kw.ref.target)] else active);
      hide Body;
      BodyRules(env, room, active, at, doc, kw, used, JudgeAt(env.table, room), SettledAt(env.table, room));
    }
  }

  lemma {:induction false} ChainSound(env: Env, room: nat, active: seq<Active>, at: Path, doc: Doc, id: nat, used: Used)
    requires Clean(Chain(env, room, active, at, doc, id, used))
    ensures Settled(env.table, room + 1, doc, id)
    ensures var r := Chain(env, room, active, at, doc, id, used);
            Verdict(r.valid, r.notes) == Meaning(env.table, room + 1, doc, id)
    decreases room, 3
  {
    hide Body, Consulted, Rules;
    var schema := env.table(id);
    if schema.Object? {
      var kw := schema.kw;
      if kw.siblings || kw.ref.NoRef? {
        BodySound(env, room, active, at, doc, id, used);
      } else {
        var resolved := Resolve(env, active, at, kw.ref, used);
        if resolved.Enter? {
          var charged := Charge(env, resolved.used, 1).value;
          ChainSound(env, room - 1, resolved.active, at, doc, resolved.target, charged);
        }
      }
    }
  }

  lemma {:induction false} EvaluatorFaithful(env: Env, room: nat, active: seq<Active>)
    ensures Faithful(Evaluator(env, room, active), JudgeAt(env.table, room), SettledAt(env.table, room))
    decreases room, 1
  {
    var ev := Evaluator(env, room, active);
    forall t: Target, u: Used | Clean(ev(t, u))
      ensures Right(ev(t, u), t, JudgeAt(env.table, room), SettledAt(env.table, room))
    {
      EvaluateSound(env, room, active, t, u);
    }
  }

  // An evaluation that finishes without a cycle: its depth was enough, and its
  // verdict and annotations are those of the rules.
  lemma {:induction false} EvaluateSound(env: Env, room: nat, active: seq<Active>, target: Target, used: Used)
    requires Clean(Evaluate(env, room, active, target, used))
    ensures Settled(env.table, room, target.doc, target.id)
    ensures var r := Evaluate(env, room, active, target, used);
            Verdict(r.valid, r.notes) == Meaning(env.table, room, target.doc, target.id)
    decreases room, 0
  {
    var charged := Charge(env, used, 1).value;
    ChainSound(env, room - 1, active, target.at, target.doc, target.id, charged);
  }

  // A whole run, against the rules unrolled to any sufficient depth.
  lemma RunSound(env: Env, doc: Doc, id: nat, k: nat)
    requires Clean(Validate(env, doc, id)) && Settled(env.table, k, doc, id)
    ensures Validate(env, doc, id).valid == Meaning(env.table, k, doc, id).valid
  {
    EvaluateSound(env, env.limits.depth, [], Target([], doc, id), Used(0, 0));
    if k <= env.limits.depth {
      DeeperAgrees(env.table, k, env.limits.depth, doc, id);
    } else {
      DeeperAgrees(env.table, env.limits.depth, k, doc, id);
    }
  }

  // Two runs under different limits that both finish without a cycle agree.
  lemma LimitsDoNotDecide(env: Env, other: Limits, doc: Doc, id: nat)
    requires Clean(Validate(env, doc, id)) && Clean(Validate(env.(limits := other), doc, id))
    ensures Validate(env, doc, id).valid == Validate(env.(limits := other), doc, id).valid
  {
    EvaluateSound(env, env.limits.depth, [], Target([], doc, id), Used(0, 0));
    RunSound(env.(limits := other), doc, id, env.limits.depth);
  }
}
