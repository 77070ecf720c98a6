// The validator as written: shared counters, three kinds of error sink, guards
// that restore the depth and the reference stack, and an exception that stops a
// run once its public errors are exhausted.

module SchemaEval {
  import opened JsonValue
  import opened Printer
  import opened SchemaRules
  import opened SchemaRun
  import Soundness = SchemaSoundness
  import Heap = DomHeap
  import Teardown
  import Numbers
  import opened NodeEquality

  // Zero stands for the default of each limit.
  datatype Options = Options(maxErrors: nat, stopAfterFirst: bool, collectCauses: bool, maxWork: nat, maxRefs: nat,
                             maxDepth: nat)

  const HARD_DEPTH: nat := 32

  function DiagnosticLimit(o: Options): (limit: nat)
    ensures limit > 0
  {
    if o.stopAfterFirst then 1 else if o.maxErrors == 0 then 100 else o.maxErrors
  }

  function LimitsOf(o: Options): (limits: Limits)
    ensures limits.depth <= HARD_DEPTH
  {
    var requested := if o.maxDepth == 0 then HARD_DEPTH else o.maxDepth;
    Limits(if o.maxWork == 0 then 1_000_000 else o.maxWork, if o.maxRefs == 0 then 1024 else o.maxRefs,
           if requested < HARD_DEPTH then requested else HARD_DEPTH)
  }

  datatype Code =
    | ResourceLimit | FalseSchema | ReferenceFailure | ReferenceCycle | AssertionFailure
    | ArrayConstraint | ObjectConstraint | CombinatorMismatch

  datatype Issue = Issue(code: Code, at: Path, causes: seq<Issue>)

  // How many diagnostics a list holds, nested causes included.
  function Weight(issues: seq<Issue>): nat {
    if issues == [] then 0
    else
      var last := issues[|issues| - 1];
      Weight(issues[..|issues| - 1]) + 1 + Weight(last.causes)
  }

  lemma WeightAdd(issues: seq<Issue>, issue: Issue)
    ensures Weight(issues + [issue]) == Weight(issues) + 1 + Weight(issue.causes)
  {
    var all := issues + [issue];
    assert all[..|all| - 1] == issues;
  }

  datatype Mode = Public | Causes | Discard

  class ErrorSink {
    const mode: Mode
    var failures: nat
    var values: seq<Issue>

    constructor (mode: Mode, values: seq<Issue>)
      ensures this.mode == mode && this.failures == 0 && this.values == values
    {
      this.mode := mode;
      failures := 0;
      this.values := values;
    }
  }

  class Validator {
    const env: Env
    const options: Options
    var depth: nat
    var refResolutions: nat
    var workUsed: nat
    var errorsUsed: nat
    var diagnosticsUsed: nat
    var aborted: bool
    var publicErrors: seq<Issue>
    var activeRefs: seq<Active>

    constructor (table: Table, options: Options)
      ensures Valid() && !aborted && env == Env(table, LimitsOf(options)) && this.options == options
      ensures depth == 0 && refResolutions == 0 && workUsed == 0 && diagnosticsUsed == 0
      ensures publicErrors == [] && activeRefs == []
    {
      env := Env(table, LimitsOf(options));
      this.options := options;
      depth, refResolutions, workUsed, errorsUsed, diagnosticsUsed := 0, 0, 0, 0, 0;
      aborted := false;
      publicErrors := [];
      activeRefs := [];
    }

    // The counters agree with what was reported, and a run that is given up has
    // reported something.
    ghost predicate Valid()
      reads this
    {
      var limit := DiagnosticLimit(options);
      && depth <= env.limits.depth && workUsed <= env.limits.work && refResolutions <= env.limits.refs
      && |publicErrors| <= limit
      && diagnosticsUsed <= limit + 1
      && (aborted ==> publicErrors != [])
      && (!aborted ==> errorsUsed == |publicErrors| && diagnosticsUsed <= limit)
      && (!aborted && diagnosticsUsed == limit ==> publicErrors != [])
    }

    function Room(): nat
      requires Valid()
      reads this
    {
      env.limits.depth - depth
    }

    function Consumed(): Used
      reads this
    {
      Used(workUsed, refResolutions)
    }

    ghost function Load(sink: ErrorSink): nat
      reads this, sink
    {
      Weight(publicErrors) + Weight(sink.values)
    }

    // What every step of the evaluation keeps, also when it throws: failures are
    // never forgotten, every retained diagnostic is accounted for, and only a
    // public sink or an exhausted budget adds a public error.
    twostate predicate Kept(sink: ErrorSink)
      reads this, sink
    {
      && old(diagnosticsUsed) <= diagnosticsUsed
      && Load(sink) + old(diagnosticsUsed) <= old(Load(sink)) + diagnosticsUsed
      && (old(aborted) ==> aborted)
      && old(sink.failures) <= sink.failures
      && (!sink.mode.Causes? ==> sink.values == old(sink.values))
      && (sink.mode.Public? && sink.failures > old(sink.failures) ==> publicErrors != [])
      && (old(publicErrors) != [] ==> publicErrors != [])
      && (!aborted && (sink.mode.Public? ==> sink.failures == old(sink.failures)) ==>
           publicErrors == old(publicErrors))
    }

    // The same for a step that reports to sinks of its own, whose list of causes
    // grows from before to after.
    twostate predicate Quiet(mode: Mode, before: seq<Issue>, after: seq<Issue>)
      reads this
    {
      && depth == old(depth) && activeRefs == old(activeRefs)
      && old(diagnosticsUsed) <= diagnosticsUsed
      && Weight(publicErrors) + Weight(after) + old(diagnosticsUsed)
         <= old(Weight(publicErrors)) + Weight(before) + diagnosticsUsed
      && (mode.Discard? ==> after == before)
      && (old(publicErrors) != [] ==> publicErrors != [])
      && (!aborted ==> publicErrors == old(publicErrors))
    }

    // The state is the one that run describes, counting failures from base.
    ghost predicate Tracks(run: Run, sink: ErrorSink, base: nat, notes: Notes)
      reads this, sink
    {
      && base <= sink.failures
      && aborted == run.Aborted?
      && (run.Done? ==> Consumed() == run.used && notes == run.notes && (run.valid <==> sink.failures == base))
    }

    // A step either threw, which only public sinks do and only on a run that
    // does not pass, or left the state that run describes.
    ghost predicate Reached(run: Run, sink: ErrorSink, base: nat, notes: Notes, thrown: bool)
      reads this, sink
    {
      if thrown then sink.mode.Public? && aborted && !Passed(run) else Tracks(run, sink, base, notes)
    }

    // ---- Reporting ----

    method Push(sink: ErrorSink, code: Code, at: Path) returns (thrown: bool)
      requires Valid() && !aborted
      modifies this`errorsUsed, this`diagnosticsUsed, this`aborted, this`publicErrors, sink
      ensures Valid() && Kept(sink)
      ensures sink.failures == old(sink.failures) + 1
      ensures thrown ==> sink.mode.Public?
      ensures aborted == thrown
    {
      thrown := PushIssue(sink, Issue(code, at, []));
    }

    // The general case: an issue may carry causes, which the diagnostic counter
    // has seen already. The source tries to report an exhausted error budget
    // before it throws, under a condition that never holds there.
    method PushIssue(sink: ErrorSink, issue: Issue) returns (thrown: bool)
      requires Valid() && !aborted
      modifies this`errorsUsed, this`diagnosticsUsed, this`aborted, this`publicErrors, sink
      ensures Valid()
      ensures old(diagnosticsUsed) <= diagnosticsUsed
      ensures Load(sink) + old(diagnosticsUsed) <= old(Load(sink)) + diagnosticsUsed + Weight(issue.causes)
      ensures sink.failures == old(sink.failures) + 1
      ensures !sink.mode.Causes? ==> sink.values == old(sink.values)
      ensures sink.mode.Public? ==> publicErrors != []
      ensures !sink.mode.Public? ==> publicErrors == old(publicErrors)
      ensures old(publicErrors) != [] ==> publicErrors != []
      ensures thrown ==> sink.mode.Public?
      ensures aborted == thrown
      // Causes leave the last place for the error that encloses them.
      ensures sink.mode.Causes? && old(diagnosticsUsed) + 1 < DiagnosticLimit(options) ==>
        sink.values == old(sink.values) + [issue] && diagnosticsUsed == old(diagnosticsUsed) + 1
      ensures sink.mode.Public? && old(diagnosticsUsed) < DiagnosticLimit(options)
              && |old(publicErrors)| < DiagnosticLimit(options) ==>
        publicErrors == old(publicErrors) + [issue] && diagnosticsUsed == old(diagnosticsUsed) + 1
        && thrown == options.stopAfterFirst
    {
      hide Weight;
      thrown := false;
      sink.failures := sink.failures + 1;
      if sink.mode.Discard? {
        return;
      }
      var limit := DiagnosticLimit(options);
      if sink.mode.Causes? && diagnosticsUsed + 1 >= limit {
        return;
      }
      if sink.mode.Public? && (errorsUsed >= limit || diagnosticsUsed >= limit) {
        assert !(|publicErrors| < limit && diagnosticsUsed < limit);
        aborted := true;
        return true;
      }
      if sink.mode.Public? {
        WeightAdd(publicErrors, issue);
        publicErrors := publicErrors + [issue];
        errorsUsed := errorsUsed + 1;
        if options.stopAfterFirst {
          aborted := true;
          thrown := true;
        }
      } else {
        WeightAdd(sink.values, issue);
        sink.values := sink.values + [issue];
      }
      diagnosticsUsed := diagnosticsUsed + 1;
    }

    // failValidationBudget: the run is given up.
    method Fail(at: Path)
      requires Valid() && !aborted
      modifies this`errorsUsed, this`diagnosticsUsed, this`aborted, this`publicErrors
      ensures Valid() && aborted
      ensures publicErrors ==
        if |old(publicErrors)| < DiagnosticLimit(options) then old(publicErrors) + [Issue(ResourceLimit, at, [])]
        else old(publicErrors)
      ensures old(diagnosticsUsed) <= diagnosticsUsed
      ensures Weight(publicErrors) + old(diagnosticsUsed) <= old(Weight(publicErrors)) + diagnosticsUsed
    {
      assert Weight([]) == 0;
      hide Weight;
      aborted := true;
      if errorsUsed < DiagnosticLimit(options) {
        WeightAdd(publicErrors, Issue(ResourceLimit, at, []));
        publicErrors := publicErrors + [Issue(ResourceLimit, at, [])];
        errorsUsed := errorsUsed + 1;
        diagnosticsUsed := diagnosticsUsed + 1;
      }
    }

    method ChargeWork(at: Path, amount: nat) returns (ok: bool)
      requires Valid() && !aborted
      modifies this`workUsed, this`errorsUsed, this`diagnosticsUsed, this`aborted, this`publicErrors
      ensures Valid()
      ensures ok <==> SchemaRun.Charge(env, old(Consumed()), amount).Some?
      ensures aborted == !ok
      ensures ok ==> Consumed() == SchemaRun.Charge(env, old(Consumed()), amount).value
      ensures ok ==> publicErrors == old(publicErrors)
      ensures old(diagnosticsUsed) <= diagnosticsUsed
      ensures Weight(publicErrors) + old(diagnosticsUsed) <= old(Weight(publicErrors)) + diagnosticsUsed
    {
      if amount > env.limits.work - workUsed {
        Fail(at);
        return false;
      }
      workUsed := workUsed + amount;
      return true;
    }

    // equalWithBudget: the comparison behind const, enum and uniqueItems. One that
    // runs out gives the run up, and has no answer.
    method EqualWithBudget(d: Teardown.Dom, a: Heap.Node, b: Heap.Node, at: Path) returns (finished: bool, equal: bool)
      requires Valid() && !aborted && Heap.Forest(d.cells) && a in d.cells && b in d.cells
      modifies this`workUsed, this`errorsUsed, this`diagnosticsUsed, this`aborted, this`publicErrors
      ensures Valid() && old(workUsed) <= workUsed
      ensures finished ==> (equal <==> Numbers.Equal(Heap.ValueOf(d.cells, a), Heap.ValueOf(d.cells, b)))
      ensures aborted == !finished && (!finished ==> !equal)
      ensures finished ==> publicErrors == old(publicErrors) && diagnosticsUsed == old(diagnosticsUsed)
      ensures old(diagnosticsUsed) <= diagnosticsUsed
      ensures Weight(publicErrors) + old(diagnosticsUsed) <= old(Weight(publicErrors)) + diagnosticsUsed
    {
      hide Weight;
      var spent;
      finished, equal, spent := CompareNodes(d, a, b, Some(Meter(workUsed, env.limits.work)));
      workUsed := spent.value.used;
      if !finished {
        Fail(at);
      }
    }

    // ---- References ----

    // Resolve a reference on this node and put it on the stack.
    method Enter(at: Path, ref: Ref, sink: ErrorSink) returns (target: Option<nat>, thrown: bool)
      requires Valid() && !aborted && !ref.NoRef?
      modifies this, sink
      ensures Valid() && Kept(sink) && depth == old(depth)
      ensures match SchemaRun.Resolve(env, old(activeRefs), at, ref, old(Consumed()))
              case OverBudget => !thrown && aborted && target.None?
              case Failed(used, _) =>
                (&& target.None? && sink.failures == old(sink.failures) + 1 && Consumed() == used
                 && aborted == thrown && (thrown ==> sink.mode.Public?))
              case Enter(used, id, active) =>
                (&& target == Some(id) && sink.failures == old(sink.failures) && Consumed() == used
                 && !thrown && !aborted && activeRefs == active)
    {
      hide Weight;
      thrown := false;
      if refResolutions >= env.limits.refs {
        Fail(at);
        return None, false;
      }
      refResolutions := refResolutions + 1;
      if ref.Unresolved? {
        thrown := Push(sink, ReferenceFailure, at);
        return None, thrown;
      }
      var entry := Active(at, ref.target);
      if entry in activeRefs {
        thrown := Push(sink, ReferenceCycle, at);
        return None, thrown;
      }
      activeRefs := activeRefs + [entry];
      return Some(ref.target), false;
    }

    // ---- Loops ----

    method RunTask(task: Task, at: Path, sink: ErrorSink, before: Notes, ghost base: nat, ghost acc: Run)
      returns (notes: Notes, thrown: bool)
      requires Valid() && acc.Done? && Tracks(acc, sink, base, before)
      modifies this, sink
      ensures Valid() && Kept(sink) && depth == old(depth) && activeRefs == old(activeRefs)
      ensures Reached(Perform(env, Evaluator(env, old(Room()), old(activeRefs)), task, acc), sink, base, notes, thrown)
      decreases env.limits.depth - depth, 2
    {
      notes, thrown := before, false;
      var ok := ChargeWork(at, Cost(task));
      if !ok {
        return;
      }
      notes := Merge(before, task.notes);
      match task
      case Skip(_, _) =>
      case Refuse(_) =>
        thrown := Push(sink, ObjectConstraint, at);
      case Apply(target, _, _, merge) =>
        var valid, found;
        valid, found, thrown := ValidateCtx(target, sink);
        if merge && valid {
          notes := Merge(notes, found);
        }
    }

    // A conjunctive loop over subschemas, stopped by an exhausted budget.
    method RunTasks(tasks: seq<Task>, at: Path, sink: ErrorSink, before: Notes, ghost base: nat, ghost acc: Run)
      returns (notes: Notes, thrown: bool)
      requires Valid() && Tracks(acc, sink, base, before)
      modifies this, sink
      ensures Valid() && Kept(sink) && depth == old(depth) && activeRefs == old(activeRefs)
      ensures Reached(EachOf(env, Evaluator(env, old(Room()), old(activeRefs)), tasks, acc), sink, base, notes, thrown)
      decreases env.limits.depth - depth, 3
    {
      ghost var ev := Evaluator(env, Room(), activeRefs);
      notes, thrown := before, false;
      var i := 0;
      while i < |tasks| && !aborted
        invariant 0 <= i <= |tasks| && Valid() && Kept(sink) && depth == old(depth) && activeRefs == old(activeRefs)
        invariant Tracks(Each(env, ev, tasks, i, acc), sink, base, notes)
        decreases |tasks| - i
      {
        notes, thrown := RunTask(tasks[i], at, sink, notes, base, Each(env, ev, tasks, i, acc));
        i := i + 1;
        if thrown {
          EachKeeps(env, ev, tasks, i, |tasks|, acc);
          return;
        }
      }
      EachStops(env, ev, tasks, i, |tasks|, acc);
    }

    // One speculative branch, with a sink of its own.
    method RunBranch(target: Target, charged: bool, mode: Mode, before: seq<Issue>, at: Path)
      returns (verdict: Verdict, causes: seq<Issue>)
      requires Valid() && !aborted && !mode.Public?
      modifies this
      ensures Valid() && Quiet(mode, before, causes)
      ensures match SchemaRun.Charge(env, old(Consumed()), if charged then 1 else 0)
              case None => aborted
              case Some(used) =>
                var run := Evaluate(env, old(Room()), old(activeRefs), target, used);
                && aborted == run.Aborted?
                && (run.Done? ==> Consumed() == run.used && verdict == Verdict(run.valid, run.notes))
      decreases env.limits.depth - depth, 2
    {
      hide Weight, Evaluate;
      verdict, causes := Verdict(false, NO_NOTES), before;
      if charged {
        var ok := ChargeWork(at, 1);
        if !ok {
          return;
        }
      }
      var scratch := new ErrorSink(mode, before);
      var valid, notes, thrown := ValidateCtx(target, scratch);
      causes := scratch.values;
      verdict := Verdict(valid, notes);
    }

    // A speculative loop: nothing of it reaches the public errors, and branches
    // that keep causes share one list.
    method RunBranches(targets: seq<Target>, charged: bool, mode: Mode, at: Path)
      returns (verdicts: seq<Verdict>, causes: seq<Issue>)
      requires Valid() && !aborted && !mode.Public?
      modifies this
      ensures Valid() && Quiet(mode, [], causes)
      ensures var ev := Evaluator(env, old(Room()), old(activeRefs));
              var probes := ProbeAll(env, ev, targets, if charged then 1 else 0, old(Consumed()));
              && aborted == probes.Halted?
              && (probes.Probed? ==> verdicts == probes.verdicts && Consumed() == probes.used)
      decreases env.limits.depth - depth, 3
    {
      ghost var ev := Evaluator(env, Room(), activeRefs);
      ghost var used, cost := Consumed(), if charged then 1 else 0;
      verdicts, causes := [], [];
      hide Weight, Evaluate;
      var i := 0;
      while i < |targets|
        invariant 0 <= i <= |targets| && Valid() && !aborted && Quiet(mode, [], causes)
        invariant var probes := Probe(env, ev, targets, cost, i, used);
                  probes.Probed? && verdicts == probes.verdicts && Consumed() == probes.used
      {
        var verdict;
        verdict, causes := RunBranch(targets[i], charged, mode, causes, at);
        i := i + 1;
        if aborted {
          ProbeStops(env, ev, targets, cost, i, |targets|, used);
          return;
        }
        verdicts := verdicts + [verdict];
      }
    }

    // ---- Keywords ----

    method CheckAssertions(rules: seq<Assertion>, at: Path, doc: Doc, sink: ErrorSink, before: Notes, ghost base: nat,
                           ghost acc: Run)
      returns (thrown: bool)
      requires Valid() && Tracks(acc, sink, base, before)
      modifies this, sink
      ensures Valid() && Kept(sink) && depth == old(depth) && activeRefs == old(activeRefs)
      ensures Reached(SchemaRun.Assertions(env, rules, |rules|, doc, acc), sink, base, before, thrown)
    {
      hide Weight;
      thrown := false;
      var i := 0;
      while i < |rules| && !aborted
        invariant 0 <= i <= |rules| && Valid() && Kept(sink) && depth == old(depth) && activeRefs == old(activeRefs)
        invariant Tracks(SchemaRun.Assertions(env, rules, i, doc, acc), sink, base, before)
        decreases |rules| - i
      {
        var ok := ChargeWork(at, rules[i].cost(doc));
        if ok && !rules[i].holds(doc) {
          thrown := Push(sink, AssertionFailure, at);
          if thrown {
            AssertionsKeep(env, rules, i + 1, |rules|, doc, acc);
            return;
          }
        }
        i := i + 1;
      }
      AssertionsStop(env, rules, i, |rules|, doc, acc);
    }

    method ContainsItems(kw: Keywords, at: Path, doc: Doc, sink: ErrorSink, before: Notes, ghost base: nat,
                         ghost acc: Run)
      returns (notes: Notes, thrown: bool)
      requires Valid() && Tracks(acc, sink, base, before)
      modifies this, sink
      ensures Valid() && Kept(sink) && depth == old(depth) && activeRefs == old(activeRefs)
      ensures Reached(ContainsKeyword(env, Evaluator(env, old(Room()), old(activeRefs)), kw, at, doc, acc), sink, base,
                      notes, thrown)
      decreases env.limits.depth - depth, 4
    {
      assert Weight([]) == 0;
      hide Weight, Hits, ContainsTargets, ProbeAll;
      notes, thrown := before, false;
      if aborted || !doc.List? || kw.contains.None? {
        return;
      }
      var verdicts, _ := RunBranches(ContainsTargets(kw, at, doc), true, Discard, at);
      if aborted {
        return;
      }
      var hits := Hits(verdicts, |verdicts|);
      notes := Merge(before, Notes({}, hits));
      thrown := CheckContains(kw, |hits|, at, sink);
    }

    method CheckContains(kw: Keywords, matched: nat, at: Path, sink: ErrorSink) returns (thrown: bool)
      requires Valid() && !aborted
      modifies this`errorsUsed, this`diagnosticsUsed, this`aborted, this`publicErrors, sink
      ensures Valid() && Kept(sink)
      ensures ContainsCount(kw, matched) <==> sink.failures == old(sink.failures)
      ensures thrown ==> sink.mode.Public? && !ContainsCount(kw, matched)
      ensures aborted == thrown
    {
      hide Weight;
      thrown := false;
      if matched < kw.minContains {
        thrown := Push(sink, ArrayConstraint, at);
        if thrown {
          return;
        }
      }
      if kw.maxContains.Some? && matched > kw.maxContains.value {
        thrown := Push(sink, ArrayConstraint, at);
      }
    }

    method EvaluateArray(kw: Keywords, at: Path, doc: Doc, sink: ErrorSink, before: Notes, ghost base: nat,
                         ghost acc: Run)
      returns (notes: Notes, thrown: bool)
      requires Valid() && Tracks(acc, sink, base, before)
      modifies this, sink
      ensures Valid() && Kept(sink) && depth == old(depth) && activeRefs == old(activeRefs)
      ensures Reached(ArrayKeywords(env, Evaluator(env, old(Room()), old(activeRefs)), kw, at, doc, acc), sink, base,
                      notes, thrown)
      decreases env.limits.depth - depth, 5
    {
      hide Weight, EachOf, ContainsKeyword;
      ghost var ev := Evaluator(env, Room(), activeRefs);
      ghost var prefix := EachOf(env, ev, PrefixTasks(kw, at, doc), acc);
      notes, thrown := RunTasks(PrefixTasks(kw, at, doc), at, sink, before, base, acc);
      if thrown {
        return;
      }
      ghost var items := EachOf(env, ev, ItemTasks(kw, at, doc), prefix);
      notes, thrown := RunTasks(ItemTasks(kw, at, doc), at, sink, notes, base, prefix);
      if thrown {
        return;
      }
      notes, thrown := ContainsItems(kw, at, doc, sink, notes, base, items);
    }

    method EvaluateObject(kw: Keywords, at: Path, doc: Doc, sink: ErrorSink, before: Notes, ghost base: nat,
                          ghost acc: Run)
      returns (notes: Notes, thrown: bool)
      requires Valid() && Tracks(acc, sink, base, before)
      modifies this, sink
      ensures Valid() && Kept(sink) && depth == old(depth) && activeRefs == old(activeRefs)
      ensures Reached(ObjectKeywords(env, Evaluator(env, old(Room()), old(activeRefs)), kw, at, doc, acc), sink, base,
                      notes, thrown)
      decreases env.limits.depth - depth, 5
    {
      hide Weight, EachOf;
      ghost var ev := Evaluator(env, Room(), activeRefs);
      ghost var properties := EachOf(env, ev, PropertyTasks(kw, at, doc), acc);
      notes, thrown := RunTasks(PropertyTasks(kw, at, doc), at, sink, before, base, acc);
      if thrown {
        return;
      }
      notes, thrown := RunTasks(AdditionalTasks(env.table, kw, at, doc), at, sink, notes, base, properties);
    }

    method EvaluateCondition(kw: Keywords, at: Path, doc: Doc, sink: ErrorSink, before: Notes, ghost base: nat,
                             ghost acc: Run)
      returns (notes: Notes, thrown: bool)
      requires Valid() && Tracks(acc, sink, base, before)
      modifies this, sink
      ensures Valid() && Kept(sink) && depth == old(depth) && activeRefs == old(activeRefs)
      ensures Reached(ConditionalKeyword(env, Evaluator(env, old(Room()), old(activeRefs)), kw, at, doc, acc), sink,
                      base, notes, thrown)
      decreases env.limits.depth - depth, 4
    {
      assert Weight([]) == 0;
      hide Weight, EachOf;
      notes, thrown := before, false;
      if aborted || kw.condition.None? {
        return;
      }
      ghost var ev := Evaluator(env, Room(), activeRefs);
      ghost var probes := ProbeAll(env, ev, [Target(at, doc, kw.condition.value)], 0, acc.used);
      var verdicts, _ := RunBranches([Target(at, doc, kw.condition.value)], false, Discard, at);
      if aborted {
        return;
      }
      notes := Merge(before, Collected(verdicts[0]));
      var branch := Branch(kw, verdicts[0].valid);
      if branch.Some? {
        ghost var next := Resume(acc, probes, true, Collected(probes.verdicts[0]));
        notes, thrown := RunTasks([Here(at, doc, branch.value)], at, sink, notes, base, next);
      }
    }

    // The end of anyOf and oneOf. Unless the causes are kept, the diagnostics
    // counted since start are given back.
    method Conclude(failed: bool, keep: bool, causes: seq<Issue>, start: nat, at: Path, sink: ErrorSink,
                    ghost base: nat, ghost acc: Run, ghost probes: Probes, ghost found: Notes)
      returns (thrown: bool)
      requires Valid() && !aborted && Weight(causes) + start <= diagnosticsUsed
      requires acc.Done? && probes.Probed? && Consumed() == probes.used
      requires base <= sink.failures && (acc.valid <==> sink.failures == base)
      modifies this`errorsUsed, this`diagnosticsUsed, this`aborted, this`publicErrors, sink
      ensures Valid() && start <= diagnosticsUsed
      ensures Load(sink) + start <= old(Load(sink)) + diagnosticsUsed
      ensures old(sink.failures) <= sink.failures
      ensures !sink.mode.Causes? ==> sink.values == old(sink.values)
      ensures sink.mode.Public? && sink.failures > old(sink.failures) ==> publicErrors != []
      ensures (sink.mode.Public? ==> sink.failures == old(sink.failures)) ==> publicErrors == old(publicErrors)
      ensures old(publicErrors) != [] ==> publicErrors != []
      ensures Reached(Resume(acc, probes, !failed, found), sink, base, Merge(acc.notes, found), thrown)
    {
      assert Weight([]) == 0;
      hide Weight;
      thrown := false;
      var kept := causes;
      if !keep {
        diagnosticsUsed := start;
        kept := [];
      }
      if failed {
        thrown := PushIssue(sink, Issue(CombinatorMismatch, at, kept));
      }
    }

    method EvaluateAnyOf(kw: Keywords, at: Path, doc: Doc, sink: ErrorSink, before: Notes, ghost base: nat,
                         ghost acc: Run)
      returns (notes: Notes, thrown: bool)
      requires Valid() && Tracks(acc, sink, base, before)
      modifies this, sink
      ensures Valid() && Kept(sink) && depth == old(depth) && activeRefs == old(activeRefs)
      ensures Reached(AnyOfKeyword(env, Evaluator(env, old(Room()), old(activeRefs)), kw, at, doc, acc), sink, base,
                      notes, thrown)
      decreases env.limits.depth - depth, 4
    {
      assert Weight([]) == 0;
      hide Weight, Hits, HitNotes, ProbeAll, Branches;
      notes, thrown := before, false;
      if aborted || kw.anyOf.None? {
        return;
      }
      var start := diagnosticsUsed;
      var mode := if options.collectCauses then Causes else Discard;
      ghost var ev := Evaluator(env, Room(), activeRefs);
      ghost var probes := ProbeAll(env, ev, Branches(kw.anyOf.value, at, doc), 1, acc.used);
      var verdicts, causes := RunBranches(Branches(kw.anyOf.value, at, doc), true, mode, at);
      if aborted {
        return;
      }
      notes := Merge(before, HitNotes(verdicts, |verdicts|));
      var failed := Hits(verdicts, |verdicts|) == {};
      thrown := Conclude(failed, failed, causes, start, at, sink, base, acc, probes, HitNotes(verdicts, |verdicts|));
    }

    method EvaluateOneOf(kw: Keywords, at: Path, doc: Doc, sink: ErrorSink, before: Notes, ghost base: nat,
                         ghost acc: Run)
      returns (notes: Notes, thrown: bool)
      requires Valid() && Tracks(acc, sink, base, before)
      modifies this, sink
      ensures Valid() && Kept(sink) && depth == old(depth) && activeRefs == old(activeRefs)
      ensures Reached(OneOfKeyword(env, Evaluator(env, old(Room()), old(activeRefs)), kw, at, doc, acc), sink, base,
                      notes, thrown)
      decreases env.limits.depth - depth, 4
    {
      assert Weight([]) == 0;
      hide Weight, HitCount, OnlyNotes, ProbeAll, Branches;
      notes, thrown := before, false;
      if aborted || kw.oneOf.None? {
        return;
      }
      var start := diagnosticsUsed;
      var mode := if options.collectCauses then Causes else Discard;
      ghost var ev := Evaluator(env, Room(), activeRefs);
      ghost var probes := ProbeAll(env, ev, Branches(kw.oneOf.value, at, doc), 1, acc.used);
      var verdicts, causes := RunBranches(Branches(kw.oneOf.value, at, doc), true, mode, at);
      if aborted {
        return;
      }
      var matches := HitCount(verdicts);
      notes := Merge(before, OnlyNotes(verdicts));
      var none := matches == 0 && options.collectCauses;
      thrown := Conclude(matches != 1, none, causes, start, at, sink, base, acc, probes, OnlyNotes(verdicts));
    }

    method EvaluateNot(kw: Keywords, at: Path, doc: Doc, sink: ErrorSink, before: Notes, ghost base: nat,
                       ghost acc: Run)
      returns (notes: Notes, thrown: bool)
      requires Valid() && Tracks(acc, sink, base, before)
      modifies this, sink
      ensures Valid() && Kept(sink) && depth == old(depth) && activeRefs == old(activeRefs)
      ensures Reached(NotKeyword(env, Evaluator(env, old(Room()), old(activeRefs)), kw, at, doc, acc), sink, base,
                      notes, thrown)
      decreases env.limits.depth - depth, 4
    {
      assert Weight([]) == 0;
      hide Weight, Hits, HitNotes, ProbeAll;
      notes, thrown := before, false;
      if aborted || kw.negated.None? {
        return;
      }
      var verdicts, _ := RunBranches([Target(at, doc, kw.negated.value)], false, Discard, at);
      if aborted {
        return;
      }
      notes := Merge(before, NO_NOTES);
      if verdicts[0].valid {
        thrown := Push(sink, CombinatorMismatch, at);
      }
    }

    method EvaluateLogic(kw: Keywords, at: Path, doc: Doc, sink: ErrorSink, before: Notes, ghost base: nat,
                         ghost acc: Run)
      returns (notes: Notes, thrown: bool)
      requires Valid() && Tracks(acc, sink, base, before)
      modifies this, sink
      ensures Valid() && Kept(sink) && depth == old(depth) && activeRefs == old(activeRefs)
      ensures Reached(LogicKeywords(env, Evaluator(env, old(Room()), old(activeRefs)), kw, at, doc, acc), sink, base,
                      notes, thrown)
      decreases env.limits.depth - depth, 5
    {
      hide Weight, EachOf, AnyOfKeyword, OneOfKeyword, NotKeyword;
      ghost var ev := Evaluator(env, Room(), activeRefs);
      ghost var all := EachOf(env, ev, AllOfTasks(kw, at, doc), acc);
      notes, thrown := RunTasks(AllOfTasks(kw, at, doc), at, sink, before, base, acc);
      if thrown {
        return;
      }
      ghost var any := AnyOfKeyword(env, ev, kw, at, doc, all);
      notes, thrown := EvaluateAnyOf(kw, at, doc, sink, notes, base, all);
      if thrown {
        return;
      }
      ghost var one := OneOfKeyword(env, ev, kw, at, doc, any);
      notes, thrown := EvaluateOneOf(kw, at, doc, sink, notes, base, any);
      if thrown {
        return;
      }
      notes, thrown := EvaluateNot(kw, at, doc, sink, notes, base, one);
    }

    method EvaluateUnevaluated(kw: Keywords, at: Path, doc: Doc, sink: ErrorSink, before: Notes, ghost base: nat,
                               ghost acc: Run)
      returns (notes: Notes, thrown: bool)
      requires Valid() && Tracks(acc, sink, base, before)
      modifies this, sink
      ensures Valid() && Kept(sink) && depth == old(depth) && activeRefs == old(activeRefs)
      ensures Reached(UnevaluatedKeywords(env, Evaluator(env, old(Room()), old(activeRefs)), kw, at, doc, acc), sink,
                      base, notes, thrown)
      decreases env.limits.depth - depth, 5
    {
      hide Weight, EachOf;
      ghost var ev := Evaluator(env, Room(), activeRefs);
      ghost var tasks := UnevaluatedPropertyTasks(env.table, kw, at, doc, NotesOf(acc));
      ghost var props := EachOf(env, ev, tasks, acc);
      notes, thrown := before, false;
      if !aborted {
        var tasks := UnevaluatedPropertyTasks(env.table, kw, at, doc, before);
        notes, thrown := RunTasks(tasks, at, sink, before, base, acc);
        if thrown {
          return;
        }
      } else {
        AbortedStays(env, ev, tasks);
      }
      if !aborted {
        notes, thrown := RunTasks(UnevaluatedItemTasks(env.table, kw, at, doc, notes), at, sink, notes, base, props);
      } else {
        AbortedStays(env, ev, UnevaluatedItemTasks(env.table, kw, at, doc, NotesOf(props)));
      }
    }

    // Every keyword but $ref, in the order of the source.
    method EvaluateRest(kw: Keywords, at: Path, doc: Doc, sink: ErrorSink, before: Notes, ghost base: nat,
                        ghost acc: Run)
      returns (notes: Notes, thrown: bool)
      requires Valid() && Tracks(acc, sink, base, before)
      modifies this, sink
      ensures Valid() && Kept(sink) && depth == old(depth) && activeRefs == old(activeRefs)
      ensures Reached(Rest(env, Evaluator(env, old(Room()), old(activeRefs)), kw, at, doc, acc), sink, base, notes,
                      thrown)
      decreases env.limits.depth - depth, 6
    {
      hide Weight, SchemaRun.Assertions, ArrayKeywords, ObjectKeywords, ConditionalKeyword, LogicKeywords;
      hide UnevaluatedKeywords;
      ghost var ev := Evaluator(env, Room(), activeRefs);
      notes := before;
      ghost var asserted := SchemaRun.Assertions(env, kw.assertions, |kw.assertions|, doc, acc);
      thrown := CheckAssertions(kw.assertions, at, doc, sink, before, base, acc);
      if thrown {
        return;
      }
      ghost var elements := ArrayKeywords(env, ev, kw, at, doc, asserted);
      notes, thrown := EvaluateArray(kw, at, doc, sink, notes, base, asserted);
      if thrown {
        return;
      }
      ghost var members := ObjectKeywords(env, ev, kw, at, doc, elements);
      notes, thrown := EvaluateObject(kw, at, doc, sink, notes, base, elements);
      if thrown {
        return;
      }
      ghost var conditional := ConditionalKeyword(env, ev, kw, at, doc, members);
      notes, thrown := EvaluateCondition(kw, at, doc, sink, notes, base, members);
      if thrown {
        return;
      }
      ghost var logic := LogicKeywords(env, ev, kw, at, doc, conditional);
      notes, thrown := EvaluateLogic(kw, at, doc, sink, notes, base, conditional);
      if thrown {
        return;
      }
      notes, thrown := EvaluateUnevaluated(kw, at, doc, sink, notes, base, logic);
    }

    // ---- Schemas ----

    // One schema object; its reference stays on the stack until ValidateCtx
    // returns.
    method EvaluateKeywords(kw: Keywords, at: Path, doc: Doc, sink: ErrorSink)
      returns (valid: bool, notes: Notes, thrown: bool)
      requires Valid() && !aborted
      modifies this, sink
      ensures Valid() && Kept(sink)
      ensures var run := Body(env, old(Room()), old(activeRefs), at, doc, kw, old(Consumed()));
              && Reached(run, sink, old(sink.failures), notes, thrown)
              && (!thrown ==> valid == Passed(run))
      decreases env.limits.depth - depth, 7
    {
      hide Weight, Rest, EachOf;
      valid, notes, thrown := false, NO_NOTES, false;
      var before := sink.failures;
      ghost var acc := Done(Consumed(), true, NO_NOTES, false);
      if !kw.ref.NoRef? {
        var target;
        target, thrown := Enter(at, kw.ref, sink);
        if target.None? {
          return;
        }
        ghost var ev := Evaluator(env, Room(), activeRefs);
        var here := [Here(at, doc, target.value)];
        ghost var entered := Done(Consumed(), true, NO_NOTES, false);
        notes, thrown := RunTasks(here, at, sink, NO_NOTES, before, entered);
        acc := EachOf(env, ev, here, entered);
        if thrown {
          return;
        }
      }
      notes, thrown := EvaluateRest(kw, at, doc, sink, notes, before, acc);
      valid := !thrown && !aborted && sink.failures == before;
    }

    // Follow references that hide their siblings without recursion, then
    // evaluate what they lead to.
    method EvaluateSchema(at: Path, doc: Doc, id: nat, sink: ErrorSink)
      returns (valid: bool, notes: Notes, thrown: bool)
      requires Valid() && !aborted
      modifies this, sink
      ensures Valid() && Kept(sink)
      ensures var run := Chain(env, old(Room()), old(activeRefs), at, doc, id, old(Consumed()));
              && Reached(run, sink, old(sink.failures), notes, thrown)
              && (!thrown ==> valid == Passed(run))
      decreases env.limits.depth - depth, 8
    {
      hide Weight, Body;
      ghost var run := Chain(env, Room(), activeRefs, at, doc, id, Consumed());
      valid, notes, thrown := false, NO_NOTES, false;
      var current := id;
      while true
        invariant Valid() && !aborted && Kept(sink) && sink.failures == old(sink.failures) && !thrown
        invariant Chain(env, Room(), activeRefs, at, doc, current, Consumed()) == run
        invariant old(depth) <= depth && notes == NO_NOTES && !valid
        decreases env.limits.depth - depth
      {
        match env.table(current)
        case Boolean(accepts) =>
          if accepts {
            valid := true;
          } else {
            thrown := Push(sink, FalseSchema, at);
          }
          return;
        case Inert =>
          valid := true;
          return;
        case Object(kw) =>
          if kw.siblings || kw.ref.NoRef? {
            valid, notes, thrown := EvaluateKeywords(kw, at, doc, sink);
            return;
          }
          var target;
          target, thrown := Enter(at, kw.ref, sink);
          if target.None? {
            return;
          }
          var ok := ChargeWork(at, 1);
          if !ok {
            return;
          }
          if depth >= env.limits.depth {
            Fail(at);
            return;
          }
          depth := depth + 1;
          current := target.value;
      }
    }

    // validateCtx: on every way out the depth and the reference stack are back
    // where they were.
    method ValidateCtx(target: Target, sink: ErrorSink) returns (valid: bool, notes: Notes, thrown: bool)
      requires Valid() && !aborted
      modifies this, sink
      ensures Valid() && Kept(sink) && depth == old(depth) && activeRefs == old(activeRefs)
      ensures var run := Evaluate(env, old(Room()), old(activeRefs), target, old(Consumed()));
              && Reached(run, sink, old(sink.failures), notes, thrown)
              && (!thrown ==> valid == Passed(run))
      decreases env.limits.depth - depth, 1
    {
      hide Weight, Chain;
      valid, notes, thrown := false, NO_NOTES, false;
      var ok := ChargeWork(target.at, 1);
      if !ok {
        return;
      }
      if depth >= env.limits.depth {
        Fail(target.at);
        return;
      }
      var outerDepth, outerRefs := depth, activeRefs;
      depth := depth + 1;
      valid, notes, thrown := EvaluateSchema(target.at, target.doc, target.id, sink);
      depth, activeRefs := outerDepth, outerRefs;
    }
  }

  // A loop that is over budget stays so, and one that has failed stays failed.
  lemma {:induction false} EachStops(env: Env, ev: Eval, tasks: seq<Task>, i: nat, n: nat, acc: Run)
    requires i <= n <= |tasks|
    ensures Each(env, ev, tasks, i, acc).Aborted? ==> Each(env, ev, tasks, n, acc) == Aborted
    decreases n
  {
    if i < n {
      EachStops(env, ev, tasks, i, n - 1, acc);
    }
  }

  lemma {:induction false} EachKeeps(env: Env, ev: Eval, tasks: seq<Task>, i: nat, n: nat, acc: Run)
    requires i <= n <= |tasks|
    ensures Passed(Each(env, ev, tasks, n, acc)) ==> Passed(Each(env, ev, tasks, i, acc))
    decreases n
  {
    if i < n {
      EachKeeps(env, ev, tasks, i, n - 1, acc);
    }
  }

  lemma {:induction false} ProbeStops(env: Env, ev: Eval, targets: seq<Target>, cost: nat, i: nat, n: nat, used: Used)
    requires i <= n <= |targets|
    ensures Probe(env, ev, targets, cost, i, used).Halted? ==> Probe(env, ev, targets, cost, n, used) == Halted
    decreases n
  {
    if i < n {
      ProbeStops(env, ev, targets, cost, i, n - 1, used);
    }
  }

  lemma {:induction false} AssertionsStop(env: Env, rules: seq<Assertion>, i: nat, n: nat, doc: Doc, acc: Run)
    requires i <= n <= |rules|
    ensures SchemaRun.Assertions(env, rules, i, doc, acc).Aborted? ==>
      SchemaRun.Assertions(env, rules, n, doc, acc) == Aborted
    decreases n
  {
    if i < n {
      AssertionsStop(env, rules, i, n - 1, doc, acc);
    }
  }

  lemma {:induction false} AssertionsKeep(env: Env, rules: seq<Assertion>, i: nat, n: nat, doc: Doc, acc: Run)
    requires i <= n <= |rules|
    ensures Passed(SchemaRun.Assertions(env, rules, n, doc, acc)) ==>
      Passed(SchemaRun.Assertions(env, rules, i, doc, acc))
    decreases n
  {
    if i < n {
      AssertionsKeep(env, rules, i, n - 1, doc, acc);
    }
  }

  lemma AbortedStays(env: Env, ev: Eval, tasks: seq<Task>)
    ensures EachOf(env, ev, tasks, Aborted) == Aborted
  {
    EachStops(env, ev, tasks, 0, |tasks|, Aborted);
  }

  // A branch that runs out of a budget halts its speculative loop, whatever
  // verdict the other branches have.
  lemma BranchExhausted(env: Env, ev: Eval, targets: seq<Target>, cost: nat, i: nat, used: Used)
    requires i < |targets| && Probe(env, ev, targets, cost, i, used).Probed?
    requires var charged := SchemaRun.Charge(env, Probe(env, ev, targets, cost, i, used).used, cost);
             charged.None? || ev(targets[i], charged.value).Aborted?
    ensures ProbeAll(env, ev, targets, cost, used) == Halted
  {
    ProbeStops(env, ev, targets, cost, i + 1, |targets|, used);
  }

  // An exhausted stage exhausts the schema object.
  lemma RestStops(env: Env, ev: Eval, kw: Keywords, at: Path, doc: Doc, acc: Run)
    ensures var asserted := SchemaRun.Assertions(env, kw.assertions, |kw.assertions|, doc, acc);
            var elements := ArrayKeywords(env, ev, kw, at, doc, asserted);
            var members := ObjectKeywords(env, ev, kw, at, doc, elements);
            var conditional := ConditionalKeyword(env, ev, kw, at, doc, members);
            var logic := LogicKeywords(env, ev, kw, at, doc, conditional);
            Aborted in {acc, asserted, elements, members, conditional, logic} ==>
              Rest(env, ev, kw, at, doc, acc) == Aborted
  {
    AssertionsStop(env, kw.assertions, 0, |kw.assertions|, doc, acc);
    forall tasks: seq<Task> ensures EachOf(env, ev, tasks, Aborted) == Aborted {
      AbortedStays(env, ev, tasks);
    }
    hide EachOf;
  }

  // ---- Whole runs ----

  // runValidation. The verdict is that of the run without sinks, so it is the
  // verdict of the keyword rules when no budget runs out and no reference cycle
  // is met, and a rejection when a budget runs out anywhere. A rejected run
  // reports at least one error, an accepted run none; the top-level errors stay
  // within the limit, and with their causes they exceed it by at most the one
  // that reports an exhausted budget.
  method RunValidation(table: Table, options: Options, doc: Doc, id: nat) returns (ok: bool, errors: seq<Issue>)
    ensures ok == Passed(Validate(Env(table, LimitsOf(options)), doc, id))
    ensures Clean(Validate(Env(table, LimitsOf(options)), doc, id)) ==>
      && Settled(table, LimitsOf(options).depth, doc, id)
      && ok == Meaning(table, LimitsOf(options).depth, doc, id).valid
    ensures ok <==> errors == []
    ensures |errors| <= DiagnosticLimit(options)
    ensures Weight(errors) <= DiagnosticLimit(options) + 1
  {
    var context := new Validator(table, options);
    var sink := new ErrorSink(Public, []);
    var target := Target([], doc, id);
    var valid, _, thrown := context.ValidateCtx(target, sink);
    ok := valid && !thrown;
    errors := context.publicErrors;
    if Clean(Validate(context.env, doc, id)) {
      Soundness.EvaluateSound(context.env, context.env.limits.depth, [], target, Used(0, 0));
    }
  }

  // That bound is attained under every limit above one: when causes have taken all
  // but the last place and their combinator the last, the message about an
  // exhausted budget is one more.
  method LimitPlusOne(table: Table, options: Options, at: Path) returns (v: Validator)
    requires options.collectCauses && DiagnosticLimit(options) > 1
    ensures fresh(v) && v.Valid() && v.aborted && v.options == options
    ensures Weight(v.publicErrors) == DiagnosticLimit(options) + 1
  {
    hide Weight;
    NoWeight();
    v := new Validator(table, options);
    var causes := new ErrorSink(Causes, []);
    var limit := DiagnosticLimit(options);
    while v.diagnosticsUsed + 1 < limit
      invariant fresh(v) && fresh(causes) && v.Valid() && !v.aborted && v.options == options
      invariant v.publicErrors == [] && causes.mode.Causes?
      invariant Weight(causes.values) == v.diagnosticsUsed <= limit - 1
      decreases limit - v.diagnosticsUsed
    {
      var cause := Issue(CombinatorMismatch, at, []);
      WeightAdd(causes.values, cause);
      var thrown := v.PushIssue(causes, cause);
    }
    var sink := new ErrorSink(Public, []);
    var issue := Issue(CombinatorMismatch, at, causes.values);
    WeightAdd([], issue);
    var thrown := v.PushIssue(sink, issue);
    assert [] + [issue] == [issue];
    WeightAdd(v.publicErrors, Issue(ResourceLimit, at, []));
    v.Fail(at);
  }

  lemma NoWeight()
    ensures Weight([]) == 0
  {
  }

  // How much is reported has no influence on the verdict.
  method TwoRuns(table: Table, options: Options, other: Options, doc: Doc, id: nat) returns (first: bool, second: bool)
    requires LimitsOf(options) == LimitsOf(other)
    ensures first == second
  {
    var ignored;
    first, ignored := RunValidation(table, options, doc, id);
    second, ignored := RunValidation(table, other, doc, id);
  }
}
