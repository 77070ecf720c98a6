// The recursive annotation semantics of the schema keywords, with no budgets,
// sinks or reference stack.

module SchemaRules {
  import opened JsonValue
  import opened Printer

  // One leaf assertion: the work it charges on an instance and its verdict.
  datatype Assertion = Assertion(cost: Doc -> nat, holds: Doc -> bool)

  // A static reference once resolved against the compiled schema.
  datatype Ref = NoRef | Unresolved | To(target: nat)

  datatype Property = Property(key: Bytes, schema: nat)

  // A schema object. siblings is the dialect's refSiblings flag: when it is off
  // a $ref hides every other keyword.
  datatype Keywords = Keywords(
    siblings: bool,
    ref: Ref,
    assertions: seq<Assertion>,
    prefixItems: seq<nat>,
    items: Option<nat>,
    contains: Option<nat>,
    minContains: nat,
    maxContains: Option<nat>,
    properties: seq<Property>,
    additional: Option<nat>,
    condition: Option<nat>,
    thenSchema: Option<nat>,
    elseSchema: Option<nat>,
    allOf: seq<nat>,
    anyOf: Option<seq<nat>>,
    oneOf: Option<seq<nat>>,
    negated: Option<nat>,
    unevaluatedProperties: Option<nat>,
    unevaluatedItems: Option<nat>)

  // Inert is a schema that is neither a boolean nor an object: it accepts.
  datatype Schema = Boolean(accepts: bool) | Inert | Object(kw: Keywords)

  // The compiled schema: nodes by index, so references may form cycles.
  type Table = nat -> Schema

  datatype Notes = Notes(props: set<Bytes>, items: set<nat>)
  const NO_NOTES := Notes({}, {})

  function Merge(a: Notes, b: Notes): Notes {
    Notes(a.props + b.props, a.items + b.items)
  }

  datatype Verdict = Verdict(valid: bool, notes: Notes)

  // How a subschema judges an instance.
  type Judge = (Doc, nat) -> Verdict
  type Claim = (Doc, nat) -> bool

  function Accepted(j: Judge): Claim {
    (d: Doc, i: nat) => j(d, i).valid
  }

  // ---- Instances ----

  function IndexOf(fields: seq<Field>, key: Bytes): (n: nat)
    ensures n <= |fields|
    ensures n < |fields| ==> fields[n].key == key
    ensures forall i :: 0 <= i < n ==> fields[i].key != key
  {
    if fields == [] then 0
    else if fields[0].key == key then 0
    else
      var rest := IndexOf(fields[1..], key);
      assert forall i :: 0 < i <= rest ==> fields[i] == fields[1..][i - 1] || i == |fields|;
      rest + 1
  }

  function Names(fields: seq<Field>): set<Bytes> {
    set i | 0 <= i < |fields| :: fields[i].key
  }

  function Declared(kw: Keywords): set<Bytes> {
    set i | 0 <= i < |kw.properties| :: kw.properties[i].key
  }

  function Below(n: nat): (s: set<nat>)
    ensures forall i: nat :: i in s <==> i < n
  {
    if n == 0 then {} else Below(n - 1) + {n - 1}
  }

  // ---- Which subschemas an instance meets ----

  // p holds of every element against its prefixItems or items subschema.
  ghost predicate OnItems(kw: Keywords, doc: Doc, p: Claim) {
    doc.List? ==>
      forall i :: 0 <= i < |doc.items| ==>
        && (i < |kw.prefixItems| ==> p(doc.items[i], kw.prefixItems[i]))
        && (|kw.prefixItems| <= i && kw.items.Some? ==> p(doc.items[i], kw.items.value))
  }

  // p holds of every member against its properties subschema.
  ghost predicate OnProperties(kw: Keywords, doc: Doc, p: Claim) {
    doc.Dict? ==>
      forall n :: 0 <= n < |kw.properties| && IndexOf(doc.fields, kw.properties[n].key) < |doc.fields| ==>
        p(doc.fields[IndexOf(doc.fields, kw.properties[n].key)].value, kw.properties[n].schema)
  }

  // p holds of every member that properties does not name.
  ghost predicate OnAdditional(kw: Keywords, doc: Doc, p: Claim) {
    doc.Dict? && kw.additional.Some? ==>
      forall i :: 0 <= i < |doc.fields| && doc.fields[i].key !in Declared(kw) ==>
        p(doc.fields[i].value, kw.additional.value)
  }

  ghost predicate OnMembers(kw: Keywords, doc: Doc, p: Claim) {
    OnProperties(kw, doc, p) && OnAdditional(kw, doc, p)
  }

  ghost predicate OnContains(kw: Keywords, doc: Doc, p: Claim) {
    doc.List? && kw.contains.Some? ==> forall i :: 0 <= i < |doc.items| ==> p(doc.items[i], kw.contains.value)
  }

  ghost predicate OnAll(ids: seq<nat>, doc: Doc, p: Claim) {
    forall i :: 0 <= i < |ids| ==> p(doc, ids[i])
  }

  // The branch that the condition selects, if the schema has it.
  function Branch(kw: Keywords, matched: bool): Option<nat> {
    if matched then kw.thenSchema else kw.elseSchema
  }

  function Alternatives(ids: Option<seq<nat>>): seq<nat> {
    if ids.Some? then ids.value else []
  }

  // ---- Keyword rules (sections 10 and 11 of JSON Schema Core 2020-12) ----

  function Passing(ids: seq<nat>, doc: Doc, j: Judge): set<nat> {
    set i: nat | i < |ids| && j(doc, ids[i]).valid
  }

  function Matching(kw: Keywords, doc: Doc, j: Judge): set<nat>
    requires doc.List? && kw.contains.Some?
  {
    set i: nat | i < |doc.items| && j(doc.items[i], kw.contains.value).valid
  }

  predicate ContainsHolds(kw: Keywords, doc: Doc, j: Judge) {
    doc.List? && kw.contains.Some? ==>
      && kw.minContains <= |Matching(kw, doc, j)|
      && (kw.maxContains.Some? ==> |Matching(kw, doc, j)| <= kw.maxContains.value)
  }

  predicate ConditionHolds(kw: Keywords, doc: Doc, j: Judge) {
    kw.condition.Some? ==>
      var branch := Branch(kw, j(doc, kw.condition.value).valid);
      branch.Some? ==> j(doc, branch.value).valid
  }

  predicate AnyHolds(kw: Keywords, doc: Doc, j: Judge) {
    kw.anyOf.Some? ==> exists i :: 0 <= i < |kw.anyOf.value| && j(doc, kw.anyOf.value[i]).valid
  }

  predicate OneHolds(kw: Keywords, doc: Doc, j: Judge) {
    kw.oneOf.Some? ==> |Passing(kw.oneOf.value, doc, j)| == 1
  }

  predicate NotHolds(kw: Keywords, doc: Doc, j: Judge) {
    kw.negated.Some? ==> !j(doc, kw.negated.value).valid
  }

  // The annotations of those of the first n subschemas that accept.
  function Gather(ids: seq<nat>, n: nat, doc: Doc, j: Judge): Notes
    requires n <= |ids|
  {
    if n == 0 then NO_NOTES else Merge(Gather(ids, n - 1, doc, j), Collected(j(doc, ids[n - 1])))
  }

  function Collected(v: Verdict): Notes {
    if v.valid then v.notes else NO_NOTES
  }

  function ItemNotes(kw: Keywords, doc: Doc): Notes {
    if !doc.List? then NO_NOTES
    else if kw.items.Some? || |doc.items| < |kw.prefixItems| then Notes({}, Below(|doc.items|))
    else Notes({}, Below(|kw.prefixItems|))
  }

  function ContainsNotes(kw: Keywords, doc: Doc, j: Judge): Notes {
    if doc.List? && kw.contains.Some? then Notes({}, Matching(kw, doc, j)) else NO_NOTES
  }

  function MemberNotes(kw: Keywords, doc: Doc): Notes {
    if !doc.Dict? then NO_NOTES
    else Notes(if kw.additional.Some? then Names(doc.fields) else Names(doc.fields) * Declared(kw), {})
  }

  function ConditionNotes(kw: Keywords, doc: Doc, j: Judge): Notes {
    if kw.condition.None? then NO_NOTES
    else
      var branch := Branch(kw, j(doc, kw.condition.value).valid);
      Merge(Collected(j(doc, kw.condition.value)),
            if branch.Some? then Collected(j(doc, branch.value)) else NO_NOTES)
  }

  function OneNotes(kw: Keywords, doc: Doc, j: Judge): Notes {
    if kw.oneOf.Some? && OneHolds(kw, doc, j) then Gather(kw.oneOf.value, |kw.oneOf.value|, doc, j) else NO_NOTES
  }

  function RefNotes(kw: Keywords, doc: Doc, j: Judge): Notes {
    if kw.ref.To? then Collected(j(doc, kw.ref.target)) else NO_NOTES
  }

  // Every annotation collected before the unevaluated keywords.
  function Evaluated(kw: Keywords, doc: Doc, j: Judge): Notes {
    var items := Merge(Merge(RefNotes(kw, doc, j), ItemNotes(kw, doc)), ContainsNotes(kw, doc, j));
    var children := Merge(items, MemberNotes(kw, doc));
    var branch := Merge(children, ConditionNotes(kw, doc, j));
    var all := Merge(branch, Gather(kw.allOf, |kw.allOf|, doc, j));
    var any := Merge(all, Gather(Alternatives(kw.anyOf), |Alternatives(kw.anyOf)|, doc, j));
    Merge(any, OneNotes(kw, doc, j))
  }

  // p holds of every child that no other keyword evaluated.
  ghost predicate OnUnevaluated(kw: Keywords, doc: Doc, seen: Notes, p: Claim) {
    && (doc.Dict? && kw.unevaluatedProperties.Some? ==>
         forall i :: 0 <= i < |doc.fields| && doc.fields[i].key !in seen.props ==>
           p(doc.fields[i].value, kw.unevaluatedProperties.value))
    && (doc.List? && kw.unevaluatedItems.Some? ==>
         forall i: nat :: i < |doc.items| && i !in seen.items ==> p(doc.items[i], kw.unevaluatedItems.value))
  }

  function UnevaluatedNotes(kw: Keywords, doc: Doc): Notes {
    Notes(if doc.Dict? && kw.unevaluatedProperties.Some? then Names(doc.fields) else {},
          if doc.List? && kw.unevaluatedItems.Some? then Below(|doc.items|) else {})
  }

  ghost predicate AssertionsHold(kw: Keywords, doc: Doc) {
    forall i :: 0 <= i < |kw.assertions| ==> kw.assertions[i].holds(doc)
  }

  // Everything but the unevaluated keywords.
  ghost predicate EvaluatedHold(kw: Keywords, doc: Doc, j: Judge) {
    && (kw.ref.To? ==> j(doc, kw.ref.target).valid)
    && AssertionsHold(kw, doc)
    && OnItems(kw, doc, Accepted(j))
    && ContainsHolds(kw, doc, j)
    && OnMembers(kw, doc, Accepted(j))
    && ConditionHolds(kw, doc, j)
    && OnAll(kw.allOf, doc, Accepted(j))
    && AnyHolds(kw, doc, j)
    && OneHolds(kw, doc, j)
    && NotHolds(kw, doc, j)
  }

  // A schema object's verdict, given how its subschemas judge.
  ghost function Rules(kw: Keywords, doc: Doc, j: Judge): Verdict {
    Verdict(EvaluatedHold(kw, doc, j) && OnUnevaluated(kw, doc, Evaluated(kw, doc, j), Accepted(j)),
            Merge(Evaluated(kw, doc, j), UnevaluatedNotes(kw, doc)))
  }

  // ---- The recursive semantics, unrolled to depth k ----

  ghost function Meaning(table: Table, k: nat, doc: Doc, id: nat): Verdict
    decreases k, 0
  {
    match table(id)
    case Boolean(b) => Verdict(b, NO_NOTES)
    case Inert => Verdict(true, NO_NOTES)
    case Object(kw) =>
      if k == 0 || kw.ref.Unresolved? then Verdict(false, NO_NOTES)
      else if kw.ref.To? && !kw.siblings then Meaning(table, k - 1, doc, kw.ref.target)
      else Rules(kw, doc, JudgeAt(table, k - 1))
  }

  ghost function JudgeAt(table: Table, k: nat): Judge
    decreases k, 1
  {
    (d: Doc, i: nat) => Meaning(table, k, d, i)
  }

  ghost predicate ConditionConsulted(kw: Keywords, doc: Doc, j: Judge, s: Claim) {
    kw.condition.Some? ==>
      && s(doc, kw.condition.value)
      && var branch := Branch(kw, j(doc, kw.condition.value).valid); branch.Some? ==> s(doc, branch.value)
  }

  // Every subschema that the verdict of kw rests on satisfies s.
  ghost predicate Consulted(kw: Keywords, doc: Doc, j: Judge, s: Claim) {
    && (kw.ref.To? ==> s(doc, kw.ref.target))
    && OnItems(kw, doc, s)
    && OnContains(kw, doc, s)
    && OnMembers(kw, doc, s)
    && ConditionConsulted(kw, doc, j, s)
    && OnAll(kw.allOf, doc, s)
    && OnAll(Alternatives(kw.anyOf), doc, s)
    && OnAll(Alternatives(kw.oneOf), doc, s)
    && (kw.negated.Some? ==> s(doc, kw.negated.value))
    && OnUnevaluated(kw, doc, Evaluated(kw, doc, j), s)
  }

  // Depth k is enough: no unrolling on which the verdict rests is cut off.
  ghost predicate Settled(table: Table, k: nat, doc: Doc, id: nat)
    decreases k, 0
  {
    match table(id)
    case Boolean(_) => true
    case Inert => true
    case Object(kw) =>
      k > 0
      && (kw.ref.Unresolved?
          || (if kw.ref.To? && !kw.siblings then Settled(table, k - 1, doc, kw.ref.target)
              else Consulted(kw, doc, JudgeAt(table, k - 1), SettledAt(table, k - 1))))
  }

  ghost function SettledAt(table: Table, k: nat): Claim
    decreases k, 1
  {
    (d: Doc, i: nat) => Settled(table, k, d, i)
  }

  // ---- A settled verdict does not depend on the depth ----

  // j and l agree wherever s holds.
  ghost predicate AgreeOn(j: Judge, l: Judge, s: Claim) {
    forall d: Doc, i: nat :: s(d, i) ==> j(d, i) == l(d, i)
  }

  lemma {:induction false} GatherAgree(ids: seq<nat>, n: nat, doc: Doc, j: Judge, l: Judge, s: Claim)
    requires n <= |ids| && AgreeOn(j, l, s) && OnAll(ids, doc, s)
    ensures Gather(ids, n, doc, j) == Gather(ids, n, doc, l)
  {
    if n > 0 {
      GatherAgree(ids, n - 1, doc, j, l, s);
      assert s(doc, ids[n - 1]);
    }
  }

  lemma AlternativesAgree(kw: Keywords, doc: Doc, j: Judge, l: Judge, s: Claim)
    requires AgreeOn(j, l, s) && OnAll(Alternatives(kw.anyOf), doc, s) && OnAll(Alternatives(kw.oneOf), doc, s)
    ensures AnyHolds(kw, doc, j) == AnyHolds(kw, doc, l)
    ensures OneHolds(kw, doc, j) == OneHolds(kw, doc, l) && OneNotes(kw, doc, j) == OneNotes(kw, doc, l)
    ensures Gather(Alternatives(kw.anyOf), |Alternatives(kw.anyOf)|, doc, j)
         == Gather(Alternatives(kw.anyOf), |Alternatives(kw.anyOf)|, doc, l)
  {
    var any, one := Alternatives(kw.anyOf), Alternatives(kw.oneOf);
    assert forall i :: 0 <= i < |any| ==> s(doc, any[i]);
    assert forall i :: 0 <= i < |one| ==> s(doc, one[i]);
    GatherAgree(any, |any|, doc, j, l, s);
    GatherAgree(one, |one|, doc, j, l, s);
    assert Passing(one, doc, j) == Passing(one, doc, l);
  }

  lemma ContainsAgree(kw: Keywords, doc: Doc, j: Judge, l: Judge, s: Claim)
    requires AgreeOn(j, l, s) && OnContains(kw, doc, s)
    ensures ContainsHolds(kw, doc, j) == ContainsHolds(kw, doc, l)
    ensures ContainsNotes(kw, doc, j) == ContainsNotes(kw, doc, l)
  {
    if doc.List? && kw.contains.Some? {
      assert forall i :: 0 <= i < |doc.items| ==> s(doc.items[i], kw.contains.value);
      assert Matching(kw, doc, j) == Matching(kw, doc, l);
    }
  }

  lemma ConditionAgree(kw: Keywords, doc: Doc, j: Judge, l: Judge, s: Claim)
    requires AgreeOn(j, l, s) && ConditionConsulted(kw, doc, j, s)
    ensures ConditionHolds(kw, doc, j) == ConditionHolds(kw, doc, l)
    ensures ConditionNotes(kw, doc, j) == ConditionNotes(kw, doc, l)
    ensures ConditionConsulted(kw, doc, l, s)
  {
  }

  lemma EvaluatedAgree(kw: Keywords, doc: Doc, j: Judge, l: Judge, s: Claim)
    requires AgreeOn(j, l, s) && Consulted(kw, doc, j, s)
    ensures Evaluated(kw, doc, j) == Evaluated(kw, doc, l)
  {
    AlternativesAgree(kw, doc, j, l, s);
    ContainsAgree(kw, doc, j, l, s);
    ConditionAgree(kw, doc, j, l, s);
    GatherAgree(kw.allOf, |kw.allOf|, doc, j, l, s);
    hide ContainsNotes, OneNotes, ConditionNotes, ItemNotes, MemberNotes, OnItems, OnMembers, OnContains;
    hide OnUnevaluated, Gather;
  }

  // p and q agree wherever s holds.
  ghost predicate SameOn(p: Claim, q: Claim, s: Claim) {
    forall d: Doc, i: nat :: s(d, i) ==> p(d, i) == q(d, i)
  }

  lemma ItemsAgree(kw: Keywords, doc: Doc, p: Claim, q: Claim, s: Claim)
    requires SameOn(p, q, s) && OnItems(kw, doc, s)
    ensures OnItems(kw, doc, p) == OnItems(kw, doc, q)
  {
  }

  lemma MembersAgree(kw: Keywords, doc: Doc, p: Claim, q: Claim, s: Claim)
    requires SameOn(p, q, s) && OnMembers(kw, doc, s)
    ensures OnMembers(kw, doc, p) == OnMembers(kw, doc, q)
  {
  }

  lemma AllAgree(ids: seq<nat>, doc: Doc, p: Claim, q: Claim, s: Claim)
    requires SameOn(p, q, s) && OnAll(ids, doc, s)
    ensures OnAll(ids, doc, p) == OnAll(ids, doc, q)
  {
  }

  lemma UnevaluatedAgree(kw: Keywords, doc: Doc, seen: Notes, p: Claim, q: Claim, s: Claim)
    requires SameOn(p, q, s) && OnUnevaluated(kw, doc, seen, s)
    ensures OnUnevaluated(kw, doc, seen, p) == OnUnevaluated(kw, doc, seen, q)
  {
  }

  lemma ShapesAgree(kw: Keywords, doc: Doc, j: Judge, p: Claim, q: Claim, s: Claim)
    requires SameOn(p, q, s) && Consulted(kw, doc, j, s)
    ensures OnItems(kw, doc, p) == OnItems(kw, doc, q)
    ensures OnMembers(kw, doc, p) == OnMembers(kw, doc, q)
    ensures OnAll(kw.allOf, doc, p) == OnAll(kw.allOf, doc, q)
    ensures OnUnevaluated(kw, doc, Evaluated(kw, doc, j), p) == OnUnevaluated(kw, doc, Evaluated(kw, doc, j), q)
  {
    hide OnItems, OnMembers, OnContains, OnUnevaluated, OnAll, Evaluated, SameOn;
    ItemsAgree(kw, doc, p, q, s);
    MembersAgree(kw, doc, p, q, s);
    AllAgree(kw.allOf, doc, p, q, s);
    UnevaluatedAgree(kw, doc, Evaluated(kw, doc, j), p, q, s);
  }

  lemma AcceptedAgree(kw: Keywords, doc: Doc, j: Judge, l: Judge, s: Claim)
    requires AgreeOn(j, l, s) && Consulted(kw, doc, j, s)
    ensures SameOn(Accepted(j), Accepted(l), s)
    ensures kw.ref.To? ==> j(doc, kw.ref.target) == l(doc, kw.ref.target)
    ensures kw.negated.Some? ==> j(doc, kw.negated.value) == l(doc, kw.negated.value)
  {
    hide OnItems, OnMembers, OnContains, OnUnevaluated, OnAll, Evaluated, ConditionConsulted;
  }

  lemma RulesAgree(kw: Keywords, doc: Doc, j: Judge, l: Judge, s: Claim)
    requires AgreeOn(j, l, s) && Consulted(kw, doc, j, s)
    ensures Rules(kw, doc, j) == Rules(kw, doc, l)
  {
    hide OnItems, OnMembers, OnContains, OnUnevaluated, OnAll, Evaluated, AgreeOn, ContainsHolds, SameOn, Accepted;
    hide ConditionHolds, AnyHolds, OneHolds, AssertionsHold, UnevaluatedNotes, ConditionConsulted, OneNotes, Gather;
    AcceptedAgree(kw, doc, j, l, s);
    EvaluatedAgree(kw, doc, j, l, s);
    AlternativesAgree(kw, doc, j, l, s);
    ContainsAgree(kw, doc, j, l, s);
    ConditionAgree(kw, doc, j, l, s);
    ShapesAgree(kw, doc, j, Accepted(j), Accepted(l), s);
  }

  // What is consulted under j stays consulted under an agreeing judge and a
  // weaker claim.
  lemma ConsultedAgree(kw: Keywords, doc: Doc, j: Judge, l: Judge, s: Claim, t: Claim)
    requires AgreeOn(j, l, s) && Consulted(kw, doc, j, s)
    requires forall d: Doc, i: nat :: s(d, i) ==> t(d, i)
    ensures Consulted(kw, doc, l, t)
  {
    EvaluatedAgree(kw, doc, j, l, s);
    ConditionAgree(kw, doc, j, l, s);
    assert SameOn(s, t, s);
    hide OnItems, OnMembers, OnContains, OnUnevaluated, OnAll, Evaluated, AgreeOn, SameOn, Branch;
    ShapesAgree(kw, doc, j, s, t, s);
    ContainsWeaker(kw, doc, s, t);
    AllAgree(Alternatives(kw.anyOf), doc, s, t, s);
    AllAgree(Alternatives(kw.oneOf), doc, s, t, s);
  }

  lemma ContainsWeaker(kw: Keywords, doc: Doc, s: Claim, t: Claim)
    requires OnContains(kw, doc, s) && SameOn(s, t, s)
    ensures OnContains(kw, doc, t)
  {
  }

  // Once settled, more depth changes nothing.
  lemma {:induction false} DeeperAgrees(table: Table, k: nat, more: nat, doc: Doc, id: nat)
    requires Settled(table, k, doc, id) && k <= more
    ensures Settled(table, more, doc, id)
    ensures Meaning(table, more, doc, id) == Meaning(table, k, doc, id)
    decreases k
  {
    var schema := table(id);
    if schema.Object? && !schema.kw.ref.Unresolved? {
      var kw := schema.kw;
      if kw.ref.To? && !kw.siblings {
        DeeperAgrees(table, k - 1, more - 1, doc, kw.ref.target);
      } else {
        var s, t := SettledAt(table, k - 1), SettledAt(table, more - 1);
        var j, l := JudgeAt(table, k - 1), JudgeAt(table, more - 1);
        forall d: Doc, i: nat | s(d, i)
          ensures t(d, i) && j(d, i) == l(d, i)
        {
          DeeperAgrees(table, k - 1, more - 1, d, i);
        }
        hide Rules, Consulted;
        RulesAgree(kw, doc, j, l, s);
        ConsultedAgree(kw, doc, j, l, s, t);
      }
    }
  }
}
