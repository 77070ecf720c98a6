// Printing and parsing: the text a document is printed as parses back to the
// document.

module RoundTrip {
  import opened JsonValue
  import opened Pointer
  import opened Numbers
  import opened Utf8
  import opened Strings
  import opened NumberText
  import opened Grammar
  import opened Syntax
  import opened Printer
  import opened DoubleText
  import opened DomParser

  // ---- The value of a document ----

  function DocValue(doc: Doc): Json
    decreases doc
  {
    match doc
    case Scalar(v) => v
    case List(items) => Arr(seq(|items|, i requires 0 <= i < |items| => DocValue(items[i])))
    case Dict(fields) => Obj(FieldMap(fields))
  }

  function FieldMap(fields: seq<Field>): map<Bytes, Json>
    decreases fields
  {
    if fields == [] then map[]
    else FieldMap(fields[..|fields| - 1])[fields[|fields| - 1].key := DocValue(fields[|fields| - 1].value)]
  }

  lemma {:induction false} FieldMapIs(fields: seq<Field>)
    requires forall i, j :: 0 <= i < j < |fields| ==> fields[i].key != fields[j].key
    ensures forall i :: 0 <= i < |fields| ==>
      fields[i].key in FieldMap(fields) && FieldMap(fields)[fields[i].key] == DocValue(fields[i].value)
    ensures forall k :: k in FieldMap(fields) ==> exists i :: 0 <= i < |fields| && fields[i].key == k
    decreases |fields|
  {
    if fields != [] {
      var before := fields[..|fields| - 1];
      FieldMapIs(before);
      forall i | 0 <= i < |fields|
        ensures fields[i].key in FieldMap(fields) && FieldMap(fields)[fields[i].key] == DocValue(fields[i].value)
      {
        if i < |before| { assert before[i] == fields[i]; }
      }
      forall k | k in FieldMap(fields) ensures exists i :: 0 <= i < |fields| && fields[i].key == k {
        if k in FieldMap(before) {
          var i :| 0 <= i < |before| && before[i].key == k;
          assert fields[i].key == k;
        }
      }
    }
  }

  lemma {:induction false} MemberBuilt(ms: seq<Member>, i: nat, opts: Options)
    requires DistinctKeys(ms) && i < |ms|
    ensures ms[i].key in BuildMembers(ms, opts) && BuildMembers(ms, opts)[ms[i].key] == Build(ms[i].value, opts)
    decreases |ms|
  {
    hide Build;
    var before, last := ms[..|ms| - 1], ms[|ms| - 1];
    if i < |before| {
      assert before[i] == ms[i];
      MemberBuilt(before, i, opts);
    } else {
      assert !HasKey(before, last.key);
    }
  }

  lemma DistinctMembers(ms: seq<Member>, opts: Options)
    requires DistinctKeys(ms)
    ensures forall i :: 0 <= i < |ms| ==>
      ms[i].key in BuildMembers(ms, opts) && BuildMembers(ms, opts)[ms[i].key] == Build(ms[i].value, opts)
  {
    hide Build, BuildMembers, DistinctKeys, HasKey;
    forall i | 0 <= i < |ms|
      ensures ms[i].key in BuildMembers(ms, opts) && BuildMembers(ms, opts)[ms[i].key] == Build(ms[i].value, opts)
    {
      MemberBuilt(ms, i, opts);
    }
  }

  // Only finite doubles, and no deeper than d.
  predicate FiniteWithin(doc: Doc, d: nat)
    decreases doc
  {
    match doc
    case Scalar(v) => v.Double? ==> v.d.Finite?
    case List(items) => d > 0 && forall i :: 0 <= i < |items| ==> FiniteWithin(items[i], d - 1)
    case Dict(fields) => d > 0 && forall i :: 0 <= i < |fields| ==> FiniteWithin(fields[i].value, d - 1)
  }

  function DocNodes(doc: Doc): nat
    decreases doc
  {
    match doc
    case Scalar(_) => 1
    case List(items) => 1 + ListNodes(items)
    case Dict(fields) => 1 + DictNodes(fields)
  }

  function ListNodes(items: seq<Doc>): nat
    decreases items
  {
    if items == [] then 0 else ListNodes(items[..|items| - 1]) + DocNodes(items[|items| - 1])
  }

  function DictNodes(fields: seq<Field>): nat
    decreases fields
  {
    if fields == [] then 0 else DictNodes(fields[..|fields| - 1]) + DocNodes(fields[|fields| - 1].value)
  }

  // ---- The number codec ----

  // Digit generation and text-to-double conversion: any token with the sign and
  // the value of a double's shortest decimal reads as that double.
  ghost predicate InversePair(shortest: Float -> Shortest, read: Bytes -> Reading) {
    forall f: Float :: f.Finite? ==>
      && ShortestOk(shortest(f)) && shortest(f).negative == f.negative
      && forall c: Cst :: Reads(c, shortest(f)) ==> ReadsAs(read(NumberThen(c, [])), f)
  }

  ghost predicate Reads(c: Cst, r: Shortest) {
    c.CNumber? && Wf(c) && ShortestOk(r) && c.minus == r.negative && TokenValue(c) == ShortestValue(r)
  }

  predicate SameDouble(f: Float, g: Float) {
    f.Finite? && g.Finite? && f.negative == g.negative && FiniteValue(f) == FiniteValue(g)
  }

  ghost predicate ReadsAs(r: Reading, f: Float) {
    r.Readable? && SameDouble(f, r.f)
  }

  ghost predicate Codec(shortest: Float -> Shortest, sopts: SerializeOptions, popts: Options) {
    && InversePair(shortest, popts.read)
    && forall f: Float :: f.Finite? && ShortestOk(shortest(f)) ==>
      sopts.number(f) == NumberThen(Layout(shortest(f)), [])
  }

  // What comes back: the same tree, except that a small unsigned integer is
  // signed afterwards and a double may be represented differently.
  predicate Returns(v: Json, w: Json)
    decreases v
  {
    match v
    case UInt(u) => w == if u <= INT64_MAX then Int(u) else UInt(u)
    case Double(f) => w.Double? && SameDouble(f, w.d)
    case Arr(items) => w.Arr? && |items| == |w.items| && forall i :: 0 <= i < |items| ==> Returns(items[i], w.items[i])
    case Obj(members) =>
      w.Obj? && members.Keys == w.members.Keys && forall k :: k in members ==> Returns(members[k], w.members[k])
    case _ => w == v
  }

  lemma {:induction false} ReturnsEqual(v: Json, w: Json)
    requires Returns(v, w)
    ensures Equal(v, w)
    decreases v
  {
    match v
    case Arr(items) =>
      forall i | 0 <= i < |items| ensures Equal(items[i], w.items[i]) {
        ReturnsEqual(items[i], w.items[i]);
      }
    case Obj(members) =>
      forall k | k in members ensures Equal(members[k], w.members[k]) {
        ReturnsEqual(members[k], w.members[k]);
      }
    case _ =>
  }

  // ---- The parse that printing aims at ----

  predicate ScalarSpelt(v: Json, raw: Raw, opts: SerializeOptions) {
    match v
    case Null => raw == RNull
    case Bool(b) => raw == RBool(b)
    case Int(i) => raw == RNumber(SignedDecimal(i), false)
    case UInt(u) => raw == RNumber(SignedDecimal(u), false)
    case Double(f) => raw == RNumber(opts.number(f), true)
    case Str(s) => raw == RString(s)
    case _ => false
  }

  predicate Spelt(doc: Doc, raw: Raw, opts: SerializeOptions)
    decreases doc
  {
    match doc
    case Scalar(v) => ScalarSpelt(v, raw, opts)
    case List(items) =>
      raw.RArray? && |raw.items| == |items| && forall i :: 0 <= i < |items| ==> Spelt(items[i], raw.items[i], opts)
    case Dict(fields) =>
      raw.RObject? && |raw.members| == |fields| && forall i :: 0 <= i < |fields| ==>
        raw.members[i].key == fields[i].key && Spelt(fields[i].value, raw.members[i].value, opts)
  }

  lemma SignedRoundTrip(n: int)
    ensures IntegerValue(SignedDecimal(n)) == n
  {
    var d := Decimal(if n < 0 then -n else n);
    if n < 0 {
      assert SignedDecimal(n)[1..] == d;
    } else {
      assert IsDigit(d[0]);
    }
  }

  lemma DoubleReads(f: Float, shortest: Float -> Shortest, sopts: SerializeOptions, popts: Options)
    requires f.Finite? && Codec(shortest, sopts, popts)
    ensures ReadsAs(popts.read(sopts.number(f)), f)
  {
    LayoutPreserves(shortest(f));
    assert Reads(Layout(shortest(f)), shortest(f));
  }

  // A text that spells the document has its value, under any policy.
  lemma {:induction false} SpeltReturns(doc: Doc, raw: Raw, d: nat, shortest: Float -> Shortest,
                                        sopts: SerializeOptions, popts: Options)
    requires DocOk(doc) && FiniteWithin(doc, d) && Spelt(doc, raw, sopts) && Codec(shortest, sopts, popts)
    ensures Fits(raw, popts, d) && Nodes(raw) == DocNodes(doc)
    ensures Returns(DocValue(doc), Build(raw, popts))
    decreases doc
  {
    hide Codec, ScalarSpelt, Convert, BuildMembers, FieldMap, DistinctKeys;
    match doc
    case Scalar(v) => ScalarReturns(v, raw, d, shortest, sopts, popts);
    case List(items) =>
      forall i | 0 <= i < |items|
        ensures Fits(raw.items[i], popts, d - 1) && Nodes(raw.items[i]) == DocNodes(items[i])
        ensures Returns(DocValue(items[i]), Build(raw.items[i], popts))
      {
        SpeltReturns(items[i], raw.items[i], d - 1, shortest, sopts, popts);
      }
      SameListNodes(items, raw.items);
    case Dict(fields) =>
      forall i | 0 <= i < |fields|
        ensures Fits(raw.members[i].value, popts, d - 1) && Nodes(raw.members[i].value) == DocNodes(fields[i].value)
        ensures Returns(DocValue(fields[i].value), Build(raw.members[i].value, popts))
      {
        SpeltReturns(fields[i].value, raw.members[i].value, d - 1, shortest, sopts, popts);
      }
      SameDictNodes(fields, raw.members);
      FieldsReturn(fields, raw.members, popts);
  }

  lemma ScalarReturns(v: Json, raw: Raw, d: nat, shortest: Float -> Shortest, sopts: SerializeOptions, popts: Options)
    requires !IsContainer(v) && (v.Double? ==> v.d.Finite?) && ScalarSpelt(v, raw, sopts)
    requires Codec(shortest, sopts, popts)
    ensures Fits(raw, popts, d) && Nodes(raw) == 1 && Returns(v, Build(raw, popts))
  {
    hide Codec, SignedDecimal, IntegerValue;
    match v
    case Int(i) => SignedRoundTrip(i);
    case UInt(u) => SignedRoundTrip(u);
    case Double(f) => DoubleReads(f, shortest, sopts, popts);
    case _ =>
  }

  lemma {:induction false} SameListNodes(items: seq<Doc>, raws: seq<Raw>)
    requires |items| == |raws| && forall i :: 0 <= i < |items| ==> Nodes(raws[i]) == DocNodes(items[i])
    ensures ItemNodes(raws) == ListNodes(items)
    decreases |items|
  {
    if items != [] { SameListNodes(items[..|items| - 1], raws[..|raws| - 1]); }
  }

  lemma {:induction false} SameDictNodes(fields: seq<Field>, ms: seq<Member>)
    requires |fields| == |ms| && forall i :: 0 <= i < |fields| ==> Nodes(ms[i].value) == DocNodes(fields[i].value)
    ensures MemberNodes(ms) == DictNodes(fields)
    decreases |fields|
  {
    if fields != [] { SameDictNodes(fields[..|fields| - 1], ms[..|ms| - 1]); }
  }

  lemma FieldsReturn(fields: seq<Field>, ms: seq<Member>, popts: Options)
    requires |fields| == |ms| && (forall i, j :: 0 <= i < j < |fields| ==> fields[i].key != fields[j].key)
    requires forall i :: 0 <= i < |fields| ==>
      ms[i].key == fields[i].key && Returns(DocValue(fields[i].value), Build(ms[i].value, popts))
    ensures DistinctKeys(ms)
    ensures Returns(Obj(FieldMap(fields)), Obj(BuildMembers(ms, popts)))
  {
    hide Build, DocValue, BuildMembers, FieldMap;
    FieldMapIs(fields);
    DistinctMembers(ms, popts);
    var m, n := FieldMap(fields), BuildMembers(ms, popts);
    forall k | k in m ensures k in n && Returns(m[k], n[k]) {
      var i :| 0 <= i < |fields| && fields[i].key == k;
      assert ms[i].key == k;
    }
    forall k | k in n ensures k in m {
      var i :| 0 <= i < |ms| && ms[i].key == k;
      assert fields[i].key == k;
    }
  }

  // ---- The printed text has a syntax tree ----

  lemma {:induction false} UnitsAppend(us: seq<Unit>, x: Bytes, y: Bytes)
    requires UnitsOk(us)
    ensures UnitsThen(us, x + y) == UnitsThen(us, x) + y
    decreases |us|
  {
    if us != [] {
      UnitsAppend(us[1..], x, y);
      assert UnitText(us[0]) + (UnitsThen(us[1..], x) + y) == UnitText(us[0]) + UnitsThen(us[1..], x) + y;
    }
  }

  lemma StringAppend(us: seq<Unit>, x: Bytes, y: Bytes)
    requires UnitsOk(us)
    ensures StringThen(us, x + y) == StringThen(us, x) + y
  {
    UnitsAppend(us, [QUOTE] + x, y);
    assert [QUOTE] + (x + y) == [QUOTE] + x + y;
    assert [QUOTE] + (UnitsThen(us, [QUOTE] + x) + y) == [QUOTE] + UnitsThen(us, [QUOTE] + x) + y;
  }

  lemma Glue(a: Bytes, b: Bytes, c: Bytes)
    ensures a + (b + c) == a + b + c
  {
  }

  // What follows a text just follows it.
  lemma {:induction false} TextAppend(c: Cst, x: Bytes, y: Bytes)
    requires Wf(c)
    ensures TextThen(c, x + y) == TextThen(c, x) + y
    decreases c
  {
    match c
    case CNumber(_, _, _, _) =>
      NumberPrefix(c, x + y);
      NumberPrefix(c, x);
      Glue(NumberThen(c, []), x, y);
    case CString(us) => StringAppend(us, x, y);
    case CArray(blank, es) =>
      Glue([CLOSE_BRACKET], x, y);
      if es == [] {
        Glue(blank, [CLOSE_BRACKET] + x, y);
        Glue([OPEN_BRACKET], blank + ([CLOSE_BRACKET] + x), y);
      } else {
        ElementsAppend(es, [CLOSE_BRACKET] + x, y);
        Glue([OPEN_BRACKET], ElementsThen(es, [CLOSE_BRACKET] + x), y);
      }
    case CObject(blank, es) =>
      Glue([CLOSE_BRACE], x, y);
      if es == [] {
        Glue(blank, [CLOSE_BRACE] + x, y);
        Glue([OPEN_BRACE], blank + ([CLOSE_BRACE] + x), y);
      } else {
        EntriesAppend(es, [CLOSE_BRACE] + x, y);
        Glue([OPEN_BRACE], EntriesThen(es, [CLOSE_BRACE] + x), y);
      }
    case CNull => Glue(NULL_WORD, x, y);
    case CTrue => Glue(TRUE_WORD, x, y);
    case CFalse => Glue(FALSE_WORD, x, y);
  }

  lemma {:induction false} ElementsAppend(es: seq<Element>, x: Bytes, y: Bytes)
    requires es != [] && ElementsOk(es)
    ensures ElementsThen(es, x + y) == ElementsThen(es, x) + y
    decreases es
  {
    hide TextThen, Wf, White;
    var e := es[0];
    var tail := if |es| == 1 then x else [COMMA] + ElementsThen(es[1..], x);
    var more := if |es| == 1 then x + y else [COMMA] + ElementsThen(es[1..], x + y);
    if |es| > 1 {
      ElementsAppend(es[1..], x, y);
      Glue([COMMA], ElementsThen(es[1..], x), y);
    }
    assert more == tail + y;
    Glue(e.after, tail, y);
    TextAppend(e.value, e.after + tail, y);
    Glue(e.before, TextThen(e.value, e.after + tail), y);
  }

  lemma {:induction false} EntriesAppend(es: seq<Entry>, x: Bytes, y: Bytes)
    requires es != [] && EntriesOk(es)
    ensures EntriesThen(es, x + y) == EntriesThen(es, x) + y
    decreases es
  {
    hide TextThen, StringThen, Wf, White, UnitsOk;
    var e := es[0];
    var tail := if |es| == 1 then x else [COMMA] + EntriesThen(es[1..], x);
    var more := if |es| == 1 then x + y else [COMMA] + EntriesThen(es[1..], x + y);
    if |es| > 1 {
      EntriesAppend(es[1..], x, y);
      Glue([COMMA], EntriesThen(es[1..], x), y);
    }
    assert more == tail + y;
    Glue(e.after, tail, y);
    TextAppend(e.value, e.after + tail, y);
    var v := TextThen(e.value, e.after + tail);
    Glue(e.gap, v, y);
    Glue([COLON], e.gap + v, y);
    Glue(e.mid, [COLON] + (e.gap + v), y);
    StringAppend(e.key, e.mid + ([COLON] + (e.gap + v)), y);
    Glue(e.before, StringThen(e.key, e.mid + ([COLON] + (e.gap + v))), y);
  }

  lemma TextEnds(c: Cst, y: Bytes)
    requires Wf(c)
    ensures TextThen(c, y) == TextThen(c, []) + y
  {
    TextAppend(c, [], y);
    assert [] + y == y;
  }

  lemma IndentWhite(depth: nat, opts: SerializeOptions)
    ensures White(Indent(depth, opts).text)
  {
    if opts.pretty && Width(depth, opts).fault == NoFault {
      var w := Repeat(IndentByte(opts), depth * opts.indentWidth);
      assert White(w);
      assert Indent(depth, opts).text == [NEWLINE] + w;
    }
  }

  // The tree spells the document, with every surrogate escape paired.
  predicate Spells(doc: Doc, c: Cst, opts: SerializeOptions)
    requires Wf(c)
  {
    AllPaired(c) && Spelt(doc, RawOf(c), opts)
  }

  predicate Names(us: seq<Unit>, key: Bytes)
    requires UnitsOk(us)
  {
    SurrogatesPaired(us) && UnitsMeaning(us) == key
  }

  // A printed string and the syntax of its body.
  lemma QuotedSyntax(s: Bytes, opts: SerializeOptions) returns (us: seq<Unit>)
    requires Escaped(s, opts.escapeNonAscii).fault == NoFault
    ensures UnitsOk(us) && Names(us, s)
    ensures StringThen(us, []) == [QUOTE] + Escaped(s, opts.escapeNonAscii).text + [QUOTE]
  {
    var e := Escaped(s, opts.escapeNonAscii);
    EscapeThenDecode(s, opts.escapeNonAscii, []);
    assert e.text + [QUOTE] + [] == e.text + [QUOTE];
    us := UnitsSound(e.text + [QUOTE]);
    assert [QUOTE] + [] == [QUOTE];
    Glue([QUOTE], e.text, [QUOTE]);
  }

  lemma ScalarSyntax(v: Json, opts: SerializeOptions, shortest: Float -> Shortest, popts: Options) returns (c: Cst)
    requires !IsContainer(v) && (v.Double? ==> v.d.Finite?) && RenderScalar(v, opts).fault == NoFault
    requires Codec(shortest, opts, popts)
    ensures Wf(c) && AllPaired(c) && TextThen(c, []) == RenderScalar(v, opts).text
    ensures ScalarSpelt(v, RawOf(c), opts)
  {
    hide Escaped, Decimal;
    match v
    case Null =>
      c := CNull;
      assert NULL_WORD + [] == NULL_WORD;
    case Bool(b) =>
      c := if b then CTrue else CFalse;
      assert TRUE_WORD + [] == TRUE_WORD && FALSE_WORD + [] == FALSE_WORD;
    case Int(i) => c := IntegerSyntax(i);
    case UInt(u) => c := IntegerSyntax(u);
    case Double(f) =>
      c := Layout(shortest(f));
      LayoutPreserves(shortest(f));
    case Str(s) =>
      var us := QuotedSyntax(s, opts);
      c := CString(us);
      Glue([QUOTE], Escaped(s, opts.escapeNonAscii).text, [QUOTE]);
  }

  lemma IntegerSyntax(n: int) returns (c: Cst)
    ensures Wf(c) && AllPaired(c) && TextThen(c, []) == SignedDecimal(n)
    ensures RawOf(c) == RNumber(SignedDecimal(n), false)
  {
    hide Decimal, DecimalValue;
    var d := Decimal(if n < 0 then -n else n);
    c := CNumber(n < 0, d, [], NoExponent);
    assert d + [] == d;
    assert [] + d == d;
    assert NumberThen(c, []) == SignedDecimal(n);
  }

  lemma ThenClean(a: Emission, b: Emission)
    ensures Then(a, b).fault == NoFault <==> a.fault == NoFault && b.fault == NoFault
    ensures Then(a, b).fault == NoFault ==> Then(a, b).text == a.text + b.text
  {
  }

  lemma {:induction false} SyntaxOf(doc: Doc, depth: nat, d: nat, opts: SerializeOptions, shortest: Float -> Shortest,
                                    popts: Options)
    returns (c: Cst)
    requires DocOk(doc) && FiniteWithin(doc, d) && Codec(shortest, opts, popts)
      && Render(doc, depth, opts).fault == NoFault
    ensures Wf(c) && TextThen(c, []) == Render(doc, depth, opts).text && Spells(doc, c, opts)
    decreases doc, 1, 0
  {
    hide Codec, RenderRest, RenderScalar, ScalarSpelt, Then, Wf, TextThen, RawOf, ElementsThen, EntriesThen, AllPaired;
    if doc.Scalar? {
      c := ScalarSyntax(doc.v, opts, shortest, popts);
    } else if Count(doc) == 0 {
      EmptySyntax(doc, opts);
      c := if doc.Dict? then CObject([], []) else CArray([], []);
    } else {
      ThenClean(Emit([Opener(doc)]), RenderRest(doc, 0, true, depth, opts));
      if doc.List? {
        var es := ListSyntax(doc, 0, true, depth, d, opts, shortest, popts);
        ArrayOf(doc, es, opts);
        c := CArray([], es);
      } else {
        var es := DictSyntax(doc, 0, true, depth, d, opts, shortest, popts);
        ObjectOf(doc, es, opts);
        c := CObject([], es);
      }
    }
  }

  lemma ArrayOf(doc: Doc, es: seq<Element>, opts: SerializeOptions)
    requires doc.List? && |es| == |doc.items| > 0 && ElementsOk(es)
    requires forall k :: 0 <= k < |es| ==> Spells(doc.items[0 + k], es[k].value, opts)
    ensures var c := CArray([], es);
            Wf(c) && TextThen(c, []) == [OPEN_BRACKET] + ([] + ElementsThen(es, [CLOSE_BRACKET]))
              && Spells(doc, c, opts)
  {
    hide ElementsThen, White, ScalarSpelt;
    assert [CLOSE_BRACKET] + [] == [CLOSE_BRACKET];
    assert [] + ElementsThen(es, [CLOSE_BRACKET]) == ElementsThen(es, [CLOSE_BRACKET]);
    NoWhite();
  }

  lemma ObjectOf(doc: Doc, es: seq<Entry>, opts: SerializeOptions)
    requires doc.Dict? && |es| == |doc.fields| > 0 && EntriesOk(es)
    requires forall k :: 0 <= k < |es| ==>
      Names(es[k].key, doc.fields[0 + k].key) && Spells(doc.fields[0 + k].value, es[k].value, opts)
    ensures var c := CObject([], es);
            Wf(c) && TextThen(c, []) == [OPEN_BRACE] + ([] + EntriesThen(es, [CLOSE_BRACE])) && Spells(doc, c, opts)
  {
    hide EntriesThen, White, ScalarSpelt, UnitsOk, UnitsMeaning, SurrogatesPaired;
    assert [CLOSE_BRACE] + [] == [CLOSE_BRACE];
    assert [] + EntriesThen(es, [CLOSE_BRACE]) == EntriesThen(es, [CLOSE_BRACE]);
    NoWhite();
  }

  lemma EmptySyntax(doc: Doc, opts: SerializeOptions)
    requires !doc.Scalar? && Count(doc) == 0
    ensures var c := if doc.Dict? then CObject([], []) else CArray([], []);
            Wf(c) && TextThen(c, []) == [Opener(doc), Closer(doc)] && Spells(doc, c, opts)
  {
  }

  // The pieces of RenderRest at a child, all without fault.
  lemma RestParts(doc: Doc, i: nat, first: bool, depth: nat, opts: SerializeOptions)
    requires DocOk(doc) && i < Count(doc) && RenderRest(doc, i, first, depth, opts).fault == NoFault
    ensures Lead(doc, i, first, depth, opts).fault == NoFault
    ensures Render(ChildAt(doc, i), depth + 1, opts).fault == NoFault
    ensures RenderRest(doc, i + 1, false, depth, opts).fault == NoFault
    ensures RenderRest(doc, i, first, depth, opts).text
         == Lead(doc, i, first, depth, opts).text
           + (Render(ChildAt(doc, i), depth + 1, opts).text + RenderRest(doc, i + 1, false, depth, opts).text)
  {
    hide Lead, Render;
  }

  lemma RestEnd(doc: Doc, depth: nat, opts: SerializeOptions)
    requires DocOk(doc) && RenderRest(doc, Count(doc), false, depth, opts).fault == NoFault
    ensures RenderRest(doc, Count(doc), false, depth, opts).text == Indent(depth, opts).text + [Closer(doc)]
  {
  }

  lemma ListLead(doc: Doc, i: nat, first: bool, depth: nat, opts: SerializeOptions)
    requires doc.List? && i < Count(doc) && Lead(doc, i, first, depth, opts).fault == NoFault
    ensures Lead(doc, i, first, depth, opts).text == (if first then [] else [COMMA]) + Indent(depth + 1, opts).text
  {
    ThenSilent(Indent(depth + 1, opts));
  }

  // Elements i onwards: the text after the separator, up to the closing bracket.
  lemma {:induction false} ListSyntax(doc: Doc, i: nat, first: bool, depth: nat, d: nat, opts: SerializeOptions,
                                      shortest: Float -> Shortest, popts: Options)
    returns (es: seq<Element>)
    requires doc.List? && DocOk(doc) && FiniteWithin(doc, d) && Codec(shortest, opts, popts) && i < Count(doc)
    requires RenderRest(doc, i, first, depth, opts).fault == NoFault
    ensures |es| == Count(doc) - i && ElementsOk(es)
    ensures RenderRest(doc, i, first, depth, opts).text
      == (if first then [] else [COMMA]) + ElementsThen(es, [CLOSE_BRACKET])
    ensures forall k :: 0 <= k < |es| ==> Spells(doc.items[i + k], es[k].value, opts)
    decreases doc, 0, Count(doc) - i
  {
    hide Codec, Render, RenderRest, Lead, Spelt, Spells, Names, TextThen, Indent, White, Wf, RawOf;
    RestParts(doc, i, first, depth, opts);
    ListLead(doc, i, first, depth, opts);
    var child := ChildAt(doc, i);
    var c := SyntaxOf(child, depth + 1, d - 1, opts, shortest, popts);
    var before, close := Indent(depth + 1, opts).text, [CLOSE_BRACKET];
    IndentWhite(depth + 1, opts);
    IndentWhite(depth, opts);
    assert White([]) by { NoWhite(); }
    var after: Bytes, more: seq<Element>, tail := [], [], close;
    if i + 1 == Count(doc) {
      RestEnd(doc, depth, opts);
      after := Indent(depth, opts).text;
    } else {
      more := ListSyntax(doc, i + 1, false, depth, d, opts, shortest, popts);
      tail := [COMMA] + ElementsThen(more, close);
    }
    assert RenderRest(doc, i + 1, false, depth, opts).text == after + tail by { assert [] + tail == tail; }
    es := [Element(before, c, after)] + more;
    assert es[1..] == more;
    TextEnds(c, after + tail);
    Glue(if first then [] else [COMMA], before, TextThen(c, after + tail));
    forall k | 0 <= k < |es| ensures Spells(doc.items[i + k], es[k].value, opts) {
      if k > 0 { assert es[k] == more[k - 1]; }
    }
  }

  lemma NoWhite()
    ensures White([])
  {
  }

  lemma DictLead(doc: Doc, i: nat, first: bool, depth: nat, opts: SerializeOptions)
    requires doc.Dict? && i < Count(doc) && Lead(doc, i, first, depth, opts).fault == NoFault
    ensures var e := Escaped(doc.fields[i].key, opts.escapeNonAscii);
            && e.fault == NoFault
            && Lead(doc, i, first, depth, opts).text ==
               (if first then [] else [COMMA]) + (Indent(depth + 1, opts).text + ([QUOTE] + (e.text + KeyEnd(opts))))
  {
    hide Escaped, Indent;
  }

  // An object's name with its colon, before the value.
  lemma EntryText(us: seq<Unit>, key: Bytes, gap: Bytes, value: Bytes, opts: SerializeOptions)
    requires UnitsOk(us) && StringThen(us, []) == [QUOTE] + Escaped(key, opts.escapeNonAscii).text + [QUOTE]
    requires gap == if opts.pretty then [' ' as int] else []
    ensures StringThen(us, [] + ([COLON] + (gap + value)))
         == [QUOTE] + (Escaped(key, opts.escapeNonAscii).text + KeyEnd(opts)) + value
  {
    hide Escaped, StringThen;
    var e := Escaped(key, opts.escapeNonAscii).text;
    var tail := [COLON] + (gap + value);
    StringAppend(us, [], tail);
    assert [] + tail == tail;
    KeyEndIs(gap, value, opts);
    Requote(e, KeyEnd(opts), tail, value);
  }

  lemma KeyEndIs(gap: Bytes, value: Bytes, opts: SerializeOptions)
    requires gap == if opts.pretty then [' ' as int] else []
    ensures [QUOTE] + ([COLON] + (gap + value)) == KeyEnd(opts) + value
  {
  }

  lemma Requote(e: Bytes, end: Bytes, tail: Bytes, value: Bytes)
    requires [QUOTE] + tail == end + value
    ensures [QUOTE] + e + [QUOTE] + tail == [QUOTE] + (e + end) + value
  {
    assert [QUOTE] + e + [QUOTE] + tail == [QUOTE] + e + ([QUOTE] + tail);
    assert [QUOTE] + e + (end + value) == [QUOTE] + (e + end) + value;
  }

  lemma {:induction false} DictSyntax(doc: Doc, i: nat, first: bool, depth: nat, d: nat, opts: SerializeOptions,
                                      shortest: Float -> Shortest, popts: Options)
    returns (es: seq<Entry>)
    requires doc.Dict? && DocOk(doc) && FiniteWithin(doc, d) && Codec(shortest, opts, popts) && i < Count(doc)
    requires RenderRest(doc, i, first, depth, opts).fault == NoFault
    ensures |es| == Count(doc) - i && EntriesOk(es)
    ensures RenderRest(doc, i, first, depth, opts).text
      == (if first then [] else [COMMA]) + EntriesThen(es, [CLOSE_BRACE])
    ensures forall k :: 0 <= k < |es| ==>
      Names(es[k].key, doc.fields[i + k].key) && Spells(doc.fields[i + k].value, es[k].value, opts)
    decreases doc, 0, Count(doc) - i
  {
    hide Codec, Render, RenderRest, Lead, Spelt, Spells, Names, TextThen, StringThen, Indent, White, Wf, RawOf, UnitsOk;
    hide UnitsMeaning, Escaped, KeyEnd;
    RestParts(doc, i, first, depth, opts);
    DictLead(doc, i, first, depth, opts);
    var child, key := ChildAt(doc, i), doc.fields[i].key;
    var c := SyntaxOf(child, depth + 1, d - 1, opts, shortest, popts);
    var us := QuotedSyntax(key, opts);
    var before, close := Indent(depth + 1, opts).text, [CLOSE_BRACE];
    var gap: Bytes := if opts.pretty then [' ' as int] else [];
    IndentWhite(depth + 1, opts);
    IndentWhite(depth, opts);
    assert White([]) && White(gap) by { NoWhite(); SpaceWhite(); }
    var after: Bytes, more: seq<Entry>, tail := [], [], close;
    if i + 1 == Count(doc) {
      RestEnd(doc, depth, opts);
      after := Indent(depth, opts).text;
    } else {
      more := DictSyntax(doc, i + 1, false, depth, d, opts, shortest, popts);
      tail := [COMMA] + EntriesThen(more, close);
    }
    assert RenderRest(doc, i + 1, false, depth, opts).text == after + tail by { assert [] + tail == tail; }
    es := [Entry(before, us, [], gap, c, after)] + more;
    assert es[1..] == more;
    var value := TextThen(c, after + tail);
    TextEnds(c, after + tail);
    EntryText(us, key, gap, value, opts);
    var name := [QUOTE] + (Escaped(key, opts.escapeNonAscii).text + KeyEnd(opts));
    LeadGlue(if first then [] else [COMMA], before, name, value);
    forall k | 0 <= k < |es|
      ensures Names(es[k].key, doc.fields[i + k].key) && Spells(doc.fields[i + k].value, es[k].value, opts)
    {
      if k > 0 { assert es[k] == more[k - 1]; }
    }
  }

  lemma SpaceWhite()
    ensures White([' ' as int])
  {
  }

  lemma LeadGlue(comma: Bytes, before: Bytes, name: Bytes, value: Bytes)
    ensures comma + (before + name) + value == comma + (before + (name + value))
  {
  }

  // ---- What was parsed can be printed ----

  ghost predicate RawValid(raw: Raw)
    decreases raw
  {
    match raw
    case RString(s) => ValidUtf8(s)
    case RArray(items) => forall i :: 0 <= i < |items| ==> RawValid(items[i])
    case RObject(ms) => forall i :: 0 <= i < |ms| ==> ValidUtf8(ms[i].key) && RawValid(ms[i].value)
    case _ => true
  }

  ghost predicate StringsValid(v: Json)
    decreases v
  {
    match v
    case Str(s) => ValidUtf8(s)
    case Arr(items) => forall i :: 0 <= i < |items| ==> StringsValid(items[i])
    case Obj(members) => forall k :: k in members ==> ValidUtf8(k) && StringsValid(members[k])
    case _ => true
  }

  lemma {:induction false} ParsedValid(s: Bytes)
    requires ParseValue(s).Parsed?
    ensures RawValid(ParseValue(s).raw)
    decreases |s|, 0
  {
    hide Decode, ScanNumber, Keyword;
    var t := SkipSpace(s);
    if t[0] == QUOTE { DecodedIsValid(t[1..]); }
    else if t[0] == OPEN_BRACE { MembersValid(t[1..], false, false); }
    else if t[0] == OPEN_BRACKET { ItemsValid(t[1..], false, false); }
    else if !StartsNumber(t[0]) { KeywordValid(t); }
  }

  lemma KeywordValid(t: Bytes)
    requires Keyword(t).Parsed?
    ensures RawValid(Keyword(t).raw)
  {
  }

  lemma {:induction false} ItemsValid(s: Bytes, any: bool, owed: bool)
    requires ParseArray(s, any, owed).Items?
    ensures forall i :: 0 <= i < |ParseArray(s, any, owed).items| ==> RawValid(ParseArray(s, any, owed).items[i])
    decreases |s|, 1
  {
    hide ParseValue;
    var t := SkipSpace(s);
    if t[0] == COMMA {
      ItemsValid(t[1..], any, true);
    } else if t[0] != CLOSE_BRACKET {
      ParsedValid(t);
      ItemsValid(ParseValue(t).rest, true, false);
    }
  }

  lemma {:induction false} MembersValid(s: Bytes, any: bool, owed: bool)
    requires ParseObject(s, any, owed).Members?
    ensures forall i :: 0 <= i < |ParseObject(s, any, owed).members| ==>
      ValidUtf8(ParseObject(s, any, owed).members[i].key) && RawValid(ParseObject(s, any, owed).members[i].value)
    decreases |s|, 1
  {
    hide ParseValue, Decode;
    var t := SkipSpace(s);
    if t[0] == COMMA {
      MembersValid(t[1..], any, true);
    } else if t[0] != CLOSE_BRACE {
      DecodedIsValid(t[1..]);
      var v := SkipSpace(Decode(t[1..]).rest);
      ParsedValid(v[1..]);
      MembersValid(ParseValue(v[1..]).rest, true, false);
    }
  }

  lemma {:induction false} BuiltValid(raw: Raw, opts: Options)
    requires RawValid(raw)
    ensures StringsValid(Build(raw, opts))
    decreases raw
  {
    match raw
    case RArray(items) =>
      forall i | 0 <= i < |items| ensures StringsValid(Build(items[i], opts)) { BuiltValid(items[i], opts); }
    case RObject(ms) =>
      BuiltMembersValid(ms, opts);
    case _ =>
  }

  lemma {:induction false} BuiltMembersValid(ms: seq<Member>, opts: Options)
    requires forall i :: 0 <= i < |ms| ==> ValidUtf8(ms[i].key) && RawValid(ms[i].value)
    ensures forall k :: k in BuildMembers(ms, opts) ==> ValidUtf8(k) && StringsValid(BuildMembers(ms, opts)[k])
    decreases ms
  {
    if ms != [] {
      BuiltMembersValid(ms[..|ms| - 1], opts);
      BuiltValid(ms[|ms| - 1].value, opts);
    }
  }

  lemma {:induction false} RenderEncodes(doc: Doc, depth: nat, opts: SerializeOptions)
    requires DocOk(doc) && StringsValid(DocValue(doc))
    ensures Render(doc, depth, opts).fault != InvalidUtf8
    decreases doc, 1, 0
  {
    hide RenderRest, Escaped, ValidUtf8;
    match doc
    case Scalar(v) => if v.Str? { EscapeThenDecode(v.s, opts.escapeNonAscii, []); }
    case _ => if Count(doc) > 0 { RestEncodes(doc, 0, true, depth, opts); }
  }

  lemma ChildEncodes(doc: Doc, i: nat)
    requires DocOk(doc) && StringsValid(DocValue(doc)) && i < Count(doc)
    ensures StringsValid(DocValue(ChildAt(doc, i))) && (doc.Dict? ==> ValidUtf8(doc.fields[i].key))
  {
    match doc
    case Dict(fields) => FieldMapIs(fields);
    case List(items) => assert DocValue(doc).items[i] == DocValue(items[i]);
  }

  lemma {:induction false} RestEncodes(doc: Doc, i: nat, first: bool, depth: nat, opts: SerializeOptions)
    requires DocOk(doc) && StringsValid(DocValue(doc)) && i <= Count(doc)
    ensures RenderRest(doc, i, first, depth, opts).fault != InvalidUtf8
    decreases doc, 0, Count(doc) - i
  {
    hide Escaped, Render, ValidUtf8, StringsValid, DocValue;
    if i < Count(doc) {
      ChildEncodes(doc, i);
      RenderEncodes(ChildAt(doc, i), depth + 1, opts);
      RestEncodes(doc, i + 1, false, depth, opts);
      if doc.Dict? { EscapeThenDecode(doc.fields[i].key, opts.escapeNonAscii, []); }
    }
  }

  // ---- What can be printed ----

  // No indentation up to this depth is wider than a size_t.
  predicate IndentFits(depth: nat, opts: SerializeOptions) {
    opts.pretty && opts.indentWidth != 0 ==> depth <= SIZE_MAX / opts.indentWidth
  }

  // The strings of a container from child i on.
  ghost predicate ChildrenValid(doc: Doc, i: nat) {
    forall k :: i <= k < Count(doc) ==>
      StringsValid(DocValue(ChildAt(doc, k))) && (doc.Dict? ==> ValidUtf8(doc.fields[k].key))
  }

  lemma ContainerValid(doc: Doc)
    requires DocOk(doc) && !doc.Scalar?
    ensures StringsValid(DocValue(doc)) <==> ChildrenValid(doc, 0)
  {
    hide ValidUtf8;
    if StringsValid(DocValue(doc)) {
      forall k | 0 <= k < Count(doc)
        ensures StringsValid(DocValue(ChildAt(doc, k))) && (doc.Dict? ==> ValidUtf8(doc.fields[k].key))
      {
        ChildEncodes(doc, k);
      }
    }
    if ChildrenValid(doc, 0) {
      match doc
      case List(items) =>
        forall i | 0 <= i < |items| ensures StringsValid(DocValue(doc).items[i]) {
          assert ChildAt(doc, i) == items[i];
        }
      case Dict(fields) =>
        FieldMapIs(fields);
        forall k | k in FieldMap(fields) ensures ValidUtf8(k) && StringsValid(FieldMap(fields)[k]) {
          var i :| 0 <= i < |fields| && fields[i].key == k;
          assert ChildAt(doc, i) == fields[i].value;
        }
    }
  }

  lemma IndentClean(depth: nat, more: nat, opts: SerializeOptions)
    requires IndentFits(more, opts) && depth <= more
    ensures Indent(depth, opts).fault == NoFault
  {
  }

  lemma LeadClean(doc: Doc, i: nat, first: bool, depth: nat, more: nat, opts: SerializeOptions)
    requires i < Count(doc) && IndentFits(more, opts) && depth + 1 <= more
    ensures var e := Lead(doc, i, first, depth, opts);
            && (e.fault == NoFault || e.fault == InvalidUtf8)
            && (e.fault == NoFault <==> (doc.Dict? ==> ValidUtf8(doc.fields[i].key)))
  {
    hide Escaped, ValidUtf8, Indent;
    IndentClean(depth + 1, more, opts);
    if doc.Dict? { EscapeThenDecode(doc.fields[i].key, opts.escapeNonAscii, []); }
  }

  // A document with finite numbers prints exactly when its strings are valid
  // UTF-8; nothing else can go wrong before the output limit.
  lemma {:induction false} RenderClean(doc: Doc, depth: nat, d: nat, opts: SerializeOptions)
    requires DocOk(doc) && FiniteWithin(doc, d) && IndentFits(depth + d, opts)
    ensures var e := Render(doc, depth, opts);
            (e.fault == NoFault || e.fault == InvalidUtf8) && (e.fault == NoFault <==> StringsValid(DocValue(doc)))
    decreases doc, 1, 0
  {
    hide RenderRest, Escaped, ValidUtf8;
    match doc
    case Scalar(v) => if v.Str? { EscapeThenDecode(v.s, opts.escapeNonAscii, []); }
    case _ =>
      ContainerValid(doc);
      if Count(doc) > 0 { RestClean(doc, 0, true, depth, d, opts); }
  }

  lemma {:induction false} RestClean(doc: Doc, i: nat, first: bool, depth: nat, d: nat, opts: SerializeOptions)
    requires DocOk(doc) && FiniteWithin(doc, d) && d > 0 && IndentFits(depth + d, opts) && i <= Count(doc)
    ensures var e := RenderRest(doc, i, first, depth, opts);
            (e.fault == NoFault || e.fault == InvalidUtf8) && (e.fault == NoFault <==> ChildrenValid(doc, i))
    decreases doc, 0, Count(doc) - i
  {
    hide Escaped, Render, ValidUtf8, StringsValid, DocValue, Lead, Indent;
    if i < Count(doc) {
      LeadClean(doc, i, first, depth, depth + d, opts);
      RenderClean(ChildAt(doc, i), depth + 1, d - 1, opts);
      RestClean(doc, i + 1, false, depth, d, opts);
      assert ChildrenValid(doc, i) <==>
        && ChildrenValid(doc, i + 1)
        && StringsValid(DocValue(ChildAt(doc, i))) && (doc.Dict? ==> ValidUtf8(doc.fields[i].key));
    } else {
      IndentClean(depth, depth + d, opts);
    }
  }

  // No parsed document fails serialization for its encoding, in any iteration
  // order and with any options.
  lemma ParsedPrints(src: Bytes, popts: Options, doc: Doc, sopts: SerializeOptions)
    requires ParseDocument(src).Some? && DocOk(doc) && DocValue(doc) == Build(ParseDocument(src).value, popts)
    ensures Render(doc, 0, sopts).fault != InvalidUtf8
  {
    ParsedValid(src);
    BuiltValid(ParseDocument(src).value, popts);
    RenderEncodes(doc, 0, sopts);
  }

  // ---- Every tree is a document ----

  // In any order of its members: keys lists them without repetition.
  lemma {:induction false} EveryTree(v: Json) returns (doc: Doc)
    ensures DocOk(doc) && DocValue(doc) == v
    decreases v, 1
  {
    match v
    case Arr(items) =>
      var docs := EveryItem(v, |items|);
      doc := List(docs);
      assert DocValue(doc).items == items;
    case Obj(members) =>
      var keys := KeyOrder(members.Keys);
      doc := EveryOrder(v, keys);
    case _ => doc := Scalar(v);
  }

  lemma {:induction false} EveryItem(v: Json, n: nat) returns (docs: seq<Doc>)
    requires v.Arr? && n <= |v.items|
    ensures |docs| == n && forall i :: 0 <= i < n ==> DocOk(docs[i]) && DocValue(docs[i]) == v.items[i]
    decreases v, 0, n
  {
    docs := [];
    if n > 0 {
      var before := EveryItem(v, n - 1);
      var last := EveryTree(v.items[n - 1]);
      docs := before + [last];
    }
  }

  ghost predicate Lists(keys: seq<Bytes>, all: set<Bytes>) {
    && (forall i, j :: 0 <= i < j < |keys| ==> keys[i] != keys[j])
    && (forall k :: k in keys <==> k in all)
  }

  lemma {:induction false} KeyOrder(all: set<Bytes>) returns (keys: seq<Bytes>)
    ensures Lists(keys, all)
    decreases |all|
  {
    keys := [];
    if all != {} {
      var k :| k in all;
      var more := KeyOrder(all - {k});
      keys := more + [k];
    }
  }

  // A document for an object, whatever the order in which its members come.
  lemma {:induction false} EveryOrder(v: Json, keys: seq<Bytes>) returns (doc: Doc)
    requires v.Obj? && Lists(keys, v.members.Keys)
    ensures DocOk(doc) && DocValue(doc) == v && doc.Dict? && |doc.fields| == |keys|
    ensures forall i :: 0 <= i < |keys| ==> doc.fields[i].key == keys[i]
    decreases v, 0, |keys| + 1
  {
    var members := v.members;
    var fields := EveryField(v, keys, |keys|);
    doc := Dict(fields);
    FieldMapIs(fields);
    var m := FieldMap(fields);
    forall k | k in members ensures k in m && m[k] == members[k] {
      var i :| 0 <= i < |keys| && keys[i] == k;
      assert fields[i].key == k;
    }
    assert m == members;
  }

  lemma {:induction false} EveryField(v: Json, keys: seq<Bytes>, n: nat) returns (fields: seq<Field>)
    requires v.Obj? && n <= |keys| && forall k :: k in keys ==> k in v.members
    ensures |fields| == n
    ensures forall i :: 0 <= i < n ==>
      fields[i].key == keys[i] && DocOk(fields[i].value) && DocValue(fields[i].value) == v.members[keys[i]]
    decreases v, 0, n
  {
    fields := [];
    if n > 0 {
      var before := EveryField(v, keys, n - 1);
      assert keys[n - 1] in keys;
      var last := EveryTree(v.members[keys[n - 1]]);
      fields := before + [Field(keys[n - 1], last)];
    }
  }

  // ---- The round trip ----

  // Every document whose strings are valid UTF-8 and whose numbers are finite,
  // printed with any options and parsed under any policy within the limits,
  // comes back. EveryTree says that documents are all the trees there are.
  lemma PrintThenParse(doc: Doc, sopts: SerializeOptions, shortest: Float -> Shortest, maxInputBytes: nat,
                       popts: Options)
    requires DocOk(doc) && FiniteWithin(doc, popts.maxDepth) && Codec(shortest, sopts, popts)
    requires StringsValid(DocValue(doc)) && IndentFits(popts.maxDepth, sopts)
    requires maxInputBytes == 0 || |Render(doc, 0, sopts).text| <= maxInputBytes
    requires NodesFit(DocNodes(doc), popts)
    ensures var text := Render(doc, 0, sopts).text;
            && Accepts(text, maxInputBytes, popts)
            && Returns(DocValue(doc), Build(ParseDocument(text).value, popts))
            && Equal(DocValue(doc), Build(ParseDocument(text).value, popts))
  {
    hide Codec, Render, Wf, RawOf, TextThen, Fits, Nodes, Returns, Equal, Spelt, ParseValue, StringsValid, AllPaired;
    RenderClean(doc, 0, popts.maxDepth, sopts);
    var text := Render(doc, 0, sopts).text;
    var c := SyntaxOf(doc, 0, popts.maxDepth, sopts, shortest, popts);
    NoWhite();
    TextParses([], c, []);
    assert [] + TextThen(c, []) == text;
    SpeltReturns(doc, RawOf(c), popts.maxDepth, shortest, sopts, popts);
    ReturnsEqual(DocValue(doc), Build(RawOf(c), popts));
  }

  // The same through the imperative printer and parser: printing succeeds exactly
  // when the strings are valid UTF-8 and the text fits the output limit.
  method PrintAndParse(doc: Doc, sopts: SerializeOptions, ghost shortest: Float -> Shortest, maxInputBytes: nat,
                       popts: Options)
    returns (printed: bool, ok: bool, v: Json)
    requires DocOk(doc) && FiniteWithin(doc, popts.maxDepth) && Codec(shortest, sopts, popts)
      && NodesFit(DocNodes(doc), popts)
    requires IndentFits(popts.maxDepth, sopts)
    ensures printed <==>
      StringsValid(DocValue(doc)) && |Render(doc, 0, sopts).text| <= Capacity(sopts.maxOutputBytes)
    ensures printed && (maxInputBytes == 0 || |Render(doc, 0, sopts).text| <= maxInputBytes) ==>
      ok && Returns(DocValue(doc), v)
  {
    hide Codec, Render, Returns, Equal, FiniteWithin, DocOk, Build, DocNodes, StringsValid;
    RenderClean(doc, 0, popts.maxDepth, sopts);
    ok, v := false, Null;
    var slot := new StringSlot([]);
    var error, counted, at;
    printed, error, counted := slot.ToString(doc, sopts);
    if !printed { return; }
    ok, v, at := ParseTop(slot.value, maxInputBytes, popts);
    if maxInputBytes == 0 || |slot.value| <= maxInputBytes {
      PrintThenParse(doc, sopts, shortest, maxInputBytes, popts);
    }
  }
}
