// The two parsers agree: on what they accept, and on what it means.

module Agreement {
  import opened JsonValue
  import opened Grammar
  import opened SaxParsing
  import opened DomParser

  // A handler that rebuilds the document: later members overwrite earlier ones.
  datatype Frame = InArray(items: seq<Json>) | InObject(members: map<Bytes, Json>, key: Option<Bytes>)
  datatype Builder = Open(stack: seq<Frame>) | Complete(v: Json) | Confused

  function Place(stack: seq<Frame>, v: Json): Builder {
    if stack == [] then Complete(v)
    else
      var below, top := stack[..|stack| - 1], stack[|stack| - 1];
      match top
      case InArray(items) => Open(below + [InArray(items + [v])])
      case InObject(members, Some(key)) => Open(below + [InObject(members[key := v], None)])
      case InObject(_, None) => Confused
  }

  function Handle(b: Builder, e: Event): Builder {
    if !b.Open? then Confused
    else
      var stack := b.stack;
      match e
      case OnNull => Place(stack, Null)
      case OnBool(x) => Place(stack, Bool(x))
      case OnNumber(v) => Place(stack, v)
      case OnString(s) => Place(stack, Str(s))
      case OnStartArray => Open(stack + [InArray([])])
      case OnStartObject => Open(stack + [InObject(map[], None)])
      case OnKey(key) =>
        if stack != [] && stack[|stack| - 1].InObject? && stack[|stack| - 1].key == None
        then Open(stack[..|stack| - 1] + [stack[|stack| - 1].(key := Some(key))])
        else Confused
      case OnEndArray =>
        if stack != [] && stack[|stack| - 1].InArray? then Place(stack[..|stack| - 1], Arr(stack[|stack| - 1].items))
        else Confused
      case OnEndObject =>
        if stack != [] && stack[|stack| - 1].InObject? && stack[|stack| - 1].key == None
        then Place(stack[..|stack| - 1], Obj(stack[|stack| - 1].members)) else Confused
  }

  function Fold(b: Builder, events: seq<Event>): Builder
    decreases |events|
  {
    if events == [] then b else Handle(Fold(b, events[..|events| - 1]), events[|events| - 1])
  }

  lemma {:induction false} FoldAppend(b: Builder, x: seq<Event>, y: seq<Event>)
    ensures Fold(b, x + y) == Fold(Fold(b, x), y)
    decreases |y|
  {
    if y == [] {
      assert x + y == x;
    } else {
      var n := |y| - 1;
      assert (x + y)[..|x + y| - 1] == x + y[..n];
      FoldAppend(b, x, y[..n]);
    }
  }

  lemma FoldOne(b: Builder, e: Event)
    ensures Fold(b, [e]) == Handle(b, e)
  {
    assert [e][..0] == [];
  }

  // Where a value may come next.
  predicate Awaits(stack: seq<Frame>) {
    stack == [] || !(stack[|stack| - 1].InObject? && stack[|stack| - 1].key == None)
  }

  lemma TopFrame(stack: seq<Frame>, items: seq<Json>, members: map<Bytes, Json>, key: Bytes, v: Json)
    ensures Handle(Open(stack), OnStartArray) == Open(stack + [InArray([])])
    ensures Handle(Open(stack), OnStartObject) == Open(stack + [InObject(map[], None)])
    ensures Handle(Open(stack + [InArray(items)]), OnEndArray) == Place(stack, Arr(items))
    ensures Handle(Open(stack + [InObject(members, None)]), OnEndObject) == Place(stack, Obj(members))
    ensures Handle(Open(stack + [InObject(members, None)]), OnKey(key)) == Open(stack + [InObject(members, Some(key))])
    ensures Place(stack + [InArray(items)], v) == Open(stack + [InArray(items + [v])])
    ensures Place(stack + [InObject(members, Some(key))], v) == Open(stack + [InObject(members[key := v], None)])
    ensures Awaits(stack + [InArray(items)]) && Awaits(stack + [InObject(members, Some(key))])
  {
    assert (stack + [InArray(items)])[..|stack|] == stack;
    assert (stack + [InObject(members, None)])[..|stack|] == stack;
    assert (stack + [InObject(members, Some(key))])[..|stack|] == stack;
  }

  // Folding the events of a text places the value the DOM parser builds.
  lemma {:induction false} FoldBuilds(raw: Raw, opts: Options, d: nat, stack: seq<Frame>)
    requires Fits(raw, opts, d) && Awaits(stack)
    ensures Fold(Open(stack), Events(raw, opts)) == Place(stack, Build(raw, opts))
    decreases raw
  {
    hide Place, Awaits, Handle, Fold, Fits;
    match raw
    case RArray(items) =>
      FitsInside(raw, opts, d);
      FoldItems(items, opts, d - 1, stack);
      FoldAround(stack, OnStartArray, ItemEvents(items, opts), OnEndArray);
      TopFrame(stack, Build(raw, opts).items, map[], [], Null);
    case RObject(ms) =>
      FitsInside(raw, opts, d);
      FoldMembers(ms, opts, d - 1, stack);
      FoldAround(stack, OnStartObject, MemberEvents(ms, opts), OnEndObject);
      TopFrame(stack, [], BuildMembers(ms, opts), [], Null);
    case _ =>
      FoldScalar(raw, opts, d, stack);
  }

  lemma FitsInside(raw: Raw, opts: Options, d: nat)
    requires Fits(raw, opts, d) && (raw.RArray? || raw.RObject?)
    ensures d > 0
    ensures raw.RArray? ==> forall i :: 0 <= i < |raw.items| ==> Fits(raw.items[i], opts, d - 1)
    ensures raw.RObject? ==> forall i :: 0 <= i < |raw.members| ==> Fits(raw.members[i].value, opts, d - 1)
  {
  }

  lemma FoldScalar(raw: Raw, opts: Options, d: nat, stack: seq<Frame>)
    requires Fits(raw, opts, d) && !raw.RArray? && !raw.RObject?
    ensures Fold(Open(stack), Events(raw, opts)) == Place(stack, Build(raw, opts))
  {
    FoldOne(Open(stack), Events(raw, opts)[0]);
  }

  lemma FoldAround(stack: seq<Frame>, first: Event, middle: seq<Event>, last: Event)
    ensures Fold(Open(stack), [first] + middle + [last]) == Handle(Fold(Handle(Open(stack), first), middle), last)
  {
    FoldAppend(Open(stack), [first] + middle, [last]);
    FoldAppend(Open(stack), [first], middle);
    FoldOne(Open(stack), first);
    FoldOne(Fold(Open(stack), [first] + middle), last);
  }

  lemma {:induction false} FoldItems(items: seq<Raw>, opts: Options, d: nat, stack: seq<Frame>)
    requires forall i :: 0 <= i < |items| ==> Fits(items[i], opts, d)
    ensures Fold(Open(stack + [InArray([])]), ItemEvents(items, opts))
         == Open(stack + [InArray(Build(RArray(items), opts).items)])
    decreases items
  {
    hide Place, Awaits, Handle, Fits;
    var built := Build(RArray(items), opts).items;
    if items == [] {
      assert built == [];
    } else {
      var n := |items| - 1;
      var start := Open(stack + [InArray([])]);
      var before := Build(RArray(items[..n]), opts).items;
      var x := Build(items[n], opts);
      FoldItems(items[..n], opts, d, stack);
      FoldAppend(start, ItemEvents(items[..n], opts), Events(items[n], opts));
      TopFrame(stack, before, map[], [], x);
      FoldBuilds(items[n], opts, d, stack + [InArray(before)]);
      assert built == before + [x];
    }
  }

  lemma {:induction false} FoldMembers(ms: seq<Member>, opts: Options, d: nat, stack: seq<Frame>)
    requires forall i :: 0 <= i < |ms| ==> Fits(ms[i].value, opts, d)
    ensures Fold(Open(stack + [InObject(map[], None)]), MemberEvents(ms, opts))
         == Open(stack + [InObject(BuildMembers(ms, opts), None)])
    decreases ms
  {
    if ms == [] {
    } else {
      var n := |ms| - 1;
      FoldMembers(ms[..n], opts, d, stack);
      FoldMember(ms, opts, d, stack);
      if !(opts.duplicates == KeepFirst && HasKey(ms[..n], ms[n].key)) {
        TopFrame(stack, [], BuildMembers(ms[..n], opts), ms[n].key, Build(ms[n].value, opts));
        FoldBuilds(ms[n].value, opts, d, stack + [InObject(BuildMembers(ms[..n], opts), Some(ms[n].key))]);
      }
    }
  }

  // One more member: nothing happens, or its key and value are handled.
  lemma FoldMember(ms: seq<Member>, opts: Options, d: nat, stack: seq<Frame>)
    requires ms != []
    requires var n := |ms| - 1;
             Fold(Open(stack + [InObject(map[], None)]), MemberEvents(ms[..n], opts))
               == Open(stack + [InObject(BuildMembers(ms[..n], opts), None)])
    ensures var n := |ms| - 1; var before := BuildMembers(ms[..n], opts); var last := ms[n];
            var folded := Fold(Open(stack + [InObject(map[], None)]), MemberEvents(ms, opts));
            if opts.duplicates == KeepFirst && HasKey(ms[..n], last.key) then
              BuildMembers(ms, opts) == before && folded == Open(stack + [InObject(before, None)])
            else
              && BuildMembers(ms, opts) == before[last.key := Build(last.value, opts)]
              && folded == Fold(Open(stack + [InObject(before, Some(last.key))]), Events(last.value, opts))
  {
    hide Place, Awaits, Handle, Fold, Build, Events;
    var n := |ms| - 1;
    var start := Open(stack + [InObject(map[], None)]);
    var before, last := BuildMembers(ms[..n], opts), ms[n];
    if !(opts.duplicates == KeepFirst && HasKey(ms[..n], last.key)) {
      FoldAppend(start, MemberEvents(ms[..n], opts) + [OnKey(last.key)], Events(last.value, opts));
      FoldAppend(start, MemberEvents(ms[..n], opts), [OnKey(last.key)]);
      FoldOne(Open(stack + [InObject(before, None)]), OnKey(last.key));
      TopFrame(stack, [], before, last.key, Null);
    }
  }

  // Both parsers on one text, by any cursor: they accept together, and the
  // events rebuild the document.
  method ParseBoth(src: Bytes, maxInputBytes: nat, streaming: bool, configured: Options, maxDepth: int)
    returns (ok: bool, v: Json, events: seq<Event>)
    ensures ok <==> Accepts(src, maxInputBytes, Clamped(configured, maxDepth))
    ensures ok ==>
      && Fold(Open([]), events) == Complete(v)
      && v == Build(ParseDocument(src).value, Clamped(configured, maxDepth))
  {
    hide Fits, Build, Events, ParseDocument;
    var opts := Clamped(configured, maxDepth);
    var okDom, okSax, at;
    okDom, v, at := ParseTop(src, maxInputBytes, opts);
    okSax, events := ParseSax(src, maxInputBytes, streaming, opts);
    assert okDom == okSax;
    ok := okDom;
    if ok { FoldBuilds(ParseDocument(src).value, opts, opts.maxDepth, []); }
  }
}
