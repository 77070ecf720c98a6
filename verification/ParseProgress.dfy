// Steps common to both parsers: how far a text has been read, and what each
// next byte settles.

module ParseProgress {
  import opened JsonValue
  import opened Strings
  import opened Cursors
  import opened NumberText
  import opened Grammar

  // The text admits a value within the limits left.
  ghost predicate Admits(raw: Raw, opts: Options, d: nat, nodes: nat) {
    Fits(raw, opts, d) && NodesFit(nodes + Nodes(raw), opts)
  }

  lemma {:induction false} HexStops(s: Bytes, k: nat)
    requires |s| >= 4 && k <= 4 && HexPrefix(s, k) == None
    ensures HexPrefix(s, 4) == None
    decreases 4 - k
  {
    if k < 4 { HexStops(s, k + 1); }
  }

  lemma LowAt(src: Bytes, pos: nat)
    requires pos <= |src|
    ensures pos + 6 <= |src| && src[pos] == BACKSLASH && src[pos + 1] == LETTER_U ==>
      LowEscape(Tail(src, pos)) ==
        match Hex4(Tail(src, pos + 2))
        case Some(v) => if LowSurrogate(v) then Some(v) else None
        case None => None
    ensures !(pos + 6 <= |src| && src[pos] == BACKSLASH && src[pos + 1] == LETTER_U) ==>
      LowEscape(Tail(src, pos)) == None
  {
    if pos + 2 <= |src| { TailAt(src, pos, pos + 2); }
  }

  lemma WholeTail(src: Bytes, pos: nat)
    requires pos <= |src|
    ensures src[pos..|src|] == Tail(src, pos)
  {
  }

  lemma TailPrefix(src: Bytes, pos: nat, n: nat)
    requires pos + n <= |src|
    ensures Tail(src, pos)[..n] == src[pos..pos + n]
  {
  }

  lemma DecodeStep(s: Bytes)
    ensures s == [] ==> Decode(s) == NoBody
    ensures s != [] && s[0] == QUOTE ==> Decode(s) == Body([], s[1..])
    ensures s != [] && NextPiece(s) == BadPiece ==> Decode(s) == NoBody
    ensures s != [] && NextPiece(s).Piece? ==> Decode(s) == Prepend(NextPiece(s).text, Decode(s[NextPiece(s).used..]))
  {
  }

  lemma PrependBody(out: Bytes, rest: Bytes)
    ensures Prepend(out, Body([], rest)) == Body(out, rest)
  {
    assert out + [] == out;
  }

  lemma PrependNone(out: Bytes)
    ensures Prepend(out, NoBody) == NoBody
  {
  }

  lemma SpaceStep(src: Bytes, pos: nat)
    requires pos <= |src|
    ensures pos == |src| ==> SkipSpace(Tail(src, pos)) == Tail(src, pos)
    ensures pos < |src| && IsSpace(src[pos]) ==> SkipSpace(Tail(src, pos)) == SkipSpace(Tail(src, pos + 1))
    ensures pos < |src| && !IsSpace(src[pos]) ==> SkipSpace(Tail(src, pos)) == Tail(src, pos)
  {
    if pos < |src| { TailAt(src, pos, pos + 1); }
  }

  lemma ScalarBuilt(raw: Raw, opts: Options, d: nat, v: Json)
    requires raw.RString? && v == Str(raw.s)
    ensures Fits(raw, opts, d) && Nodes(raw) == 1 && v == Build(raw, opts)
  {
  }

  lemma NumberBuilt(raw: Raw, opts: Options, d: nat, v: Json)
    requires raw.RNumber? && Convert(raw.token, raw.isFloat, opts) == Some(v)
    ensures Fits(raw, opts, d) && Nodes(raw) == 1 && v == Build(raw, opts)
  {
  }

  lemma ScalarFits(raw: Raw, opts: Options, d: nat)
    requires !raw.RArray? && !raw.RObject? && !raw.RNumber?
    ensures Fits(raw, opts, d) && Nodes(raw) == 1
  {
  }

  lemma ShorterTail(src: Bytes, start: nat, pos: nat)
    requires start <= |src| && pos <= |src|
    requires Grammar.ParseValue(Tail(src, start)).Parsed? && Grammar.ParseValue(Tail(src, start)).rest == Tail(src, pos)
    ensures start < pos
  {
  }

  function Word(k: nat): Bytes {
    if k == 0 then NULL_WORD else if k == 1 then TRUE_WORD else FALSE_WORD
  }

  function WordValue(k: nat): Json {
    if k == 0 then Null else Bool(k == 1)
  }

  lemma KeywordIs(s: Bytes, k: nat, opts: Options)
    requires k < 3 && StartsWith(s, Word(k)) && forall i :: 0 <= i < k ==> !StartsWith(s, Word(i))
    ensures var p := Keyword(s);
            && p.Parsed? && p.rest == s[|Word(k)|..] && !p.raw.RArray? && !p.raw.RObject? && !p.raw.RNumber?
            && Build(p.raw, opts) == WordValue(k)
  {
    if k > 0 { assert !StartsWith(s, Word(0)); }
    if k > 1 { assert !StartsWith(s, Word(1)); }
  }

  lemma KeywordNone(s: Bytes)
    requires forall i :: 0 <= i < 3 ==> !StartsWith(s, Word(i))
    ensures Keyword(s) == NoParse
  {
    assert !StartsWith(s, Word(0)) && !StartsWith(s, Word(1)) && !StartsWith(s, Word(2));
  }

  // ---- Arrays ----

  ghost predicate ArrayLost(whole: ParseItems, opts: Options, d: nat, nodes: nat) {
    !(whole.Items? && Admits(RArray(whole.items), opts, d, nodes))
  }

  ghost predicate ArrayDone(whole: ParseItems, rest: Bytes, opts: Options, d: nat, nodes: nat, nodeCount: nat,
                            v: Json) {
    && whole.Items? && whole.rest == rest && Fits(RArray(whole.items), opts, d)
    && v == Build(RArray(whole.items), opts) && nodeCount == nodes + Nodes(RArray(whole.items))
  }

  // s continues the elements read so far to the whole array.
  ghost predicate ArrayMid(s: Bytes, whole: ParseItems, opts: Options, d: nat, nodes: nat, nodeCount: nat,
                           acc: seq<Raw>, items: seq<Json>, any: bool, owed: bool) {
    && d > 0
    && whole == PutItem(acc, Grammar.ParseArray(s, any, owed))
    && (forall i :: 0 <= i < |acc| ==> Fits(acc[i], opts, d - 1))
    && nodeCount == nodes + 1 + ItemNodes(acc)
    && |items| == |acc| && (forall i :: 0 <= i < |acc| ==> items[i] == Build(acc[i], opts))
  }

  lemma NoRoom(s: Bytes, opts: Options, d: nat, nodes: nat)
    ensures d == 0 || !NodesFit(nodes + 1, opts) ==> ArrayLost(Grammar.ParseArray(s, false, false), opts, d, nodes)
  {
    var p := Grammar.ParseArray(s, false, false);
    if p.Items? { assert Nodes(RArray(p.items)) >= 1; }
  }

  lemma ArrayStart(src: Bytes, start: nat, opts: Options, d: nat, nodes: nat)
    requires start <= |src| && d > 0
    ensures var s := Tail(src, start);
            ArrayMid(s, Grammar.ParseArray(s, false, false), opts, d, nodes, nodes + 1, [], [], false, false)
  {
    PutItemTwice([], [], Grammar.ParseArray(Tail(src, start), false, false));
  }

  // Skipped white space does not matter to the rest.
  lemma ArrayPeeked(src: Bytes, from: nat, pos: nat, whole: ParseItems, opts: Options, d: nat, nodes: nat,
                    nodeCount: nat,
                    acc: seq<Raw>, items: seq<Json>, any: bool, owed: bool)
    requires from <= |src| && pos <= |src| && SkipSpace(Tail(src, from)) == Tail(src, pos)
    requires ArrayMid(Tail(src, from), whole, opts, d, nodes, nodeCount, acc, items, any, owed)
    ensures ArrayMid(Tail(src, pos), whole, opts, d, nodes, nodeCount, acc, items, any, owed)
  {
    SkipTwice(Tail(src, from));
  }

  lemma SkipTwice(s: Bytes)
    ensures SkipSpace(SkipSpace(s)) == SkipSpace(s)
  {
  }

  // What the next byte decides.
  lemma ArrayNext(s: Bytes, whole: ParseItems, opts: Options, d: nat, nodes: nat, nodeCount: nat,
                  acc: seq<Raw>, items: seq<Json>, any: bool, owed: bool)
    requires ArrayMid(s, whole, opts, d, nodes, nodeCount, acc, items, any, owed)
    ensures s == [] ==> ArrayLost(whole, opts, d, nodes)
    ensures s != [] && s[0] == CLOSE_BRACKET ==>
      if owed then ArrayLost(whole, opts, d, nodes)
      else ArrayDone(whole, s[1..], opts, d, nodes, nodeCount, Arr(items)) && whole.items == acc
    ensures s != [] && s[0] == COMMA ==>
      if !any || owed then ArrayLost(whole, opts, d, nodes)
      else ArrayMid(s[1..], whole, opts, d, nodes, nodeCount, acc, items, any, true)
    ensures s != [] && !IsSpace(s[0]) && s[0] != COMMA && s[0] != CLOSE_BRACKET && any && !owed ==>
      ArrayLost(whole, opts, d, nodes)
  {
    if s != [] && s[0] == CLOSE_BRACKET && !owed {
      assert acc + [] == acc;
      assert items == Build(RArray(acc), opts).items;
    }
  }

  // The same at a position of the input.
  lemma ArrayAhead(src: Bytes, pos: nat, whole: ParseItems, opts: Options, d: nat, nodes: nat, nodeCount: nat,
                   acc: seq<Raw>, items: seq<Json>, any: bool, owed: bool)
    requires pos <= |src| && ArrayMid(Tail(src, pos), whole, opts, d, nodes, nodeCount, acc, items, any, owed)
    ensures pos == |src| ==> ArrayLost(whole, opts, d, nodes)
    ensures pos < |src| ==> Tail(src, pos) != [] && Tail(src, pos)[0] == src[pos]
    ensures pos < |src| && src[pos] == CLOSE_BRACKET ==>
      if owed then ArrayLost(whole, opts, d, nodes)
      else ArrayDone(whole, Tail(src, pos + 1), opts, d, nodes, nodeCount, Arr(items))
    ensures pos < |src| && src[pos] == COMMA ==>
      if !any || owed then ArrayLost(whole, opts, d, nodes)
      else ArrayMid(Tail(src, pos + 1), whole, opts, d, nodes, nodeCount, acc, items, any, true)
    ensures pos < |src| && !IsSpace(src[pos]) && src[pos] != COMMA && src[pos] != CLOSE_BRACKET && any && !owed ==>
      ArrayLost(whole, opts, d, nodes)
  {
    hide ArrayMid, ArrayLost, ArrayDone;
    ArrayNext(Tail(src, pos), whole, opts, d, nodes, nodeCount, acc, items, any, owed);
  }

  lemma ArrayElement(s: Bytes, whole: ParseItems, opts: Options, d: nat, nodes: nat, nodeCount: nat,
                     acc: seq<Raw>, items: seq<Json>, any: bool, owed: bool, ok: bool, elem: Json)
    requires ArrayMid(s, whole, opts, d, nodes, nodeCount, acc, items, any, owed)
    requires s != [] && !IsSpace(s[0]) && s[0] != COMMA && s[0] != CLOSE_BRACKET && !(any && !owed)
    requires var p := Grammar.ParseValue(s);
             if ok then p.Parsed? && Fits(p.raw, opts, d - 1) && elem == Build(p.raw, opts)
             else !(p.Parsed? && Admits(p.raw, opts, d - 1, nodeCount))
    ensures !ok ==> ArrayLost(whole, opts, d, nodes)
    ensures ok ==>
      var p := Grammar.ParseValue(s);
      ArrayMid(p.rest, whole, opts, d, nodes, nodeCount + Nodes(p.raw), acc + [p.raw], items + [elem], true, false)
  {
    hide Fits, Build, Nodes, ItemNodes;
    var p := Grammar.ParseValue(s);
    if p.Parsed? {
      PutItemTwice(acc, [p.raw], Grammar.ParseArray(p.rest, true, false));
      ItemNodesMore(acc, p.raw);
      if !ok { ArrayDoomed(acc, p.raw, Grammar.ParseArray(p.rest, true, false), opts, d, nodes, whole); }
    }
  }

  lemma ArrayDoomed(acc: seq<Raw>, raw: Raw, more: ParseItems, opts: Options, d: nat, nodes: nat, whole: ParseItems)
    requires d > 0 && whole == PutItem(acc + [raw], more)
    requires !Admits(raw, opts, d - 1, nodes + 1 + ItemNodes(acc))
    ensures ArrayLost(whole, opts, d, nodes)
  {
    if whole.Items? {
      assert whole.items[|acc|] == raw;
      ItemNodesMore(acc, raw);
      ItemNodesSplit(acc + [raw], more.items);
    }
  }

  // ---- Objects ----

  ghost predicate ObjectLost(whole: ParseMembers, opts: Options, d: nat, nodes: nat) {
    !(whole.Members? && Admits(RObject(whole.members), opts, d, nodes))
  }

  ghost predicate ObjectDone(whole: ParseMembers, rest: Bytes, opts: Options, d: nat, nodes: nat, nodeCount: nat,
                             v: Json) {
    && whole.Members? && whole.rest == rest && Fits(RObject(whole.members), opts, d)
    && v == Build(RObject(whole.members), opts) && nodeCount == nodes + Nodes(RObject(whole.members))
  }

  ghost predicate ObjectSoFar(opts: Options, d: nat, nodes: nat, nodeCount: nat, acc: seq<Member>,
                              members: map<Bytes, Json>) {
    && d > 0
    && (forall i :: 0 <= i < |acc| ==> Fits(acc[i].value, opts, d - 1))
    && (opts.duplicates == RejectDuplicates ==> DistinctKeys(acc))
    && nodeCount == nodes + 1 + MemberNodes(acc)
    && members == BuildMembers(acc, opts)
  }

  ghost predicate ObjectMid(s: Bytes, whole: ParseMembers, opts: Options, d: nat, nodes: nat, nodeCount: nat,
                            acc: seq<Member>, members: map<Bytes, Json>, any: bool, owed: bool) {
    && ObjectSoFar(opts, d, nodes, nodeCount, acc, members)
    && whole == PutMember(acc, Grammar.ParseObject(s, any, owed))
  }

  lemma NoRoomObject(s: Bytes, opts: Options, d: nat, nodes: nat)
    ensures d == 0 || !NodesFit(nodes + 1, opts) ==> ObjectLost(Grammar.ParseObject(s, false, false), opts, d, nodes)
  {
    var p := Grammar.ParseObject(s, false, false);
    if p.Members? { assert Nodes(RObject(p.members)) >= 1; }
  }

  lemma NothingParsed(acc: seq<Member>, whole: ParseMembers, opts: Options, d: nat, nodes: nat)
    ensures whole == PutMember(acc, NoMembers) ==> ObjectLost(whole, opts, d, nodes)
  {
  }

  lemma ObjectStart(src: Bytes, start: nat, opts: Options, d: nat, nodes: nat)
    requires start <= |src| && d > 0
    ensures var s := Tail(src, start);
            ObjectMid(s, Grammar.ParseObject(s, false, false), opts, d, nodes, nodes + 1, [], map[], false, false)
  {
    PutMemberTwice([], [], Grammar.ParseObject(Tail(src, start), false, false));
  }

  lemma ObjectPeeked(src: Bytes, from: nat, pos: nat, whole: ParseMembers, opts: Options, d: nat, nodes: nat,
                     nodeCount: nat,
                     acc: seq<Member>, members: map<Bytes, Json>, any: bool, owed: bool)
    requires from <= |src| && pos <= |src| && SkipSpace(Tail(src, from)) == Tail(src, pos)
    requires ObjectMid(Tail(src, from), whole, opts, d, nodes, nodeCount, acc, members, any, owed)
    ensures ObjectMid(Tail(src, pos), whole, opts, d, nodes, nodeCount, acc, members, any, owed)
  {
    SkipTwice(Tail(src, from));
  }

  // A member, its name not yet read; and once it has been.
  function MemberParse(s: Bytes): ParseMembers {
    match Decode(s)
    case NoBody => NoMembers
    case Body(key, u) => ParseAfterKey(key, u)
  }

  function ParseAfterKey(key: Bytes, u: Bytes): (p: ParseMembers)
    ensures p.Members? ==> p.members != [] && p.members[0].key == key
  {
    var v := SkipSpace(u);
    if v == [] || v[0] != COLON then NoMembers
    else match Grammar.ParseValue(v[1..])
      case NoParse => NoMembers
      case Parsed(raw, rest) => PutMember([Member(key, raw)], Grammar.ParseObject(rest, true, false))
  }

  lemma ObjectNext(s: Bytes, whole: ParseMembers, opts: Options, d: nat, nodes: nat, nodeCount: nat,
                   acc: seq<Member>, members: map<Bytes, Json>, any: bool, owed: bool)
    requires ObjectMid(s, whole, opts, d, nodes, nodeCount, acc, members, any, owed)
    ensures ObjectSoFar(opts, d, nodes, nodeCount, acc, members)
    ensures s == [] ==> ObjectLost(whole, opts, d, nodes)
    ensures s != [] && s[0] == CLOSE_BRACE ==>
      if owed then ObjectLost(whole, opts, d, nodes)
      else ObjectDone(whole, s[1..], opts, d, nodes, nodeCount, Obj(members)) && whole.members == acc
    ensures s != [] && s[0] == COMMA ==>
      if !any || owed then ObjectLost(whole, opts, d, nodes)
      else ObjectMid(s[1..], whole, opts, d, nodes, nodeCount, acc, members, any, true)
    ensures s != [] && !IsSpace(s[0]) && s[0] != COMMA && s[0] != CLOSE_BRACE && (s[0] != QUOTE || (any && !owed)) ==>
      ObjectLost(whole, opts, d, nodes)
    ensures s != [] && s[0] == QUOTE && !(any && !owed) ==> whole == PutMember(acc, MemberParse(s[1..]))
  {
    if s != [] && s[0] == CLOSE_BRACE && !owed { assert acc + [] == acc; }
  }

  // The text repeats a key that must not be repeated.
  lemma LostDuplicate(acc: seq<Member>, members: map<Bytes, Json>, key: Bytes, u: Bytes, opts: Options, d: nat,
                      nodes: nat, nodeCount: nat, whole: ParseMembers)
    requires ObjectSoFar(opts, d, nodes, nodeCount, acc, members)
    requires opts.duplicates == RejectDuplicates && key in members
    requires whole == PutMember(acc, ParseAfterKey(key, u))
    ensures ObjectLost(whole, opts, d, nodes)
  {
    if whole.Members? {
      var i :| 0 <= i < |acc| && acc[i].key == key;
      var tail := ParseAfterKey(key, u).members;
      assert whole.members[i] == acc[i] && whole.members[|acc|] == tail[0];
    }
  }

  lemma LostValue(acc: seq<Member>, members: map<Bytes, Json>, key: Bytes, p: Parse, opts: Options, d: nat,
                  nodes: nat, nodeCount: nat, whole: ParseMembers)
    requires ObjectSoFar(opts, d, nodes, nodeCount, acc, members)
    requires whole == PutMember(acc,
                                match p
                                case NoParse => NoMembers
                                case Parsed(raw, rest) =>
                                  PutMember([Member(key, raw)], Grammar.ParseObject(rest, true, false)))
    requires !(p.Parsed? && Admits(p.raw, opts, d - 1, nodeCount))
    ensures ObjectLost(whole, opts, d, nodes)
  {
    hide Build, BuildMembers, Decode;
    if whole.Members? {
      var m := Member(key, p.raw);
      PutMemberTwice(acc, [m], Grammar.ParseObject(p.rest, true, false));
      var more := Grammar.ParseObject(p.rest, true, false).members;
      assert whole.members[|acc|] == m;
      MemberNodesMore(acc, m);
      MemberNodesSplit(acc + [m], more);
    }
  }

  lemma MemberAdded(acc: seq<Member>, members: map<Bytes, Json>, key: Bytes, p: Parse, opts: Options, d: nat,
                    nodes: nat, nodeCount: nat,
                    whole: ParseMembers, next: map<Bytes, Json>)
    requires ObjectSoFar(opts, d, nodes, nodeCount, acc, members)
    requires p.Parsed? && Fits(p.raw, opts, d - 1)
    requires whole == PutMember(acc, PutMember([Member(key, p.raw)], Grammar.ParseObject(p.rest, true, false)))
    requires opts.duplicates == RejectDuplicates ==> key !in members
    requires next == if key in members && opts.duplicates == KeepFirst then members
                     else members[key := Build(p.raw, opts)]
    ensures ObjectMid(p.rest, whole, opts, d, nodes, nodeCount + Nodes(p.raw), acc + [Member(key, p.raw)], next, true,
                      false)
  {
    hide Fits, Nodes, Grammar.ParseObject;
    var m := Member(key, p.raw);
    var ms := acc + [m];
    assert ms[..|acc|] == acc;
    MemberNodesMore(acc, m);
    PutMemberTwice(acc, [m], Grammar.ParseObject(p.rest, true, false));
    if opts.duplicates == RejectDuplicates {
      forall i, j | 0 <= i < j < |ms| ensures ms[i].key != ms[j].key {
        if j == |acc| { assert !HasKey(acc, key); assert acc[i].key != key; }
      }
    }
  }
}
