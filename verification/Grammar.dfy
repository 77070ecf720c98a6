// What a JSON text says: the parse both parsers compute, with its members in
// order and its duplicates, and the value a set of options makes of it.

module Grammar {
  import opened JsonValue
  import opened Pointer
  import opened Strings
  import opened NumberText

  // A parsed text. Numbers are still tokens.
  datatype Raw =
    | RNull
    | RBool(b: bool)
    | RNumber(token: Bytes, isFloat: bool)
    | RString(s: Bytes)
    | RArray(items: seq<Raw>)
    | RObject(members: seq<Member>)
  datatype Member = Member(key: Bytes, value: Raw)

  const COMMA: Byte := ',' as int
  const COLON: Byte := ':' as int
  const OPEN_BRACKET: Byte := '[' as int
  const CLOSE_BRACKET: Byte := ']' as int
  const OPEN_BRACE: Byte := '{' as int
  const CLOSE_BRACE: Byte := '}' as int

  function Ascii(s: string): (b: Bytes)
    requires forall i :: 0 <= i < |s| ==> s[i] as int < 256
    ensures |b| == |s| && forall i :: 0 <= i < |s| ==> b[i] == s[i] as int
  {
    seq(|s|, i requires 0 <= i < |s| => s[i] as int)
  }

  const NULL_WORD: Bytes := Ascii("null")
  const TRUE_WORD: Bytes := Ascii("true")
  const FALSE_WORD: Bytes := Ascii("false")

  predicate IsSpace(b: Byte) {
    b == ' ' as int || b == '\t' as int || b == '\n' as int || b == '\r' as int
  }

  function SkipSpace(s: Bytes): (t: Bytes)
    ensures |t| <= |s| && (t != [] ==> !IsSpace(t[0]))
    ensures s != [] && !IsSpace(s[0]) ==> t == s
  {
    if s != [] && IsSpace(s[0]) then SkipSpace(s[1..]) else s
  }

  // ---- The parse ----

  datatype Parse = Parsed(raw: Raw, rest: Bytes) | NoParse
  datatype ParseItems = Items(items: seq<Raw>, rest: Bytes) | NoItems
  datatype ParseMembers = Members(members: seq<Member>, rest: Bytes) | NoMembers

  function StartsWith(s: Bytes, word: Bytes): bool {
    |word| <= |s| && s[..|word|] == word
  }

  function Keyword(s: Bytes): (p: Parse)
    ensures p.Parsed? ==> |p.rest| < |s|
  {
    if StartsWith(s, NULL_WORD) then Parsed(RNull, s[4..])
    else if StartsWith(s, TRUE_WORD) then Parsed(RBool(true), s[4..])
    else if StartsWith(s, FALSE_WORD) then Parsed(RBool(false), s[5..])
    else NoParse
  }

  predicate StartsNumber(b: Byte) {
    b == MINUS || IsDigit(b)
  }

  // A value, after optional white space.
  function ParseValue(s: Bytes): (p: Parse)
    ensures p.Parsed? ==> |p.rest| < |s|
    decreases |s|, 0
  {
    var t := SkipSpace(s);
    if t == [] then NoParse
    else if t[0] == QUOTE then
      match Decode(t[1..])
      case Body(text, rest) => Parsed(RString(text), rest)
      case NoBody => NoParse
    else if t[0] == OPEN_BRACE then
      match ParseObject(t[1..], false, false)
      case Members(ms, rest) => Parsed(RObject(ms), rest)
      case NoMembers => NoParse
    else if t[0] == OPEN_BRACKET then
      match ParseArray(t[1..], false, false)
      case Items(items, rest) => Parsed(RArray(items), rest)
      case NoItems => NoParse
    else if StartsNumber(t[0]) then
      match ScanNumber(t)
      case Token(text, isFloat, rest) => Parsed(RNumber(text, isFloat), rest)
      case NoToken => NoParse
    else Keyword(t)
  }

  // The rest of an array: `any` after an element, `owed` after a comma.
  function ParseArray(s: Bytes, any: bool, owed: bool): (p: ParseItems)
    ensures p.Items? ==> |p.rest| < |s|
    decreases |s|, 1
  {
    var t := SkipSpace(s);
    if t == [] then NoItems
    else if t[0] == CLOSE_BRACKET then
      if owed then NoItems else Items([], t[1..])
    else if t[0] == COMMA then
      if !any || owed then NoItems else ParseArray(t[1..], any, true)
    else if any && !owed then NoItems
    else match ParseValue(t)
      case NoParse => NoItems
      case Parsed(raw, rest) => PutItem([raw], ParseArray(rest, true, false))
  }

  function PutItem(first: seq<Raw>, p: ParseItems): ParseItems {
    match p
    case NoItems => NoItems
    case Items(items, rest) => Items(first + items, rest)
  }

  function ParseObject(s: Bytes, any: bool, owed: bool): (p: ParseMembers)
    ensures p.Members? ==> |p.rest| < |s|
    decreases |s|, 1
  {
    var t := SkipSpace(s);
    if t == [] then NoMembers
    else if t[0] == CLOSE_BRACE then
      if owed then NoMembers else Members([], t[1..])
    else if t[0] == COMMA then
      if !any || owed then NoMembers else ParseObject(t[1..], any, true)
    else if t[0] != QUOTE || (any && !owed) then NoMembers
    else match Decode(t[1..])
      case NoBody => NoMembers
      case Body(key, u) =>
        var v := SkipSpace(u);
        if v == [] || v[0] != COLON then NoMembers
        else match ParseValue(v[1..])
          case NoParse => NoMembers
          case Parsed(raw, rest) => PutMember([Member(key, raw)], ParseObject(rest, true, false))
  }

  function PutMember(first: seq<Member>, p: ParseMembers): ParseMembers {
    match p
    case NoMembers => NoMembers
    case Members(ms, rest) => Members(first + ms, rest)
  }

  lemma PutItemTwice(a: seq<Raw>, b: seq<Raw>, p: ParseItems)
    ensures PutItem(a, PutItem(b, p)) == PutItem(a + b, p) && PutItem([], p) == p
  {
    if p.Items? {
      assert a + (b + p.items) == a + b + p.items;
      assert [] + p.items == p.items;
    }
  }

  lemma PutMemberTwice(a: seq<Member>, b: seq<Member>, p: ParseMembers)
    ensures PutMember(a, PutMember(b, p)) == PutMember(a + b, p) && PutMember([], p) == p
  {
    if p.Members? {
      assert a + (b + p.members) == a + b + p.members;
      assert [] + p.members == p.members;
    }
  }

  // One value with white space around it.
  function ParseDocument(s: Bytes): Option<Raw> {
    match ParseValue(s)
    case Parsed(raw, rest) => if SkipSpace(rest) == [] then Some(raw) else None
    case NoParse => None
  }

  // ---- Options ----

  // What reading a number token as a double gives: the nearest double, a
  // nonzero token that rounds to zero, or nothing finite. The conversion itself
  // is a parameter of the model.
  datatype Reading = Readable(f: Float) | ReadAsZero(f: Float) | Unreadable

  datatype Duplicates = RejectDuplicates | KeepFirst | KeepLast

  // maxDepth is already clamped; a node limit of 0 means none.
  datatype Options = Options(maxDepth: nat, maxNodes: nat, duplicates: Duplicates, lossy: bool, read: Bytes -> Reading)

  const DEPTH_HARD_LIMIT := 1024

  function ClampDepth(configured: int): (d: nat)
    ensures 1 <= d <= DEPTH_HARD_LIMIT
  {
    if configured <= 0 then 1
    else if configured < DEPTH_HARD_LIMIT then configured else DEPTH_HARD_LIMIT
  }

  // The options an entry point works with, whatever depth the caller asked for.
  function Clamped(opts: Options, configured: int): Options {
    opts.(maxDepth := ClampDepth(configured))
  }

  function IntegerValue(token: Bytes): int {
    if token != [] && token[0] == MINUS then
      if AllDigits(token[1..]) then -(DecimalValue(token[1..]) as int) else 0
    else if AllDigits(token) then DecimalValue(token) else 0
  }

  // convertNumberToken(): exact integers first, a double otherwise.
  function Convert(token: Bytes, isFloat: bool, opts: Options): Option<Json> {
    var n := IntegerValue(token);
    if !isFloat && INT64_MIN <= n <= INT64_MAX then Some(Int(n))
    else if !isFloat && 0 <= n <= UINT64_MAX then Some(UInt(n))
    else if !isFloat && !opts.lossy then None
    else match opts.read(token)
      case Unreadable => None
      case ReadAsZero(f) => if opts.lossy then Some(Double(f)) else None
      case Readable(f) => Some(Double(f))
  }

  // ---- Limits and values ----

  predicate HasKey(ms: seq<Member>, key: Bytes) {
    exists i :: 0 <= i < |ms| && ms[i].key == key
  }

  predicate DistinctKeys(ms: seq<Member>) {
    forall i, j :: 0 <= i < j < |ms| ==> ms[i].key != ms[j].key
  }

  // The options admit the text, with d levels of nesting to spare.
  predicate Fits(raw: Raw, opts: Options, d: nat)
    decreases raw
  {
    match raw
    case RNumber(token, isFloat) => Convert(token, isFloat, opts).Some?
    case RArray(items) => d > 0 && forall i :: 0 <= i < |items| ==> Fits(items[i], opts, d - 1)
    case RObject(ms) =>
      && d > 0
      && (forall i :: 0 <= i < |ms| ==> Fits(ms[i].value, opts, d - 1))
      && (opts.duplicates == RejectDuplicates ==> DistinctKeys(ms))
    case _ => true
  }

  // Every value counts as a node, kept or not.
  function Nodes(raw: Raw): (n: nat)
    ensures n >= 1
    decreases raw
  {
    match raw
    case RArray(items) => 1 + ItemNodes(items)
    case RObject(ms) => 1 + MemberNodes(ms)
    case _ => 1
  }

  function ItemNodes(items: seq<Raw>): nat
    decreases items
  {
    if items == [] then 0 else ItemNodes(items[..|items| - 1]) + Nodes(items[|items| - 1])
  }

  function MemberNodes(ms: seq<Member>): nat
    decreases ms
  {
    if ms == [] then 0 else MemberNodes(ms[..|ms| - 1]) + Nodes(ms[|ms| - 1].value)
  }

  predicate NodesFit(n: nat, opts: Options) {
    opts.maxNodes == 0 || n <= opts.maxNodes
  }

  lemma ItemNodesMore(items: seq<Raw>, x: Raw)
    ensures ItemNodes(items + [x]) == ItemNodes(items) + Nodes(x)
  {
    assert (items + [x])[..|items|] == items;
  }

  lemma MemberNodesMore(ms: seq<Member>, m: Member)
    ensures MemberNodes(ms + [m]) == MemberNodes(ms) + Nodes(m.value)
  {
    assert (ms + [m])[..|ms|] == ms;
  }

  lemma {:induction false} ItemNodesSplit(a: seq<Raw>, b: seq<Raw>)
    ensures ItemNodes(a + b) == ItemNodes(a) + ItemNodes(b)
    decreases |b|
  {
    if b == [] {
      assert a + b == a;
    } else {
      var c, x := b[..|b| - 1], b[|b| - 1];
      assert a + b == (a + c) + [x];
      ItemNodesMore(a + c, x);
      ItemNodesSplit(a, c);
    }
  }

  lemma {:induction false} MemberNodesSplit(a: seq<Member>, b: seq<Member>)
    ensures MemberNodes(a + b) == MemberNodes(a) + MemberNodes(b)
    decreases |b|
  {
    if b == [] {
      assert a + b == a;
    } else {
      var c, x := b[..|b| - 1], b[|b| - 1];
      assert a + b == (a + c) + [x];
      MemberNodesMore(a + c, x);
      MemberNodesSplit(a, c);
    }
  }

  // The value the options give a text they admit.
  function Build(raw: Raw, opts: Options): Json
    decreases raw
  {
    match raw
    case RNull => Null
    case RBool(b) => Bool(b)
    case RNumber(token, isFloat) =>
      (match Convert(token, isFloat, opts)
       case Some(v) => v
       case None => Null)
    case RString(s) => Str(s)
    case RArray(items) => Arr(seq(|items|, i requires 0 <= i < |items| => Build(items[i], opts)))
    case RObject(ms) => Obj(BuildMembers(ms, opts))
  }

  // Later members overwrite earlier ones, unless the first is kept.
  function BuildMembers(ms: seq<Member>, opts: Options): (m: map<Bytes, Json>)
    ensures forall k :: k in m <==> HasKey(ms, k)
    decreases ms
  {
    if ms == [] then map[]
    else
      var last := ms[|ms| - 1];
      var m := BuildMembers(ms[..|ms| - 1], opts);
      KeysOfPrefix(ms);
      if last.key in m && opts.duplicates == KeepFirst then m else m[last.key := Build(last.value, opts)]
  }

  lemma KeysOfPrefix(ms: seq<Member>)
    requires ms != []
    ensures forall k :: HasKey(ms, k) <==> HasKey(ms[..|ms| - 1], k) || k == ms[|ms| - 1].key
  {
    forall k | HasKey(ms, k) && k != ms[|ms| - 1].key ensures HasKey(ms[..|ms| - 1], k) {
      var i :| 0 <= i < |ms| && ms[i].key == k;
      assert ms[..|ms| - 1][i].key == k;
    }
    forall k | HasKey(ms[..|ms| - 1], k) ensures HasKey(ms, k) {
      var i :| 0 <= i < |ms| - 1 && ms[..|ms| - 1][i].key == k;
      assert ms[i].key == k;
    }
    assert ms[|ms| - 1].key == ms[|ms| - 1].key;
  }

  // A text under the options: accepted or not.
  predicate Accepts(src: Bytes, maxInputBytes: nat, opts: Options) {
    && (maxInputBytes == 0 || |src| <= maxInputBytes)
    && ParseDocument(src).Some?
    && Fits(ParseDocument(src).value, opts, opts.maxDepth)
    && NodesFit(Nodes(ParseDocument(src).value), opts)
  }
}
