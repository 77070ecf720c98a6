// RFC 6902 on values: what each operation means, independently of how the
// engine edits its scratch tree.

module PatchSpec {
  import opened JsonValue
  import opened Pointer
  import opened Numbers

  datatype PatchCode =
    | Fine
    | InvalidPatchDocument | OperationNotObject
    | MissingOp | InvalidOp | MissingPath | InvalidPath | MissingFrom | InvalidFrom | MissingValue
    | TargetMissing | InvalidArrayIndex | ArrayIndexOutOfRange | TestFailed
    | MoveRootNotAllowed | MoveIntoDescendant
    | ResourceLimit | AllocationFailure

  datatype Result = Done(value: Json) | Fail(code: PatchCode)

  type Path = seq<Bytes>

  // ---- Where a path leads ----

  datatype PointerCode = MissingTarget | ExpectedContainer | AppendTokenNotAllowed | BadIndex | IndexOutOfRange

  // The slot of a container of the given size that a token selects.
  datatype Position = At(index: nat) | NoPosition(code: PointerCode)

  function ExistingIndex(token: Bytes, size: nat): (p: Position)
    ensures p.At? ==> p.index < size
  {
    if token == DASH then NoPosition(AppendTokenNotAllowed)
    else match IndexOf(token)
      case IndexInvalid => NoPosition(BadIndex)
      case IndexOverflow => NoPosition(IndexOutOfRange)
      case IndexOk(i) => if i < size then At(i) else NoPosition(IndexOutOfRange)
  }

  // add also accepts the end of the array.
  function InsertionIndex(token: Bytes, size: nat): (p: Position)
    ensures p.At? ==> p.index <= size
  {
    if token == DASH then At(size)
    else match IndexOf(token)
      case IndexInvalid => NoPosition(BadIndex)
      case IndexOverflow => NoPosition(IndexOutOfRange)
      case IndexOk(i) => if i <= size then At(i) else NoPosition(IndexOutOfRange)
  }

  datatype Located = Found(value: Json) | Missing(code: PointerCode)

  function Child(v: Json, token: Bytes): (c: Located)
    ensures c.Found? ==> c.value < v
  {
    match v
    case Obj(members) => if token in members then Found(members[token]) else Missing(MissingTarget)
    case Arr(items) =>
      (match ExistingIndex(token, |items|)
       case At(i) => Found(items[i])
       case NoPosition(code) => Missing(code))
    case _ => Missing(ExpectedContainer)
  }

  function Lookup(v: Json, path: Path): Located
    decreases |path|
  {
    if path == [] then Found(v)
    else match Child(v, path[0])
      case Found(c) => Lookup(c, path[1..])
      case Missing(code) => Missing(code)
  }

  // v with the child selected by token replaced.
  function WithChild(v: Json, token: Bytes, c: Json): Json
    requires Child(v, token).Found?
  {
    match v
    case Obj(members) => Obj(members[token := c])
    case Arr(items) => Arr(items[ExistingIndex(token, |items|).index := c])
    case _ => v
  }

  // v with the subtree at an existing path replaced.
  function PutAt(v: Json, path: Path, w: Json): Json
    requires Lookup(v, path).Found?
    decreases |path|
  {
    if path == [] then w
    else WithChild(v, path[0], PutAt(Child(v, path[0]).value, path[1..], w))
  }

  function PatchCodeOf(code: PointerCode): PatchCode {
    match code
    case AppendTokenNotAllowed => InvalidArrayIndex
    case BadIndex => InvalidArrayIndex
    case IndexOutOfRange => ArrayIndexOutOfRange
    case MissingTarget => TargetMissing
    case ExpectedContainer => TargetMissing
  }

  // ---- Edits ----

  datatype Edit = Insert(value: Json) | Remove | Overwrite(value: Json)

  function Spliced(items: seq<Json>, i: nat, x: Json): seq<Json>
    requires i <= |items|
  {
    items[..i] + [x] + items[i..]
  }

  function Cut(items: seq<Json>, i: nat): seq<Json>
    requires i < |items|
  {
    items[..i] + items[i + 1..]
  }

  // An edit of the slot that token names in the container v.
  function EditHere(e: Edit, v: Json, token: Bytes): Result {
    match v
    case Obj(members) =>
      (match e
       case Insert(x) => Done(Obj(members[token := x]))
       case Remove => if token in members then Done(Obj(members - {token})) else Fail(TargetMissing)
       case Overwrite(x) => if token in members then Done(Obj(members[token := x])) else Fail(TargetMissing))
    case Arr(items) =>
      (match e
       case Insert(x) =>
         (match InsertionIndex(token, |items|)
          case At(i) => Done(Arr(Spliced(items, i, x)))
          case NoPosition(code) => Fail(PatchCodeOf(code)))
       case Remove =>
         (match ExistingIndex(token, |items|)
          case At(i) => Done(Arr(Cut(items, i)))
          case NoPosition(code) => Fail(PatchCodeOf(code)))
       case Overwrite(x) =>
         (match ExistingIndex(token, |items|)
          case At(i) => Done(Arr(items[i := x]))
          case NoPosition(code) => Fail(PatchCodeOf(code))))
    case _ => Fail(TargetMissing)
  }

  // The whole document is a slot too; removing it leaves null.
  function EditRoot(e: Edit): Json {
    match e
    case Insert(x) => x
    case Overwrite(x) => x
    case Remove => Null
  }

  function Apply(e: Edit, v: Json, path: Path): Result
    decreases |path|
  {
    if path == [] then Done(EditRoot(e))
    else if |path| == 1 then EditHere(e, v, path[0])
    else match Child(v, path[0])
      case Missing(code) => Fail(PatchCodeOf(code))
      case Found(c) =>
        match Apply(e, c, path[1..])
        case Fail(code) => Fail(code)
        case Done(w) => Done(WithChild(v, path[0], w))
  }

  // ---- Operations ----

  datatype Operation =
    | AddOp(path: Path, value: Json)
    | RemoveOp(path: Path)
    | ReplaceOp(path: Path, value: Json)
    | TestOp(path: Path, value: Json)
    | CopyOp(from: Path, path: Path)
    | MoveOp(from: Path, path: Path)

  predicate ProperPrefix(a: Path, b: Path) {
    |a| < |b| && a == b[..|a|]
  }

  // Section 4.4: remove the source, then add what was removed.
  function RemoveThenAdd(doc: Json, from: Path, path: Path): Result {
    match Lookup(doc, from)
    case Missing(code) => Fail(PatchCodeOf(code))
    case Found(x) =>
      match Apply(Remove, doc, from)
      case Fail(code) => Fail(code)
      case Done(rest) => Apply(Insert(x), rest, path)
  }

  ghost function Step(op: Operation, doc: Json): Result {
    match op
    case AddOp(path, x) => Apply(Insert(x), doc, path)
    case RemoveOp(path) => Apply(Remove, doc, path)
    case ReplaceOp(path, x) => Apply(Overwrite(x), doc, path)
    case TestOp(path, x) =>
      (match Lookup(doc, path)
       case Missing(code) => Fail(PatchCodeOf(code))
       case Found(y) => if Equal(y, x) then Done(doc) else Fail(TestFailed))
    case CopyOp(from, path) =>
      (match Lookup(doc, from)
       case Missing(code) => Fail(PatchCodeOf(code))
       case Found(x) => Apply(Insert(x), doc, path))
    case MoveOp(from, path) =>
      (match Lookup(doc, from)
       case Missing(code) => Fail(PatchCodeOf(code))
       case Found(x) =>
         if from != path && ProperPrefix(from, path) then
           Fail(if from == [] then MoveRootNotAllowed else MoveIntoDescendant)
         else RemoveThenAdd(doc, from, path))
  }

  // ---- Laws ----

  // The parent path and the last token.
  lemma {:induction false} ApplyAtParent(e: Edit, v: Json, path: Path)
    requires path != []
    ensures var parent := path[..|path| - 1];
            var token := path[|path| - 1];
            match Lookup(v, parent)
            case Missing(code) => Apply(e, v, path) == Fail(PatchCodeOf(code))
            case Found(p) =>
              match EditHere(e, p, token)
              case Fail(code) => Apply(e, v, path) == Fail(code)
              case Done(w) => Apply(e, v, path) == Done(PutAt(v, parent, w))
    decreases |path|
  {
    var parent := path[..|path| - 1];
    if |path| > 1 {
      assert path[1..][..|path| - 2] == parent[1..];
      match Child(v, path[0]) {
        case Missing(code) =>
        case Found(c) => ApplyAtParent(e, c, path[1..]);
      }
    }
  }

  // Removing an existing value and adding it back at the same place restores
  // the document, so the same-path shortcut of move is the general route.
  lemma {:induction false} RemoveThenAddSamePath(doc: Json, path: Path)
    requires Lookup(doc, path).Found?
    ensures RemoveThenAdd(doc, path, path) == Done(doc)
    decreases |path|
  {
    if |path| == 1 {
      assert Lookup(doc, path) == Child(doc, path[0]);
      SlotRestored(doc, path[0]);
    } else if |path| > 1 {
      var c := Child(doc, path[0]).value;
      RemoveThenAddSamePath(c, path[1..]);
      assert Lookup(doc, path) == Lookup(c, path[1..]);
      match Apply(Remove, c, path[1..]) {
        case Fail(_) =>
        case Done(w) => ChildOfWith(doc, path[0], w); ChildPutBack(doc, path[0], w);
      }
    }
  }

  lemma SlotRestored(v: Json, token: Bytes)
    requires Child(v, token).Found?
    ensures EditHere(Remove, v, token).Done?
    ensures EditHere(Insert(Child(v, token).value), EditHere(Remove, v, token).value, token) == Done(v)
  {
    match v
    case Obj(members) => assert (members - {token})[token := members[token]] == members;
    case Arr(items) =>
      var i := ExistingIndex(token, |items|).index;
      assert Spliced(Cut(items, i), i, items[i]) == items;
    case _ =>
  }

  lemma ChildOfWith(v: Json, token: Bytes, w: Json)
    requires Child(v, token).Found?
    ensures Child(WithChild(v, token, w), token) == Found(w)
  {
  }

  lemma ChildPutBack(v: Json, token: Bytes, w: Json)
    requires Child(v, token).Found?
    ensures Child(WithChild(v, token, w), token).Found?
    ensures WithChild(WithChild(v, token, w), token, Child(v, token).value) == v
  {
    match v
    case Obj(members) => assert members[token := w][token := members[token]] == members;
    case Arr(items) =>
      var i := ExistingIndex(token, |items|).index;
      assert items[i := w][i := items[i]] == items;
    case _ =>
  }

  // Where a successful add put the value: "-" has become the last index.
  function LandingSlot(v: Json, token: Bytes): Option<nat> {
    if v.Arr? then
      match InsertionIndex(token, |v.items|)
      case At(i) => Some(i)
      case NoPosition(_) => None
    else None
  }

  // After a successful add, the value is what the destination slot holds.
  lemma AddedHere(v: Json, token: Bytes, x: Json)
    requires EditHere(Insert(x), v, token).Done?
    ensures var w := EditHere(Insert(x), v, token).value;
            match v
            case Obj(_) =>
              w.Obj? && token in w.members && w.members[token] == x && w.members - {token} == v.members - {token}
            case Arr(items) =>
              var slot := LandingSlot(v, token);
              slot.Some? && w.Arr? && slot.value < |w.items| && w.items[slot.value] == x
                && Cut(w.items, slot.value) == items
            case _ => false
  {
    var w := EditHere(Insert(x), v, token).value;
    match v
    case Arr(items) =>
      var i := InsertionIndex(token, |items|).index;
      assert w.items[..i] == items[..i] && w.items[i + 1..] == items[i..];
      assert Cut(w.items, i) == items;
    case Obj(members) => assert w.members - {token} == members - {token};
    case _ =>
  }

  // Two tokens that select the same child are the same token.
  lemma SlotsDistinct(v: Json, s: Bytes, t: Bytes, c: Json)
    requires Child(v, s).Found? && s != t
    ensures Child(WithChild(v, s, c), t) == Child(v, t)
  {
    if v.Arr? && ExistingIndex(t, |v.items|) == ExistingIndex(s, |v.items|) {
      IndexInjective(s, t);
    }
  }

  // Replacing a subtree is read back at its path, and at no path that is
  // neither above nor below it.
  lemma {:induction false} PutThenLookup(v: Json, path: Path, w: Json, other: Path)
    requires Lookup(v, path).Found?
    ensures Lookup(PutAt(v, path, w), path) == Found(w)
    ensures !(path <= other) && !(other <= path) ==> Lookup(PutAt(v, path, w), other) == Lookup(v, other)
    decreases |path|
  {
    if path != [] {
      var c := Child(v, path[0]).value;
      var sub := PutAt(c, path[1..], w);
      ChildOfWith(v, path[0], sub);
      PutThenLookup(c, path[1..], w, if other == [] then [] else other[1..]);
      if !(path <= other) && !(other <= path) {
        if path[0] == other[0] {
          assert path[1..] <= other[1..] ==> path <= other;
          assert other[1..] <= path[1..] ==> other <= path;
        } else {
          SlotsDistinct(v, path[0], other[0], sub);
        }
      }
    }
  }

  // The whole document at the end of a path, or its parent's child: the same.
  lemma {:induction false} PutAtParent(v: Json, path: Path, w: Json)
    requires path != [] && Lookup(v, path).Found?
    ensures var parent := path[..|path| - 1];
            var token := path[|path| - 1];
            && Lookup(v, parent).Found?
            && Child(Lookup(v, parent).value, token).Found?
            && PutAt(v, path, w) == PutAt(v, parent, WithChild(Lookup(v, parent).value, token, w))
    decreases |path|
  {
    var parent := path[..|path| - 1];
    if |path| > 1 {
      assert path[1..][..|path| - 2] == parent[1..];
      PutAtParent(Child(v, path[0]).value, path[1..], w);
    } else {
      assert Lookup(v, path) == Child(v, path[0]);
      assert path[1..] == [];
    }
  }

  // Where something exists, replace puts, and add does too unless it inserts
  // into an array.
  lemma OverwriteIsPut(v: Json, path: Path, w: Json)
    requires Lookup(v, path).Found?
    ensures Apply(Overwrite(w), v, path) == Done(PutAt(v, path, w))
    ensures path == [] || (Lookup(v, path[..|path| - 1]).Found? && !Lookup(v, path[..|path| - 1]).value.Arr?) ==>
      Apply(Insert(w), v, path) == Done(PutAt(v, path, w))
  {
    if path != [] {
      PutAtParent(v, path, w);
      ApplyAtParent(Overwrite(w), v, path);
      ApplyAtParent(Insert(w), v, path);
    }
  }

  // ---- Operation objects ----

  function Text(s: string): (b: Bytes)
    requires forall i :: 0 <= i < |s| ==> s[i] as int < 256
  {
    seq(|s|, i requires 0 <= i < |s| => s[i] as int)
  }

  const OP: Bytes := Text("op")
  const PATH: Bytes := Text("path")
  const FROM: Bytes := Text("from")
  const VALUE: Bytes := Text("value")
  const ADD: Bytes := Text("add")
  const REMOVE: Bytes := Text("remove")
  const REPLACE: Bytes := Text("replace")
  const MOVE: Bytes := Text("move")
  const COPY: Bytes := Text("copy")
  const TEST: Bytes := Text("test")

  // The token list a pointer text stands for; JoinInjective makes it unique.
  ghost function Tokenized(pointer: Bytes): Option<Path> {
    if t: Path :| Join(t) == pointer then Some(t) else None
  }

  datatype Parsed = Op(op: Operation) | BadOp(code: PatchCode)

  predicate HasText(members: map<Bytes, Json>, key: Bytes) {
    key in members && members[key].Str?
  }

  predicate KnownName(name: Bytes) {
    name == ADD || name == REMOVE || name == REPLACE || name == MOVE || name == COPY || name == TEST
  }

  // The checks on one member of the patch array, in the order they are made.
  ghost function ParseOp(v: Json): Parsed {
    if !v.Obj? then BadOp(OperationNotObject)
    else if !HasText(v.members, OP) then BadOp(MissingOp)
    else
      var name := v.members[OP].s;
      if !KnownName(name) then BadOp(InvalidOp)
      else if !HasText(v.members, PATH) then BadOp(MissingPath)
      else match Tokenized(v.members[PATH].s)
        case None => BadOp(InvalidPath)
        case Some(path) =>
          if name == MOVE || name == COPY then
            if !HasText(v.members, FROM) then BadOp(MissingFrom)
            else match Tokenized(v.members[FROM].s)
              case None => BadOp(InvalidFrom)
              case Some(from) => Op(if name == MOVE then MoveOp(from, path) else CopyOp(from, path))
          else if name == REMOVE then Op(RemoveOp(path))
          else if VALUE !in v.members then BadOp(MissingValue)
          else
            var x := v.members[VALUE];
            Op(if name == ADD then AddOp(path, x) else if name == REPLACE then ReplaceOp(path, x) else TestOp(path, x))
  }

  datatype Outcome = Finished(doc: Json) | Stopped(code: PatchCode, at: nat)

  // The first n operations, applied in order until one fails.
  ghost function RunOps(ops: seq<Json>, n: nat, doc: Json): (o: Outcome)
    requires n <= |ops|
    ensures o.Stopped? ==> o.at < n
  {
    if n == 0 then Finished(doc)
    else match RunOps(ops, n - 1, doc)
      case Stopped(code, at) => Stopped(code, at)
      case Finished(w) =>
        match ParseOp(ops[n - 1])
        case BadOp(code) => Stopped(code, n - 1)
        case Op(op) =>
          match Step(op, w)
          case Fail(code) => Stopped(code, n - 1)
          case Done(x) => Finished(x)
  }

  lemma {:induction false} StaysStopped(ops: seq<Json>, n: nat, m: nat, doc: Json)
    requires n <= m <= |ops| && RunOps(ops, n, doc).Stopped?
    ensures RunOps(ops, m, doc) == RunOps(ops, n, doc)
    decreases m - n
  {
    if n < m { StaysStopped(ops, n, m - 1, doc); }
  }

  // Section 5 of RFC 6902: a test that passes changes nothing, and a move to
  // where the value already is changes nothing either.
  lemma NoChange(doc: Json, path: Path, x: Json)
    ensures Step(TestOp(path, x), doc).Done? ==> Step(TestOp(path, x), doc) == Done(doc)
    ensures Lookup(doc, path).Found? ==> Step(MoveOp(path, path), doc) == Done(doc)
  {
    if Lookup(doc, path).Found? { RemoveThenAddSamePath(doc, path); }
  }
}
