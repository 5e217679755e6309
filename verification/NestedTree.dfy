/** The JavaScript fallback: one nested tree of objects, edited in place. The flat store must show
    the same leaves. */
module NestedTree {
  import opened Bytes
  import opened Paths
  import opened Json
  import opened StoreSpec
  import opened StoreView
  import opened Effects
  import opened FlatStore
  import opened JsonSnapshot
  import opened NullProto
  import opened Plain
  import opened Stored

  // --------------------------------------------------------------------------------------
  // Operations
  // --------------------------------------------------------------------------------------

  function NestedApply(root: Fields, op: Op): Fields {
    match op
    case Set(k, v) => InsertAt(root, Split(k), Clean(v))
    case Del(k) => var r := RemoveAt(root, Split(k)); if r.Some? then r.value else root
    case Clear => NoField
  }

  function NestedAll(root: Fields, ops: seq<Op>): Fields
    decreases |ops|
  {
    if ops == [] then root else NestedAll(NestedApply(root, ops[0]), ops[1..])
  }

  function CleanOp(op: Op): Op {
    match op case Set(k, v) => Op.Set(k, Clean(v)) case _ => op
  }

  function CleanOps(ops: seq<Op>): seq<Op> {
    if ops == [] then [] else [CleanOp(ops[0])] + CleanOps(ops[1..])
  }

  /** One operation on the nested tree follows the rule the flat store follows, path by path, with the
      value that is stored. */
  lemma NestedActs(root: Fields, op: Op, p: Path)
    requires WellFormedFields(root) && OpOk(op)
    ensures WellFormedFields(NestedApply(root, op)) && OpOk(CleanOp(op))
    ensures LeafAt(Obj(NestedApply(root, op)), p) == Act(CleanOp(op), p, LeafAt(Obj(root), p))
  {
    match op
    case Set(k, v) =>
      CleanWellFormed(v);
      InsertAtWellFormed(root, Split(k), Clean(v));
      InsertAtLeaf(root, Split(k), Clean(v), p);
    case Del(k) =>
      RemoveAtWellFormed(root, Split(k));
      RemoveAtLeaf(root, Split(k), p);
    case Clear =>
  }

  lemma {:induction false} NestedAllActs(root: Fields, ops: seq<Op>, p: Path)
    requires WellFormedFields(root) && forall op :: op in ops ==> OpOk(op)
    ensures WellFormedFields(NestedAll(root, ops))
    ensures LeafAt(Obj(NestedAll(root, ops)), p) == ActAll(CleanOps(ops), p, LeafAt(Obj(root), p))
    ensures forall op :: op in CleanOps(ops) ==> OpOk(op)
    decreases |ops|
  {
    if ops != [] {
      NestedActs(root, ops[0], p);
      NestedAllActs(NestedApply(root, ops[0]), ops[1..], p);
      assert CleanOps(ops)[1..] == CleanOps(ops[1..]);
    }
  }

  /** After any run of operations the nested tree shows the leaves of a flat store that was given the
      values without their forbidden fields, if every object in it is edited; within the limits on names
      and levels, every object is. */
  lemma SameLeavesCleaned(ops: seq<Op>, p: Path)
    requires forall op :: op in ops ==> OpOk(op)
    ensures View(ApplyAll(map[], CleanOps(ops)), p) == LeafAt(Obj(NestedAll(NoField, ops)), p)
    ensures (forall op :: op in CleanOps(ops) ==> TameOp(op)) ==>
      View(StoredAll(map[], CleanOps(ops)), p) == LeafAt(Obj(NestedAll(NoField, ops)), p)
  {
    NestedAllActs(NoField, ops, p);
    if forall op :: op in CleanOps(ops) ==> TameOp(op) { StoredIsApplied(map[], CleanOps(ops)); }
    ApplyAllView(map[], CleanOps(ops));
    assert View(map[], p) == None;
  }

  /** The operation stores only values that lose no leaf. */
  predicate OpUntouched(op: Op) { op.Set? ==> Untouched(op.value) }

  lemma {:induction false} CleanOpsAct(ops: seq<Op>, p: Path, was: Option<Json>)
    requires forall op :: op in ops ==> OpOk(op) && OpUntouched(op)
    ensures ActAll(CleanOps(ops), p, was) == ActAll(ops, p, was)
    decreases |ops|
  {
    if ops != [] {
      var op := ops[0];
      assert op in ops;
      if op.Set? { UntouchedExact(op.value); }
      assert Act(CleanOp(op), p, was) == Act(op, p, was);
      CleanOpsAct(ops[1..], p, Act(op, p, was));
      assert CleanOps(ops)[1..] == CleanOps(ops[1..]);
    }
  }

  /** After any run that stores only values losing no leaf, and stays within the limits on names and levels,
      the flat store and the nested tree show the same leaves; without the limits they would if the store
      edited every object. */
  lemma SameLeaves(ops: seq<Op>, p: Path)
    requires forall op :: op in ops ==> OpOk(op) && OpUntouched(op)
    ensures View(ApplyAll(map[], ops), p) == LeafAt(Obj(NestedAll(NoField, ops)), p)
    ensures (forall op :: op in ops ==> TameOp(op)) ==>
      View(StoredAll(map[], ops), p) == LeafAt(Obj(NestedAll(NoField, ops)), p)
  {
    if forall op :: op in ops ==> TameOp(op) { StoredIsApplied(map[], ops); }
    ApplyAllView(map[], ops);
    NestedAllActs(NoField, ops, p);
    CleanOpsAct(ops, p, None);
    assert View(map[], p) == None;
  }

  ghost predicate AgreeAt(m: Tree, root: Fields, p: Path) {
    View(m, p) == LeafAt(Obj(root), p)
  }

  ghost predicate Agree(m: Tree, root: Fields) {
    forall p :: AgreeAt(m, root, p)
  }

  /** A leaf at `p`, if there is one, is not lost with a sealed entry at `a` unless a write at `k` kills it. */
  ghost predicate KeptAt(m: Tree, a: Path, k: Path, p: Path) {
    a <= p && View(m, p).Some? ==> p <= k || k <= p
  }

  /** If the entry above `k` is sealed, it holds no leaf that a write at `k` would keep. */
  ghost predicate NothingDropped(m: Tree, k: Bytes) {
    Blocked(m, k) ==> forall p :: KeptAt(m, Split(k[..AncestorFrom(m.Keys, k, 0).value]), Split(k), p)
  }

  ghost predicate ActsAt(m: Tree, k: Bytes, v: Json, p: Path) {
    View(StoredSet(m, k, v), p) == Write(Split(k), v, p, View(m, p))
  }

  lemma BlockedActs(m: Tree, k: Bytes, v: Json, p: Path)
    requires Consistent(m) && KeyOk(k) && WellFormed(v) && Blocked(m, k)
    ensures ActsAt(m, k, v, p) <==> KeptAt(m, Split(k[..AncestorFrom(m.Keys, k, 0).value]), Split(k), p)
  {
    var a := k[..AncestorFrom(m.Keys, k, 0).value];
    UnderIsProperPrefix(a, k);
    BlockedSetView(m, k, v, p);
    if p <= Split(k) && !(Split(a) <= p) {
      ComparablePrefixes(p, Split(a), Split(k));
      AboveEntry(m, a, p);
    }
  }

  /** A set acts on every leaf by the rule exactly when nothing else in a sealed entry is dropped. */
  lemma SetActsExact(m: Tree, k: Bytes, v: Json)
    requires Consistent(m) && KeyOk(k) && WellFormed(v)
    ensures (forall p :: ActsAt(m, k, v, p)) <==> NothingDropped(m, k)
  {
    if Blocked(m, k) {
      var a := Split(k[..AncestorFrom(m.Keys, k, 0).value]);
      forall p ensures ActsAt(m, k, v, p) <==> KeptAt(m, a, Split(k), p) { BlockedActs(m, k, v, p); }
    } else {
      StoredSetExact(m, k, v);
      forall p ensures ActsAt(m, k, v, p) { SetView(m, k, v, p); }
    }
  }

  /** What a stored set shows below its key does not depend on what is above it. */
  lemma SetShowsValue(m: Tree, k: Bytes, v: Json, q: Path)
    requires Consistent(m) && KeyOk(k) && WellFormed(v)
    ensures View(StoredSet(m, k, v), Split(k) + q) == LeafAt(v, q)
  {
    var p := Split(k) + q;
    assert p[|Split(k)|..] == q;
    if Blocked(m, k) {
      BlockedSetView(m, k, v, p);
    } else {
      StoredSetExact(m, k, v);
      SetView(m, k, v, p);
    }
  }

  /** With a value that loses no leaf, they agree where the native set acts by the rule. */
  lemma UntouchedSetAt(m: Tree, root: Fields, k: Bytes, v: Json, p: Path)
    requires WellFormedFields(root) && AgreeAt(m, root, p) && KeyOk(k) && WellFormed(v) && Untouched(v)
    ensures AgreeAt(StoredSet(m, k, v), NestedApply(root, Op.Set(k, v)), p) <==> ActsAt(m, k, v, p)
  {
    UntouchedExact(v);
    NestedActs(root, Op.Set(k, v), p);
  }

  /** With any other value they disagree somewhere below the key. */
  lemma TouchedSetDiffers(m: Tree, root: Fields, k: Bytes, v: Json)
    requires Consistent(m) && WellFormedFields(root) && KeyOk(k) && WellFormed(v) && !Untouched(v)
    ensures !Agree(StoredSet(m, k, v), NestedApply(root, Op.Set(k, v)))
  {
    UntouchedExact(v);
    var q :| LeafAt(Clean(v), q) != LeafAt(v, q);
    assert (Split(k) + q)[|Split(k)|..] == q;
    NestedActs(root, Op.Set(k, v), Split(k) + q);
    SetShowsValue(m, k, v, q);
    assert !AgreeAt(StoredSet(m, k, v), NestedApply(root, Op.Set(k, v)), Split(k) + q);
  }

  /** Two engines that show the same leaves show the same leaves after one more set exactly when the value
      loses no leaf in the fallback and the native store drops none with a sealed object. */
  lemma OneSetAgrees(m: Tree, root: Fields, k: Bytes, v: Json)
    requires Consistent(m) && WellFormedFields(root) && Agree(m, root) && KeyOk(k) && WellFormed(v)
    ensures Agree(StoredSet(m, k, v), NestedApply(root, Op.Set(k, v))) <==> Untouched(v) && NothingDropped(m, k)
  {
    if Untouched(v) {
      SetActsExact(m, k, v);
      var m', root' := StoredSet(m, k, v), NestedApply(root, Op.Set(k, v));
      forall p ensures AgreeAt(m', root', p) <==> ActsAt(m, k, v, p) {
        assert AgreeAt(m, root, p);
        UntouchedSetAt(m, root, k, v, p);
      }
    } else {
      TouchedSetDiffers(m, root, k, v);
    }
  }

  const A: Bytes := [0x61]
  const AB: Bytes := [0x61, DOT, 0x62]

  /** For instance `a` set to an object whose only field is named `constructor`: the flat store shows the
      leaf, the nested tree has lost it. */
  lemma ForbiddenFieldDiffers(v: Json)
    requires WellFormed(v) && !v.Obj?
    ensures var op := Op.Set(A, Obj(Field(CONSTRUCTOR, v, NoField)));
      && View(ApplyAll(map[], [op]), [A, CONSTRUCTOR]) == Some(v)
      && LeafAt(Obj(NestedAll(NoField, [op])), [A, CONSTRUCTOR]) == None
  {
    var x := Obj(Field(CONSTRUCTOR, v, NoField));
    var op := Op.Set(A, x);
    var p := [A, CONSTRUCTOR];
    SplitDotFree(A);
    assert [op][1..] == [] && p[1..] == [CONSTRUCTOR] && [CONSTRUCTOR][1..] == [];
    assert ApplyAll(map[], [op]) == ApplyAll(Apply(map[], op), []) == SetFn(map[], A, x);
    assert NestedAll(NoField, [op]) == NestedAll(NestedApply(NoField, op), []) == NestedApply(NoField, op);
    assert LeafAt(x, [CONSTRUCTOR]) == LeafAt(v, []) == Some(v);
    SetView(map[], A, x, p);
    CleanLookup(x.fields, CONSTRUCTOR);
    NestedActs(NoField, op, p);
  }

  /** A sealed entry, then a set below it: what the entry held elsewhere is gone. */
  lemma SealedRun(a: Bytes, x: Json, k: Bytes, v: Json, p: Path)
    requires KeyOk(a) && KeyOk(k) && WellFormed(x) && WellFormed(v) && Sealed(x) && Under(a, k)
    requires Split(a) <= p && !(Split(k) <= p)
    ensures View(StoredAll(map[], [Op.Set(a, x), Op.Set(k, v)]), p) == None
  {
    var m: Tree := map[a := x];
    var ops := [Op.Set(a, x), Op.Set(k, v)];
    assert Prune(map[], a)[a := x] == m && StoredSet(map[], a, x) == m;
    assert ops[1..] == [ops[1]] && [ops[1]][1..] == [];
    assert StoredAll(map[], ops) == StoredAll(m, [ops[1]]) == StoredAll(StoredSet(m, k, v), []);
    AncestorIs(m, a, k);
    FreshConsistent(map[], a, x);
    assert Consistent(m);
    BlockedSetView(m, k, v, p);
  }

  lemma TwoSegments()
    ensures Split(A) == [A] && Split(AB) == [A, [0x62]]
    ensures !(Split(AB) <= [A, ENC]) && !([A, ENC] <= Split(AB)) && Split(A) <= [A, ENC]
  {
    var b: Bytes := [0x62];
    assert AB == A + [DOT] + b;
    SplitDot(A, b);
    SplitDotFree(A);
    SplitDotFree(b);
    assert [A, b][1] != [A, ENC][1];
  }

  /** An `__enc` field of the value 1 set in the nested tree. */
  lemma NestedHolds(x: Json)
    requires WellFormed(x) && x == Obj(Field(ENC, ONE, NoField))
    ensures LeafAt(Obj(NestedApply(NoField, Op.Set(A, x))), [A, ENC]) == Some(ONE)
  {
    var p := [A, ENC];
    TwoSegments();
    NestedActs(NoField, Op.Set(A, x), p);
    CleanLookup(x.fields, ENC);
    assert p[1..] == [ENC] && [ENC][1..] == [];
    assert LeafAt(Clean(x), [ENC]) == LeafAt(Clean(ONE), []);
  }

  lemma NestedKeeps(root: Fields, v: Json)
    requires WellFormedFields(root) && WellFormed(v)
    ensures LeafAt(Obj(NestedApply(root, Op.Set(AB, v))), [A, ENC]) == LeafAt(Obj(root), [A, ENC])
  {
    TwoSegments();
    NestedActs(root, Op.Set(AB, v), [A, ENC]);
  }

  lemma TwoSteps(a: Op, b: Op)
    ensures ApplyAll(map[], [a, b]) == Apply(Apply(map[], a), b)
    ensures NestedAll(NoField, [a, b]) == NestedApply(NestedApply(NoField, a), b)
  {
    var ops := [a, b];
    assert ops[1..] == [b] && [b][1..] == [];
    assert ApplyAll(map[], ops) == ApplyAll(Apply(map[], a), [b]) == ApplyAll(Apply(Apply(map[], a), b), []);
    assert NestedAll(NoField, ops) == NestedAll(NestedApply(NoField, a), [b])
      == NestedAll(NestedApply(NestedApply(NoField, a), b), []);
  }

  /** And `a` set to an envelope, then `a.b`: the flat store drops the envelope, the nested tree adds to it. */
  lemma SealedSetDiffers(v: Json)
    requires WellFormed(v)
    ensures var ops := [Op.Set(A, Obj(Field(ENC, ONE, NoField))), Op.Set(AB, v)];
      && View(StoredAll(map[], ops), [A, ENC]) == None
      && LeafAt(Obj(NestedAll(NoField, ops)), [A, ENC]) == Some(ONE)
  {
    var x := Obj(Field(ENC, ONE, NoField));
    EnvelopeText(NoField);
    TwoSegments();
    SealedRun(A, x, AB, v, [A, ENC]);
    TwoSteps(Op.Set(A, x), Op.Set(AB, v));
    NestedHolds(x);
    NestedActs(NoField, Op.Set(A, x), [A, ENC]);
    NestedKeeps(NestedApply(NoField, Op.Set(A, x)), v);
  }

  // --------------------------------------------------------------------------------------
  // Reading
  // --------------------------------------------------------------------------------------

  /** What a property walk ends in: a node, nothing, or a property of an array object. */
  datatype Read = Found(node: Json) | Missing | ArrayProperty

  function ReadNode(v: Json, parts: Path): Read
    decreases |parts|
  {
    if parts == [] then Found(v)
    else match v
      case Obj(fs) => (match Lookup(fs, parts[0]) case None => Missing case Some(c) => ReadNode(c, parts[1..]))
      case Arr(_) => ArrayProperty
      case _ => Missing
  }

  /** Where no scalar or array is in the way, the walk is the native one. */
  lemma {:induction false} ReadDescends(v: Json, q: Path)
    requires forall i {:trigger q[..i]} :: 0 <= i < |q| ==> LeafAt(v, q[..i]).None?
    ensures ReadNode(v, q) == match Descend(v, q) { case None => Missing case Some(n) => Found(n) }
    decreases |q|
  {
    if q != [] {
      assert q[..0] == [] && LeafAt(v, q[..0]).None?;
      if Lookup(v.fields, q[0]).Some? {
        var c := Lookup(v.fields, q[0]).value;
        forall i {:trigger q[1..][..i]} | 0 <= i < |q[1..]| ensures LeafAt(c, q[1..][..i]).None? {
          assert q[..i + 1] == [q[0]] + q[1..][..i];
        }
        ReadDescends(c, q[1..]);
      }
    }
  }

  /** Reads agree: below the key both engines find the same leaves, provided no scalar or array lies above
      the key; within the limits on names and levels this read is the one the native store makes. */
  lemma ReadsAgree(ops: seq<Op>, k: Bytes, q: Path)
    requires KeyOk(k) && forall op :: op in ops ==> OpOk(op) && OpUntouched(op)
    requires forall i {:trigger Split(k)[..i]} ::
      0 <= i < |Split(k)| ==> View(ApplyAll(map[], ops), Split(k)[..i]).None?
    ensures var native, nested := GetFn(ApplyAll(map[], ops), k).1, ReadNode(Obj(NestedAll(NoField, ops)), Split(k));
      && !nested.ArrayProperty?
      && (if native.Some? then LeafAt(native.value, q) else None)
        == (if nested.Found? then LeafAt(nested.node, q) else None)
    ensures (forall op :: op in ops ==> TameOp(op)) ==>
      StoredGet(StoredAll(map[], ops), k) == GetFn(ApplyAll(map[], ops), k)
  {
    var m, root := ApplyAll(map[], ops), Obj(NestedAll(NoField, ops));
    if forall op :: op in ops ==> TameOp(op) {
      StoredIsApplied(map[], ops);
      TameUnblocked(m, k);
    }
    var parts := Split(k);
    ApplyAllView(map[], ops);
    GetReturnsSubtree(m, k, q);
    forall i {:trigger parts[..i]} | 0 <= i < |parts| ensures LeafAt(root, parts[..i]).None? {
      SameLeaves(ops, parts[..i]);
    }
    ReadDescends(root, parts);
    DescendLeaves(root, parts, q);
    SameLeaves(ops, parts + q);
  }

  lemma FlatEmptied(v: Json)
    ensures Apply(Apply(map[], Op.Set(AB, v)), Op.Del(AB)) == map[]
    ensures GetFn(map[], A).1 == None
  {
    var m: Tree := map[];
    assert SetFn(m, AB, v) == m[AB := v];
    assert Occupied(m[AB := v], AB) && Prune(m[AB := v], AB) == m;
    ResolveSucceeds(m, A, Longest(Sorted(m.Keys)));
  }

  lemma NestedEmptied(v: Json)
    requires !v.NotJson?
    ensures NestedApply(InsertAt(NoField, Split(AB), v), Op.Del(AB)) == Field(A, Obj(NoField), NoField)
  {
    var b: Bytes := [0x62];
    assert AB == A + [DOT] + b;
    SplitDot(A, b);
    SplitDotFree(A);
    SplitDotFree(b);
    assert Split(AB) == [A, b] && [A, b][1..] == [b];
    assert InsertAt(NoField, [b], v) == Field(b, v, NoField);
    var one := Field(A, Obj(Field(b, v, NoField)), NoField);
    assert InsertAt(NoField, [A, b], v) == one;
    assert RemoveAt(Field(b, v, NoField), [b]) == Some(NoField);
    assert RemoveAt(one, [A, b]) == Some(Field(A, Obj(NoField), NoField));
  }

  lemma EmptiedRead()
    ensures ReadNode(Obj(Field(A, Obj(NoField), NoField)), Split(A)) == Found(Obj(NoField))
  {
    SplitDotFree(A);
    var root := Field(A, Obj(NoField), NoField);
    assert ReadNode(Obj(root), [A]) == ReadNode(Obj(NoField), [A][1..]);
  }

  /** Only leaves agree: the nested tree keeps an emptied branch, the flat store does not. */
  lemma EmptiedBranchDiffers(v: Json)
    requires WellFormed(v)
    ensures var ops := [Op.Set(AB, v), Op.Del(AB)];
      && GetFn(ApplyAll(map[], ops), A).1 == None
      && ReadNode(Obj(NestedAll(NoField, ops)), Split(A)) == Found(Obj(NoField))
  {
    TwoSteps(Op.Set(AB, v), Op.Del(AB));
    FlatEmptied(v);
    NestedEmptied(Clean(v));
    EmptiedRead();
  }

  // --------------------------------------------------------------------------------------
  // The engine's tree
  // --------------------------------------------------------------------------------------

  ghost predicate WriteAlike(root: Json, parts: Path, v: Json, w: Json) {
    forall p :: Write(parts, v, p, LeafAt(root, p)) == Write(parts, w, p, LeafAt(root, p))
  }

  /** A write of the stored value and a write of the value have the same effect exactly when nothing that
      holds a leaf was dropped. */
  lemma WriteAlikeExact(root: Json, parts: Path, v: Json)
    requires WellFormed(v)
    ensures WriteAlike(root, parts, Clean(v), v) <==> Untouched(v)
  {
    UntouchedExact(v);
    if !Untouched(v) {
      var q :| LeafAt(Clean(v), q) != LeafAt(v, q);
      var p := parts + q;
      assert p[|parts|..] == q;
      assert Write(parts, Clean(v), p, LeafAt(root, p)) != Write(parts, v, p, LeafAt(root, p));
    }
  }

  class NestedStore {
    var root: Fields

    constructor ()
      ensures root == NoField
    {
      root := NoField;
    }

    method ApplySet(parts: Path, value: Json)
      requires parts != [] && WellFormedFields(root) && WellFormed(value)
      modifies this
      ensures WellFormedFields(root)
      ensures forall p :: LeafAt(Obj(root), p) == Write(parts, Clean(value), p, old(LeafAt(Obj(root), p)))
      ensures Untouched(value) <==>
        forall p :: LeafAt(Obj(root), p) == Write(parts, value, p, old(LeafAt(Obj(root), p)))
    {
      ghost var was := Obj(root);
      var stored := ToNullProto(value);
      CleanWellFormed(value);
      InsertAtWellFormed(root, parts, stored);
      forall p { InsertAtLeaf(root, parts, stored, p); }
      WriteAlikeExact(Obj(root), parts, value);
      root := InsertInto(root, parts, stored);
      if !Untouched(value) {
        ghost var p :| Write(parts, stored, p, LeafAt(was, p)) != Write(parts, value, p, LeafAt(was, p));
        assert LeafAt(Obj(root), p) != Write(parts, value, p, LeafAt(was, p));
      }
    }

    /** `deleted` is false when the walk leaves the objects or finds nothing. */
    method ApplyDelete(parts: Path) returns (deleted: bool)
      requires parts != [] && WellFormedFields(root)
      modifies this
      ensures WellFormedFields(root) && (!deleted ==> root == old(root))
      ensures deleted <==> old(RemoveAt(root, parts)).Some?
      ensures forall p :: LeafAt(Obj(root), p) == Kill(parts, p, old(LeafAt(Obj(root), p)))
    {
      RemoveAtWellFormed(root, parts);
      forall p { RemoveAtLeaf(root, parts, p); }
      var r := RemoveFrom(root, parts);
      if r.None? {
        return false;
      }
      root := r.value;
      deleted := true;
    }

    method ReadRaw(parts: Path) returns (r: Read)
      ensures r == ReadNode(Obj(root), parts)
    {
      var node := Obj(root);
      for i := 0 to |parts|
        invariant ReadNode(Obj(root), parts) == ReadNode(node, parts[i..])
      {
        assert parts[i..][1..] == parts[i + 1..];
        match node {
          case Obj(fs) =>
            var child := Lookup(fs, parts[i]);
            if child.None? { return Missing; }
            node := child.value;
          case Arr(_) => return ArrayProperty;
          case _ => return Missing;
        }
      }
      return Found(node);
    }
  }

  // --------------------------------------------------------------------------------------
  // Listing
  // --------------------------------------------------------------------------------------

  datatype Entry = Entry(id: Bytes, data: Json)

  /** The id of a field: an empty prefix adds no dot. */
  function FullKey(prefix: Bytes, name: Bytes): Bytes {
    if prefix == [] then name else prefix + [DOT] + name
  }

  function Entries(fs: Fields, prefix: Bytes): seq<Entry> {
    match fs
    case NoField => []
    case Field(n, v, rest) =>
      (if v.Obj? then Entries(v.fields, FullKey(prefix, n)) else [Entry(FullKey(prefix, n), v)]) + Entries(rest, prefix)
  }

  /** `limit` entries from `offset` on. */
  function Window(all: seq<Entry>, offset: nat, limit: Option<nat>): seq<Entry> {
    var from := if offset <= |all| then all[offset..] else [];
    if limit.Some? && limit.value < |from| then from[..limit.value] else from
  }

  function Least(a: nat, b: nat): nat { if a <= b then a else b }

  /** The recursion behind `all`: entries skipped and collected across calls. */
  class Traversal {
    const offset: nat
    const limit: Option<nat>
    var result: seq<Entry>
    var skipped: nat

    constructor (offset: nat, limit: Option<nat>)
      ensures this.offset == offset && this.limit == limit && result == [] && skipped == 0
    {
      this.offset, this.limit, result, skipped := offset, limit, [], 0;
    }

    predicate Full()
      reads this
    {
      limit.Some? && |result| >= limit.value
    }

    /** The entries seen so far have been skipped, collected or cut off. */
    ghost predicate After(seen: seq<Entry>)
      reads this
    {
      result == Window(seen, offset, limit) && (!Full() ==> skipped == Least(|seen|, offset))
    }

    lemma FullStays(seen: seq<Entry>, more: seq<Entry>)
      requires After(seen) && Full()
      ensures After(seen + more)
    {
    }

    method Collect(e: Entry, ghost seen: seq<Entry>)
      requires After(seen) && !Full()
      modifies this
      ensures After(seen + [e])
    {
      if skipped < offset {
        skipped := skipped + 1;
      } else {
        result := result + [e];
      }
    }

    method Traverse(fs: Fields, prefix: Bytes, ghost seen: seq<Entry>)
      requires After(seen)
      modifies this
      ensures After(seen + Entries(fs, prefix))
      decreases fs
    {
      if Full() {
        FullStays(seen, Entries(fs, prefix));
        return;
      }
      match fs {
        case NoField => assert seen + [] == seen;
        case Field(n, v, rest) =>
          ghost var first := if v.Obj? then Entries(v.fields, FullKey(prefix, n)) else [Entry(FullKey(prefix, n), v)];
          Assoc(seen, first, Entries(rest, prefix));
          if v.Obj? {
            Traverse(v.fields, FullKey(prefix, n), seen);
          } else {
            Collect(Entry(FullKey(prefix, n), v), seen);
          }
          Traverse(rest, prefix, seen + first);
      }
    }
  }

  method ListNested(root: Fields, offset: nat, limit: Option<nat>) returns (r: seq<Entry>)
    ensures r == Window(Entries(root, []), offset, limit)
  {
    var t := new Traversal(offset, limit);
    t.Traverse(root, [], []);
    assert [] + Entries(root, []) == Entries(root, []);
    r := t.result;
  }

  // --------------------------------------------------------------------------------------
  // What a listing shows
  // --------------------------------------------------------------------------------------

  predicate NamedFields(fs: Fields) {
    fs.Field? ==> fs.name != [] && (fs.value.Obj? ==> NamedFields(fs.value.fields)) && NamedFields(fs.rest)
  }

  predicate LeafEntry(fs: Fields, base: Path, q: Path, e: Entry) {
    base + q != [] && LeafAt(Obj(fs), q) == Some(e.data) && e.id == Join(base + q)
  }

  function IdOf(base: Path): Bytes { if base == [] then [] else Join(base) }

  lemma FullKeyJoins(base: Path, n: Bytes)
    requires IdOf(base) == [] ==> base == []
    ensures FullKey(IdOf(base), n) == IdOf(base + [n])
  {
    if base == [] {
      assert [] + [n] == [n];
    } else {
      JoinConcat(base, [n]);
    }
  }

  lemma LongerId(base: Path, n: Bytes)
    requires n != []
    ensures IdOf(base + [n]) != []
  {
    if base == [] { assert [] + [n] == [n]; } else { JoinConcat(base, [n]); }
  }

  lemma FirstEntry(fs: Fields, base: Path, q: Path, e: Entry)
    requires fs.Field? && q != [] && q[0] == fs.name
    ensures LeafEntry(fs, base, q, e) <==>
      if fs.value.Obj? then LeafEntry(fs.value.fields, base + [fs.name], q[1..], e)
      else q == [fs.name] && e == Entry(Join(base + [fs.name]), fs.value)
  {
    assert q == [q[0]] + q[1..];
    assert base + q == base + [fs.name] + q[1..];
    assert LeafAt(Obj(fs), q) == LeafAt(fs.value, q[1..]);
    assert q == [fs.name] <==> q[1..] == [];
  }

  lemma FirstOrRest(fs: Fields, base: Path, e: Entry)
    requires fs.Field? && WellFormedFields(fs)
    ensures (exists q :: LeafEntry(fs, base, q, e)) <==>
      || (exists q :: LeafEntry(fs.rest, base, q, e))
      || (if fs.value.Obj? then exists q :: LeafEntry(fs.value.fields, base + [fs.name], q, e)
          else e == Entry(Join(base + [fs.name]), fs.value))
  {
    if q :| LeafEntry(fs, base, q, e) {
      if q[0] == fs.name { FirstEntry(fs, base, q, e); } else { assert LeafEntry(fs.rest, base, q, e); }
    }
    if q :| LeafEntry(fs.rest, base, q, e) {
      assert q[0] != fs.name && LeafEntry(fs, base, q, e);
    }
    if fs.value.Obj? {
      if q :| LeafEntry(fs.value.fields, base + [fs.name], q, e) {
        assert ([fs.name] + q)[1..] == q;
        FirstEntry(fs, base, [fs.name] + q, e);
      }
    } else {
      FirstEntry(fs, base, [fs.name], e);
    }
  }

  /** A listing has one entry for each leaf of the tree and no other, when no field name is empty. */
  lemma {:induction false} EntriesShow(fs: Fields, base: Path, e: Entry)
    requires WellFormedFields(fs) && NamedFields(fs) && (IdOf(base) == [] ==> base == [])
    ensures e in Entries(fs, IdOf(base)) <==> exists q :: LeafEntry(fs, base, q, e)
  {
    if fs.Field? {
      FullKeyJoins(base, fs.name);
      EntriesShow(fs.rest, base, e);
      if fs.value.Obj? {
        LongerId(base, fs.name);
        EntriesShow(fs.value.fields, base + [fs.name], e);
      }
      FirstOrRest(fs, base, e);
    }
  }
}
