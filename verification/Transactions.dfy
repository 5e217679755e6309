/** Function transactions: writes are staged by key and committed as one batch, each key once, in
    the order keys were first staged, with its last value. */
module Transactions {
  import opened Bytes
  import opened Paths
  import opened Json
  import opened StoreSpec
  import opened Effects

  /** The writes of a transaction, as its function made them. */
  ghost predicate Writes(ops: seq<Op>) {
    forall op :: op in ops ==> OpOk(op) && !op.Clear?
  }

  predicate NoClear(ops: seq<Op>) {
    forall op :: op in ops ==> !op.Clear?
  }

  ghost predicate HasKey(ops: seq<Op>, k: Bytes)
    requires NoClear(ops)
  {
    exists op :: op in ops && op.key == k
  }

  /** No two different keys lie on one path. */
  ghost predicate Incomparable(ops: seq<Op>)
    requires NoClear(ops)
  {
    forall a, b :: a in ops && b in ops && a.key != b.key ==> !Related(a.key, b.key)
  }

  // --------------------------------------------------------------------------------------
  // What is committed
  // --------------------------------------------------------------------------------------

  function FirstOrder(ops: seq<Op>): (r: seq<Bytes>)
    requires NoClear(ops)
    ensures forall k :: k in r <==> HasKey(ops, k)
    ensures forall i, j :: 0 <= i < j < |r| ==> r[i] != r[j]
    decreases |ops|
  {
    if ops == [] then []
    else
      var init, last := ops[..|ops| - 1], ops[|ops| - 1];
      assert forall op :: op in ops <==> op in init || op == last;
      var r := FirstOrder(init);
      if last.key in r then r else r + [last.key]
  }

  function LastOp(ops: seq<Op>, k: Bytes): (r: Op)
    requires NoClear(ops)
    requires HasKey(ops, k)
    ensures r in ops && r.key == k
    decreases |ops|
  {
    var init, last := ops[..|ops| - 1], ops[|ops| - 1];
    assert forall op :: op in ops <==> op in init || op == last;
    if last.key == k then last else LastOp(init, k)
  }

  function LastOps(ops: seq<Op>, keys: seq<Bytes>): (r: seq<Op>)
    requires NoClear(ops)
    requires forall k :: k in keys ==> HasKey(ops, k)
    ensures |r| == |keys| && forall i :: 0 <= i < |r| ==> keys[i] in keys && r[i] == LastOp(ops, keys[i])
    decreases |keys|
  {
    if keys == [] then []
    else
      assert keys[0] in keys;
      [LastOp(ops, keys[0])] + LastOps(ops, keys[1..])
  }

  function Committed(ops: seq<Op>): seq<Op>
    requires NoClear(ops)
  {
    LastOps(ops, FirstOrder(ops))
  }

  lemma CommittedOps(ops: seq<Op>)
    requires Writes(ops)
    ensures Writes(Committed(ops)) && (forall op :: op in Committed(ops) ==> op in ops)
    ensures Incomparable(ops) ==> Incomparable(Committed(ops))
    ensures forall k :: HasKey(ops, k) <==> HasKey(Committed(ops), k)
  {
    var r, order := Committed(ops), FirstOrder(ops);
    forall op | op in r ensures op in ops {
      var i :| 0 <= i < |r| && r[i] == op;
    }
    forall k | HasKey(ops, k) ensures HasKey(r, k) {
      assert k in order;
      var i :| 0 <= i < |order| && order[i] == k;
      assert r[i] in r && r[i].key == k;
    }
  }

  lemma {:induction false} LastOfDistinct(ops: seq<Op>, i: nat)
    requires NoClear(ops) && i < |ops|
    requires forall j :: i < j < |ops| ==> ops[j].key != ops[i].key
    ensures LastOp(ops, ops[i].key) == ops[i]
    decreases |ops|
  {
    assert ops[i] in ops;
    if i < |ops| - 1 {
      var init := ops[..|ops| - 1];
      assert init[i] == ops[i] && ops[|ops| - 1].key != ops[i].key;
      LastOfDistinct(init, i);
    }
  }

  /** Committing keeps each key's last operation. */
  lemma CommittedLast(ops: seq<Op>, k: Bytes)
    requires Writes(ops) && HasKey(ops, k)
    ensures HasKey(Committed(ops), k)
    ensures Writes(Committed(ops)) && LastOp(Committed(ops), k) == LastOp(ops, k)
  {
    CommittedOps(ops);
    var r, order := Committed(ops), FirstOrder(ops);
    var i :| 0 <= i < |order| && order[i] == k;
    assert r[i].key == k;
    forall j | i < j < |r| ensures r[j].key != k { assert order[j] != order[i]; }
    LastOfDistinct(r, i);
  }

  // --------------------------------------------------------------------------------------
  // The effect at one path
  // --------------------------------------------------------------------------------------

  ghost predicate KeyAbove(ops: seq<Op>, p: Path)
    requires NoClear(ops)
  {
    exists op :: op in ops && Split(op.key) <= p
  }

  predicate SetsBelow(op: Op, p: Path) { op.Set? && p <= Split(op.key) && p != Split(op.key) }

  ghost predicate SetBelow(ops: seq<Op>, p: Path) {
    exists op :: op in ops && SetsBelow(op, p)
  }

  lemma UnrelatedKeys(a: Bytes, b: Bytes, p: Path)
    requires !Related(a, b) && Split(a) <= p
    ensures !(Split(b) <= p) && !(p <= Split(b))
  {
    RelatedIffComparable(a, b);
    if Split(b) <= p { ComparablePrefixes(Split(a), Split(b), p); }
    assert p <= Split(b) ==> Split(a) <= Split(b);
  }

  lemma Init(ops: seq<Op>)
    requires ops != []
    ensures ops == ops[..|ops| - 1] + [ops[|ops| - 1]]
    ensures forall op :: op in ops <==> op in ops[..|ops| - 1] || op == ops[|ops| - 1]
  {
  }

  lemma ActLast(ops: seq<Op>, p: Path, was: Option<Json>)
    requires ops != []
    ensures ActAll(ops, p, was) == Act(ops[|ops| - 1], p, ActAll(ops[..|ops| - 1], p, was))
  {
    var init, last := ops[..|ops| - 1], ops[|ops| - 1];
    Init(ops);
    ActAllConcat(init, [last], p, was);
    assert [last][1..] == [];
  }

  lemma OwnKeyDecides(op: Op, p: Path, was: Option<Json>, x: Option<Json>)
    requires !op.Clear? && Split(op.key) <= p
    ensures Act(op, p, was) == Act(op, p, x)
  {
  }

  lemma UnrelatedKeeps(op: Op, k: Bytes, p: Path, was: Option<Json>)
    requires !op.Clear? && !Related(k, op.key) && Split(k) <= p
    ensures Act(op, p, was) == was
  {
    UnrelatedKeys(k, op.key, p);
  }

  /** At or below a written key, the last operation on that key decides. */
  lemma {:induction false} LastDecides(ops: seq<Op>, k: Bytes, p: Path, was: Option<Json>, x: Option<Json>)
    requires Writes(ops) && Incomparable(ops) && Split(k) <= p
    requires HasKey(ops, k)
    ensures ActAll(ops, p, was) == Act(LastOp(ops, k), p, x)
    decreases |ops|
  {
    var init, last := ops[..|ops| - 1], ops[|ops| - 1];
    Init(ops);
    ActLast(ops, p, was);
    if last.key == k {
      OwnKeyDecides(last, p, ActAll(init, p, was), x);
    } else {
      var op :| op in ops && op.key == k;
      assert !Related(op.key, last.key);
      UnrelatedKeeps(last, k, p, ActAll(init, p, was));
      LastDecides(init, k, p, was, x);
    }
  }

  /** Elsewhere, a leaf survives unless some operation set a key strictly below it. */
  lemma {:induction false} SetsDecide(ops: seq<Op>, p: Path, was: Option<Json>)
    requires Writes(ops) && !KeyAbove(ops, p)
    ensures ActAll(ops, p, was) == if SetBelow(ops, p) then None else was
    decreases |ops|
  {
    if ops != [] {
      var init, last := ops[..|ops| - 1], ops[|ops| - 1];
      Init(ops);
      ActLast(ops, p, was);
      SetsDecide(init, p, was);
      assert last in ops && !(Split(last.key) <= p);
      assert Act(last, p, ActAll(init, p, was)) == if SetsBelow(last, p) then None else ActAll(init, p, was);
    }
  }

  lemma CommitAtPath(ops: seq<Op>, p: Path, was: Option<Json>)
    requires Writes(ops) && Incomparable(ops)
    ensures ActAll(ops, p, was) == ActAll(Committed(ops), p, was) <==>
      KeyAbove(ops, p) || was.None? || (SetBelow(ops, p) ==> SetBelow(Committed(ops), p))
  {
    CommittedOps(ops);
    if KeyAbove(ops, p) {
      var op :| op in ops && Split(op.key) <= p;
      CommittedLast(ops, op.key);
      LastDecides(ops, op.key, p, was, None);
      LastDecides(Committed(ops), op.key, p, was, None);
    } else {
      assert !KeyAbove(Committed(ops), p);
      SetsDecide(ops, p, was);
      SetsDecide(Committed(ops), p, was);
      assert SetBelow(Committed(ops), p) ==> SetBelow(ops, p);
    }
  }

  lemma NoKeyAboveASet(ops: seq<Op>, p: Path)
    requires Writes(ops) && Incomparable(ops) && SetBelow(ops, p)
    ensures !KeyAbove(ops, p)
  {
    if KeyAbove(ops, p) {
      var a :| a in ops && Split(a.key) <= p;
      var b :| b in ops && SetsBelow(b, p);
      assert Split(a.key) <= Split(b.key) && Split(a.key) != Split(b.key);
      RelatedIffComparable(a.key, b.key);
    }
  }

  ghost predicate SameAt(m: Tree, ops: seq<Op>, p: Path)
    requires NoClear(ops)
  {
    View(ApplyAll(m, Committed(ops)), p) == View(ApplyAll(m, ops), p)
  }

  /** A stored leaf strictly above a key that was ever set is strictly above one still set at the end. */
  ghost predicate StillCovered(m: Tree, ops: seq<Op>, p: Path)
    requires NoClear(ops)
  {
    View(m, p).Some? && SetBelow(ops, p) ==> SetBelow(Committed(ops), p)
  }

  lemma CommitExactAt(m: Tree, ops: seq<Op>, p: Path)
    requires Consistent(m) && Writes(ops) && Incomparable(ops)
    ensures SameAt(m, ops, p) <==> StillCovered(m, ops, p)
  {
    CommittedOps(ops);
    ApplyAllView(m, ops);
    ApplyAllView(m, Committed(ops));
    CommitAtPath(ops, p, View(m, p));
    if SetBelow(ops, p) { NoKeyAboveASet(ops, p); }
  }

  /** Committing shows the leaves that running the writes at once would show, exactly when every
      stored leaf strictly above a key that was ever set is also strictly above a key that is still
      set at the end. */
  lemma CommitExact(m: Tree, ops: seq<Op>)
    requires Consistent(m) && Writes(ops) && Incomparable(ops)
    ensures (forall p :: SameAt(m, ops, p)) <==> forall p :: StillCovered(m, ops, p)
  {
    forall p ensures SameAt(m, ops, p) <==> StillCovered(m, ops, p) {
      CommitExactAt(m, ops, p);
    }
  }

  /** With no stored scalar or array above a staged key, committing is running the writes at once. */
  lemma CommitFaithful(m: Tree, ops: seq<Op>)
    requires Consistent(m) && Writes(ops) && Incomparable(ops)
    requires forall op, p :: op in ops && p <= Split(op.key) && p != Split(op.key) ==> View(m, p).None?
    ensures forall p :: SameAt(m, ops, p)
  {
    forall p ensures StillCovered(m, ops, p) {
      if SetBelow(ops, p) { var op :| op in ops && SetsBelow(op, p); }
    }
    CommitExact(m, ops);
  }

  /** A transaction reads its own writes as if they had been applied: below a staged key, or one
      that lies on no staged path, the leaves are those of the staged value or of the store. */
  lemma ReadsOwnWrites(m: Tree, ops: seq<Op>, k: Bytes, q: Path)
    requires Consistent(m) && Writes(ops) && Incomparable(ops)
    requires forall op :: op in ops && op.key != k ==> !Related(op.key, k)
    ensures View(ApplyAll(m, ops), Split(k) + q) ==
      if HasKey(ops, k) then
        (var op := LastOp(ops, k); if op.Set? then LeafAt(op.value, q) else None)
      else View(m, Split(k) + q)
  {
    var p := Split(k) + q;
    ApplyAllView(m, ops);
    if HasKey(ops, k) {
      LastDecides(ops, k, p, View(m, p), None);
      assert p[|Split(k)|..] == q;
    } else {
      forall op | op in ops ensures !(Split(op.key) <= p) && !SetsBelow(op, p) {
        assert Related(k, op.key) <==> Related(op.key, k);
        UnrelatedKeys(k, op.key, p);
      }
      SetsDecide(ops, p, View(m, p));
    }
  }

  // --------------------------------------------------------------------------------------
  // Staging
  // --------------------------------------------------------------------------------------

  datatype Staged = Value(value: Json) | Deleted

  function StagedOp(k: Bytes, s: Staged): Op {
    match s case Value(v) => Set(k, v) case Deleted => Del(k)
  }

  lemma StageLog(log: seq<Op>, op: Op)
    requires Writes(log) && OpOk(op) && !op.Clear?
    ensures Writes(log + [op])
    ensures FirstOrder(log + [op]) == if op.key in FirstOrder(log) then FirstOrder(log) else FirstOrder(log) + [op.key]
    ensures LastOp(log + [op], op.key) == op
    ensures forall k :: k in FirstOrder(log) && k != op.key ==> LastOp(log + [op], k) == LastOp(log, k)
  {
    var ops := log + [op];
    assert ops[..|ops| - 1] == log && ops[|ops| - 1] == op;
    assert op in ops;
    forall k | k in FirstOrder(log) && k != op.key ensures LastOp(ops, k) == LastOp(log, k) {
      var o :| o in log && o.key == k;
      assert o in ops;
    }
  }

  /** The map holds the last write of each key written, and the order is that of the first writes. */
  ghost predicate Staging(log: seq<Op>, order: seq<Bytes>, staged: map<Bytes, Staged>) {
    && Writes(log) && order == FirstOrder(log)
    && (forall k :: k in staged <==> k in order)
    && forall k :: k in staged ==> StagedOp(k, staged[k]) == LastOp(log, k)
  }

  lemma StageKeeps(log: seq<Op>, order: seq<Bytes>, staged: map<Bytes, Staged>, key: Bytes, s: Staged)
    requires Staging(log, order, staged) && OpOk(StagedOp(key, s))
    ensures Staging(log + [StagedOp(key, s)], if key in staged then order else order + [key], staged[key := s])
  {
    var op, staged' := StagedOp(key, s), staged[key := s];
    StageLog(log, op);
    assert op.key == key && (key in FirstOrder(log) <==> key in staged);
    forall k | k in staged' ensures StagedOp(k, staged'[k]) == LastOp(log + [op], k) {
      if k != key { assert k in FirstOrder(log); }
    }
  }

  /** An insertion-ordered map from key to staged write; `log` is what the function has done. */
  class Transaction {
    var staged: map<Bytes, Staged>
    var order: seq<Bytes>
    ghost var log: seq<Op>

    ghost predicate Valid()
      reads this
    {
      Staging(log, order, staged)
    }

    constructor ()
      ensures Valid() && log == []
    {
      staged, order, log := map[], [], [];
    }

    method Stage(key: Bytes, s: Staged)
      requires Valid() && OpOk(StagedOp(key, s))
      modifies this
      ensures Valid() && log == old(log) + [StagedOp(key, s)]
    {
      StageKeeps(log, order, staged, key, s);
      log := log + [StagedOp(key, s)];
      if key !in staged {
        order := order + [key];
      }
      staged := staged[key := s];
    }

    method Set(key: Bytes, value: Json)
      requires Valid() && KeyOk(key) && WellFormed(value)
      modifies this
      ensures Valid() && log == old(log) + [Op.Set(key, value)]
    {
      Stage(key, Value(value));
    }

    /** The staged value of a key, or what the store holds. */
    method Get(key: Bytes, stored: Option<Json>) returns (r: Option<Json>)
      requires Valid()
      ensures r == if HasKey(log, key) then
          (var op := LastOp(log, key); if op.Set? then Some(op.value) else None)
        else stored
    {
      if key in staged {
        assert StagedOp(key, staged[key]) == LastOp(log, key);
        match staged[key] {
          case Value(v) => return Some(v);
          case Deleted => return None;
        }
      }
      return stored;
    }

    method Delete(key: Bytes, stored: Option<Json>) returns (existed: bool)
      requires Valid() && KeyOk(key)
      modifies this
      ensures Valid() && log == old(log) + [Op.Del(key)]
      ensures existed == if HasKey(old(log), key) then LastOp(old(log), key).Set? else stored.Some?
    {
      var r := Get(key, stored);
      existed := r.Some?;
      Stage(key, Deleted);
    }

    /** The batch that is committed. */
    method Commit() returns (ops: seq<Op>)
      requires Valid()
      ensures ops == Committed(log)
    {
      ops := [];
      for i := 0 to |order|
        invariant |ops| == i && forall j :: 0 <= j < i ==> order[j] in order && ops[j] == LastOp(log, order[j])
      {
        assert order[i] in order;
        var s := staged[order[i]];
        ops := ops + [if s.Deleted? then Op.Del(order[i]) else Op.Set(order[i], s.value)];
      }
      assert ops == Committed(log);
    }
  }
}
