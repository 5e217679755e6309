/** Operations, their effect on one path, and why a log may be replayed over its own result. */
module Effects {
  import opened Bytes
  import opened Paths
  import opened Json
  import opened StoreSpec
  import opened StoreView

  datatype Op = Set(key: Bytes, value: Json) | Del(key: Bytes) | Clear

  ghost predicate OpOk(op: Op) {
    (op.Set? ==> KeyOk(op.key) && WellFormed(op.value)) && (op.Del? ==> KeyOk(op.key))
  }

  function Apply(m: Tree, op: Op): Tree {
    match op
    case Set(k, v) => SetFn(m, k, v)
    case Del(k) => DeleteFn(m, k).0
    case Clear => map[]
  }

  /** Replaying a log, oldest operation first. */
  function ApplyAll(m: Tree, ops: seq<Op>): Tree
    decreases |ops|
  {
    if ops == [] then m else ApplyAll(Apply(m, ops[0]), ops[1..])
  }

  /** The leaf at `p` after one operation, from the leaf before it. */
  function Act(op: Op, p: Path, was: Option<Json>): Option<Json> {
    match op
    case Set(k, v) => Write(Split(k), v, p, was)
    case Del(k) => Kill(Split(k), p, was)
    case Clear => None
  }

  function ActAll(ops: seq<Op>, p: Path, was: Option<Json>): Option<Json> {
    if ops == [] then was else ActAll(ops[1..], p, Act(ops[0], p, was))
  }

  /** Whether the operation decides the leaf at `p` on its own. */
  predicate Kills(op: Op, p: Path) {
    match op
    case Set(k, _) => Split(k) <= p || p <= Split(k)
    case Del(k) => Split(k) <= p
    case Clear => true
  }

  predicate KillsAny(ops: seq<Op>, p: Path) {
    exists i :: 0 <= i < |ops| && Kills(ops[i], p)
  }

  /** The operation decides everything at and below `k`. */
  predicate DecidesBelow(op: Op, k: Bytes) {
    op.Clear? || Split(op.key) <= Split(k)
  }

  predicate DecidedBelow(ops: seq<Op>, k: Bytes) {
    exists i :: 0 <= i < |ops| && DecidesBelow(ops[i], k)
  }

  lemma DecidedKills(ops: seq<Op>, k: Bytes, p: Path)
    requires DecidedBelow(ops, k) && Split(k) <= p
    ensures KillsAny(ops, p)
  {
    var i :| 0 <= i < |ops| && DecidesBelow(ops[i], k);
    assert Kills(ops[i], p);
  }

  lemma ApplyView(m: Tree, op: Op)
    requires Consistent(m) && OpOk(op)
    ensures Consistent(Apply(m, op))
    ensures forall p :: View(Apply(m, op), p) == Act(op, p, View(m, p))
  {
    match op
    case Set(k, v) =>
      SetConsistent(m, k, v);
      forall p { SetView(m, k, v, p); }
    case Del(k) =>
      DeleteConsistent(m, k);
      forall p { DeleteView(m, k, p); }
    case Clear =>
  }

  /** The store's whole history is seen path by path. */
  lemma {:induction false} ApplyAllView(m: Tree, ops: seq<Op>)
    requires Consistent(m) && (forall op :: op in ops ==> OpOk(op))
    ensures Consistent(ApplyAll(m, ops))
    ensures forall p :: View(ApplyAll(m, ops), p) == ActAll(ops, p, View(m, p))
    decreases |ops|
  {
    if ops != [] {
      ApplyView(m, ops[0]);
      ApplyAllView(Apply(m, ops[0]), ops[1..]);
    }
  }

  lemma {:induction false} ActAllConcat(a: seq<Op>, b: seq<Op>, p: Path, was: Option<Json>)
    ensures ActAll(a + b, p, was) == ActAll(b, p, ActAll(a, p, was))
    decreases |a|
  {
    if a == [] {
      assert a + b == b;
    } else {
      assert (a + b)[1..] == a[1..] + b;
      ActAllConcat(a[1..], b, p, Act(a[0], p, was));
    }
  }

  /** A log either ignores the leaf it finds at a path, or keeps it. */
  lemma {:induction false} LogDecidesOrKeeps(ops: seq<Op>, p: Path, x: Option<Json>, y: Option<Json>)
    ensures KillsAny(ops, p) ==> ActAll(ops, p, x) == ActAll(ops, p, y)
    ensures !KillsAny(ops, p) ==> ActAll(ops, p, x) == x
    decreases |ops|
  {
    if ops != [] {
      LogDecidesOrKeeps(ops[1..], p, Act(ops[0], p, x), Act(ops[0], p, y));
      if KillsAny(ops, p) {
        var i :| 0 <= i < |ops| && Kills(ops[i], p);
        if i > 0 { assert Kills(ops[1..][i - 1], p); }
      } else {
        assert !Kills(ops[0], p);
        forall i | 0 <= i < |ops[1..]| ensures !Kills(ops[1..][i], p) {
          assert ops[1..][i] == ops[i + 1];
        }
      }
    }
  }

  /** Replaying a log over its own result changes nothing. */
  lemma ReplayIdempotent(ops: seq<Op>, p: Path, was: Option<Json>)
    ensures ActAll(ops, p, ActAll(ops, p, was)) == ActAll(ops, p, was)
  {
    LogDecidesOrKeeps(ops, p, ActAll(ops, p, was), was);
  }

  /** For stores: if `m` is `base` with the log applied, replaying the log over `m` shows the
      same leaves as `m`. */
  lemma ReplayOverSnapshot(base: Tree, m: Tree, ops: seq<Op>)
    requires Consistent(base) && Consistent(m) && (forall op :: op in ops ==> OpOk(op))
    requires forall p :: View(m, p) == ActAll(ops, p, View(base, p))
    ensures Consistent(ApplyAll(m, ops))
    ensures forall p :: View(ApplyAll(m, ops), p) == View(m, p)
  {
    ApplyAllView(m, ops);
    forall p ensures View(ApplyAll(m, ops), p) == View(m, p) {
      ReplayIdempotent(ops, p, View(base, p));
    }
  }

  lemma {:induction false} ApplyAllConcat(m: Tree, a: seq<Op>, b: seq<Op>)
    ensures ApplyAll(m, a + b) == ApplyAll(ApplyAll(m, a), b)
    decreases |a|
  {
    if a == [] {
      assert a + b == b;
    } else {
      assert (a + b)[1..] == a[1..] + b;
      ApplyAllConcat(Apply(m, a[0]), a[1..], b);
    }
  }

  /** The keys that a list of operations sets or deletes. */
  function OpKeys(ops: seq<Op>): set<Bytes> {
    set i | 0 <= i < |ops| && !ops[i].Clear? :: ops[i].key
  }
}
