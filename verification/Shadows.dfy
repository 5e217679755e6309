/** Stores in which a key may lie below another, as they arise while segments are being loaded: what
    such a store shows, and what replaying a log over it does. */
module Shadows {
  import opened Bytes
  import opened Paths
  import opened Json
  import opened StoreSpec
  import opened StoreView
  import opened Effects

  // --------------------------------------------------------------------------------------
  // The topmost entries
  // --------------------------------------------------------------------------------------

  ghost predicate Nested(u: Tree, s: Bytes) {
    s in u && exists a :: a in u && Under(a, s)
  }

  /** The entries that lie below no other: the others are shadowed. */
  ghost function Crown(u: Tree): Tree {
    map k | k in u && !Nested(u, k) :: u[k]
  }

  ghost predicate Sound(u: Tree) {
    forall k :: k in u ==> KeyOk(k) && WellFormed(u[k])
  }

  lemma CrownConsistent(u: Tree)
    requires Sound(u)
    ensures Consistent(Crown(u))
  {
  }

  lemma CrownOfPrefixFree(u: Tree)
    requires PrefixFree(u.Keys)
    ensures Crown(u) == u
  {
    assert forall k :: k in u ==> !Nested(u, k);
  }

  /** Every entry is topmost or lies below a topmost one. */
  lemma {:induction false} CrownAbove(u: Tree, k: Bytes) returns (t: Bytes)
    requires k in u
    ensures t in Crown(u) && (t == k || Under(t, k))
    decreases |k|
  {
    t := k;
    if Nested(u, k) {
      var a :| a in u && Under(a, k);
      t := CrownAbove(u, a);
      if t != a { UnderTransitive(t, a, k); }
    }
  }

  /** No stored ancestor is shorter than the one found. */
  lemma {:induction false} FirstAncestor(keys: set<Bytes>, k: Bytes, i: nat)
    requires i <= |k| && AncestorFrom(keys, k, i).Some?
    ensures forall a :: a in keys && Under(a, k) && i <= |a| ==> AncestorFrom(keys, k, i).value <= |a|
    decreases |k| - i
  {
    if !(k[i] == DOT && k[..i] in keys) {
      FirstAncestor(keys, k, i + 1);
    }
  }

  /** The shortest stored ancestor of a key is topmost. */
  lemma ShortestIsTop(u: Tree, k: Bytes, i: nat)
    requires AncestorFrom(u.Keys, k, 0) == Some(i)
    ensures k[..i] in Crown(u) && Under(k[..i], k)
    ensures AncestorFrom(Crown(u).Keys, k, 0) == Some(i)
    ensures forall a :: a in u && Under(a, k) ==> a == k[..i] || Under(k[..i], a)
  {
    var t := k[..i];
    FirstAncestor(u.Keys, k, 0);
    forall a | a in u && Under(a, k) ensures a == t || Under(t, a) {
      AncestorsComparable(a, t, k);
    }
    if Nested(u, t) {
      var a :| a in u && Under(a, t);
      UnderTransitive(a, t, k);
    }
    OnlyAncestor(Crown(u), t, k);
    AncestorIs(Crown(u), t, k) by { assert k !in Crown(u) by { assert Nested(u, k) || k !in u; } }
  }

  // --------------------------------------------------------------------------------------
  // One operation
  // --------------------------------------------------------------------------------------

  /** A delete that removes shadowed entries only, while the entry above them keeps a leaf at `p`. */
  ghost predicate Missed(u: Tree, op: Op, p: Path) {
    && op.Del? && Split(op.key) <= p
    && Occupied(u, op.key) && AncestorFrom(u.Keys, op.key, 0).Some?
    && View(Crown(u), p).Some?
  }

  lemma PruneNested(u: Tree, k: Bytes, x: Bytes)
    requires x in Prune(u, k)
    ensures Nested(Prune(u, k), x) <==> Nested(u, x)
  {
    if a :| a in u && Under(a, x) {
      if Under(k, a) { UnderTransitive(k, a, x); }
      assert a in Prune(u, k);
    }
  }

  lemma PruneCrown(u: Tree, k: Bytes)
    ensures Crown(Prune(u, k)) == Prune(Crown(u), k)
  {
    forall x | x in Prune(u, k) { PruneNested(u, k, x); }
  }

  lemma InsertCrown(u: Tree, k: Bytes, v: Json)
    requires forall x :: x in u && x != k ==> !Under(x, k) && !Under(k, x)
    ensures Crown(u[k := v]) == Crown(u)[k := v]
  {
    forall x | x in u[k := v] && x != k ensures Nested(u[k := v], x) <==> Nested(u, x) {
      if a :| a in u && Under(a, x) { assert a in u[k := v]; }
    }
    assert !Nested(u[k := v], k);
  }

  lemma SetTopCrown(u: Tree, k: Bytes, v: Json)
    requires AncestorFrom(u.Keys, k, 0).None?
    ensures Crown(SetFn(u, k, v)) == SetFn(Crown(u), k, v)
  {
    NoneAbove(Crown(u), k);
    PruneCrown(u, k);
    InsertCrown(Prune(u, k), k, v);
  }

  lemma SetInsideCrown(u: Tree, k: Bytes, v: Json, i: nat)
    requires AncestorFrom(u.Keys, k, 0) == Some(i) && u[k[..i]].Obj?
    ensures Crown(SetFn(u, k, v)) == SetFn(Crown(u), k, v)
  {
    var t := k[..i];
    ShortestIsTop(u, k, i);
    PruneCrown(u, t);
    InsertCrown(Prune(u, t), t, Obj(InsertAt(u[t].fields, Split(k[i + 1..]), v)));
    assert Crown(u)[t] == u[t];
  }

  lemma OccupiedCrown(u: Tree, k: Bytes)
    requires AncestorFrom(u.Keys, k, 0).None?
    ensures Occupied(Crown(u), k) <==> Occupied(u, k)
  {
    if x :| x in u && (x == k || Under(k, x)) {
      var t := CrownAbove(u, x);
      if t != x && x != k { AncestorsComparable(t, k, x); }
    }
  }

  lemma DeleteTopCrown(u: Tree, k: Bytes)
    requires AncestorFrom(u.Keys, k, 0).None?
    ensures Crown(DeleteFn(u, k).0) == DeleteFn(Crown(u), k).0
  {
    NoneAbove(Crown(u), k);
    PruneCrown(u, k);
    OccupiedCrown(u, k);
    if !Occupied(u, k) { assert Prune(u, k) == u; }
  }

  lemma DeleteInsideCrown(u: Tree, k: Bytes, i: nat)
    requires AncestorFrom(u.Keys, k, 0) == Some(i) && !Occupied(u, k)
    ensures Crown(DeleteFn(u, k).0) == DeleteFn(Crown(u), k).0
  {
    ShortestIsTop(u, k, i);
    var t := k[..i];
    assert Crown(u)[t] == u[t] && !Occupied(Crown(u), k);
    var edit := RemoveInside(u, t, k);
    if edit.Some? {
      var u' := u[t := edit.value[t]];
      forall x | x in u ensures Nested(u', x) <==> Nested(u, x) {
      }
      assert Crown(u') == Crown(u)[t := edit.value[t]];
    }
  }

  /** A delete of shadowed entries does not touch the crown. */
  lemma DeleteShadowedCrown(u: Tree, k: Bytes, i: nat)
    requires AncestorFrom(u.Keys, k, 0) == Some(i) && Occupied(u, k)
    ensures Crown(DeleteFn(u, k).0) == Crown(u)
  {
    var t := k[..i];
    ShortestIsTop(u, k, i);
    PruneCrown(u, k);
    forall x | x in u && (x == k || Under(k, x)) ensures Nested(u, x) {
      if x != k { UnderTransitive(t, k, x); }
    }
    assert Prune(Crown(u), k) == Crown(u);
  }

  // --------------------------------------------------------------------------------------
  // A set that turns a scalar into a branch uncovers what the scalar shadowed
  // --------------------------------------------------------------------------------------

  /** What a topmost owner shows is shown, and with no owner nothing is. */
  lemma CrownView(u: Tree, k: Bytes, p: Path)
    requires k in Crown(u) && Owns(k, p)
    ensures View(Crown(u), p) == LeafAt(u[k], p[|Split(k)|..])
  {
    ViewAt(Crown(u), k, p);
  }

  /** A set that removes a stored scalar above its key, so that an entry the scalar shadowed shows a
      leaf at `p`. */
  ghost predicate Uncovered(u: Tree, op: Op, p: Path) {
    && op.Set? && AncestorFrom(u.Keys, op.key, 0).Some?
    && var t := op.key[..AncestorFrom(u.Keys, op.key, 0).value];
    && !u[t].Obj? && Split(t) <= p && !(Split(op.key) <= p)
    && View(Crown(Apply(u, op)), p).Some?
  }

  /** A set key that ends up below an entry that was uncovered. */
  ghost predicate Buried(u: Tree, op: Op) {
    op.Set? && Nested(Apply(u, op), op.key)
  }

  /** Away from the scalar and from the key, owners stay what they were. */
  lemma SameOwners(u: Tree, u': Tree, k: Bytes, t: Bytes, p: Path)
    requires t in Crown(u) && Under(t, k) && !Owns(t, p) && !Owns(k, p)
    requires k in u' && u' == Prune(u - {t}, k)[k := u'[k]]
    ensures View(Crown(u'), p) == View(Crown(u), p)
  {
    forall x | Owns(x, p) ensures x in Crown(u') <==> x in Crown(u) {
      if x in u {
        UnderIsProperPrefix(k, x);
        forall a | Under(a, x) ensures a in u <==> a in u' {
          UnderIsProperPrefix(a, x);
          if Under(k, a) { UnderTransitive(k, a, x); }
          assert Owns(a, p);
        }
      }
    }
    ViewSame(Crown(u), Crown(u'), p);
  }

  lemma BelowScalar(u: Tree, t: Bytes, k: Bytes, p: Path)
    requires t in Crown(u) && !u[t].Obj? && Owns(t, p) && Under(t, k) && !(p <= Split(k))
    ensures View(Crown(u), p).None?
  {
    UnderIsProperPrefix(t, k);
    CrownView(u, t, p);
    assert p[|Split(t)|..] == [] ==> p == Split(t);
  }

  lemma OverScalarActs(u: Tree, k: Bytes, v: Json, i: nat, p: Path)
    requires AncestorFrom(u.Keys, k, 0) == Some(i) && !u[k[..i]].Obj?
    requires !Uncovered(u, Op.Set(k, v), p) && (Split(k) <= p ==> !Buried(u, Op.Set(k, v)))
    ensures View(Crown(SetFn(u, k, v)), p) == Write(Split(k), v, p, View(Crown(u), p))
  {
    var t, u' := k[..i], SetFn(u, k, v);
    ShortestIsTop(u, k, i);
    assert u' == Prune(u - {t}, k)[k := v] && Apply(u, Op.Set(k, v)) == u';
    if Split(k) <= p {
      CrownView(u', k, p);
    } else if Owns(t, p) {
      if !(p <= Split(k)) { BelowScalar(u, t, k, p); }
    } else {
      SameOwners(u, u', k, t, p);
      if p <= Split(k) {
        UnderIsProperPrefix(t, k);
        ComparablePrefixes(p, Split(t), Split(k));
        AboveEntry(Crown(u), t, p);
      }
    }
  }

  // --------------------------------------------------------------------------------------
  // Replaying a log
  // --------------------------------------------------------------------------------------

  /** Whatever is shadowed, the operations to come decide. */
  ghost predicate ShadowsDecided(u: Tree, ops: seq<Op>) {
    forall s :: Nested(u, s) ==> DecidedBelow(ops, s)
  }

  lemma DecidedCons(op: Op, rest: seq<Op>, s: Bytes)
    ensures DecidedBelow([op] + rest, s) <==> DecidesBelow(op, s) || DecidedBelow(rest, s)
  {
    var ops := [op] + rest;
    if DecidedBelow(ops, s) {
      var i :| 0 <= i < |ops| && DecidesBelow(ops[i], s);
      if i > 0 { assert rest[i - 1] == ops[i]; }
    }
    if DecidesBelow(op, s) { assert DecidesBelow(ops[0], s); }
    if i :| 0 <= i < |rest| && DecidesBelow(rest[i], s) { assert ops[i + 1] == rest[i]; }
  }

  lemma KillsCons(op: Op, rest: seq<Op>, p: Path)
    ensures KillsAny([op] + rest, p) <==> Kills(op, p) || KillsAny(rest, p)
  {
    var ops := [op] + rest;
    if i :| 0 <= i < |ops| && Kills(ops[i], p) { if i > 0 { assert rest[i - 1] == ops[i]; } }
    if Kills(op, p) { assert Kills(ops[0], p); }
    if i :| 0 <= i < |rest| && Kills(rest[i], p) { assert ops[i + 1] == rest[i]; }
  }

  lemma SoundKept(u: Tree, op: Op)
    requires Sound(u) && OpOk(op)
    ensures Sound(Apply(u, op))
  {
    match op
    case Set(k, v) =>
      var n := AncestorFrom(u.Keys, k, 0);
      if n.Some? && u[k[..n.value]].Obj? {
        InsertAtWellFormed(u[k[..n.value]].fields, Split(k[n.value + 1..]), v);
      }
    case Del(k) =>
      var n := AncestorFrom(u.Keys, k, 0);
      if n.Some? && u[k[..n.value]].Obj? {
        RemoveAtWellFormed(u[k[..n.value]].fields, Split(k[n.value + 1..]));
      }
    case Clear =>
  }

  /** An operation that decides everything below `s` leaves no entry there but its own key. */
  lemma DecidedGone(u: Tree, op: Op, s: Bytes)
    requires s in Apply(u, op) && DecidesBelow(op, s)
    ensures op.Set? && s == op.key
  {
    RelatedIffComparable(op.key, s);
    if op.Set? && s != op.key {
      UnderIsProperPrefix(op.key, s);
      var n := AncestorFrom(u.Keys, op.key, 0);
      if n.Some? { UnderTransitive(op.key[..n.value], op.key, s); }
    }
    if op.Del? { UnderIsProperPrefix(op.key, s); }
  }

  /** A set key can only end up below entries that a scalar shadowed before. */
  lemma NewlyNested(u: Tree, k: Bytes, v: Json, a: Bytes)
    requires a in SetFn(u, k, v) && Under(a, k) && k in SetFn(u, k, v)
    ensures Nested(u, a) && !DecidesBelow(Op.Set(k, v), a)
  {
    var n := AncestorFrom(u.Keys, k, 0);
    ShortestIsTop(u, k, n.value);
    UnderIsProperPrefix(a, k);
    if u[k[..n.value]].Obj? { }
  }

  lemma DecidedUnder(ops: seq<Op>, a: Bytes, s: Bytes)
    requires DecidedBelow(ops, a) && Split(a) <= Split(s)
    ensures DecidedBelow(ops, s)
  {
    var i :| 0 <= i < |ops| && DecidesBelow(ops[i], a);
    assert DecidesBelow(ops[i], s);
  }

  lemma KeysKept(u: Tree, op: Op, x: Bytes)
    requires x in Apply(u, op) && !(op.Set? && x == op.key)
    ensures x in u
  {
  }

  lemma ShadowsKept(u: Tree, op: Op, rest: seq<Op>, s: Bytes)
    requires ShadowsDecided(u, [op] + rest) && Nested(Apply(u, op), s)
    ensures DecidedBelow(rest, s)
  {
    var u' := Apply(u, op);
    var a :| a in u' && Under(a, s);
    if op.Set? && s == op.key {
      NewlyNested(u, op.key, op.value, a);
      DecidedCons(op, rest, a);
      UnderIsProperPrefix(a, s);
      DecidedUnder(rest, a, s);
    } else {
      if DecidesBelow(op, s) { DecidedGone(u, op, s); }
      if op.Set? && a == op.key {
        UnderIsProperPrefix(a, s);
        DecidedGone(u, op, s);
      }
      KeysKept(u, op, a);
      KeysKept(u, op, s);
      assert Nested(u, s);
      DecidedCons(op, rest, s);
    }
  }

  lemma DeleteActs(u: Tree, k: Bytes, p: Path)
    requires Sound(u) && !Missed(u, Del(k), p)
    ensures View(Crown(DeleteFn(u, k).0), p) == Kill(Split(k), p, View(Crown(u), p))
  {
    CrownConsistent(u);
    DeleteView(Crown(u), k, p);
    match AncestorFrom(u.Keys, k, 0)
    case None => DeleteTopCrown(u, k);
    case Some(i) =>
      if Occupied(u, k) { DeleteShadowedCrown(u, k, i); } else { DeleteInsideCrown(u, k, i); }
  }

  lemma SetActs(u: Tree, k: Bytes, v: Json, p: Path)
    requires Sound(u) && KeyOk(k) && WellFormed(v)
    requires !Uncovered(u, Op.Set(k, v), p) && (Split(k) <= p ==> !Buried(u, Op.Set(k, v)))
    ensures View(Crown(SetFn(u, k, v)), p) == Write(Split(k), v, p, View(Crown(u), p))
  {
    CrownConsistent(u);
    SetView(Crown(u), k, v, p);
    match AncestorFrom(u.Keys, k, 0)
    case None => SetTopCrown(u, k, v);
    case Some(i) =>
      if u[k[..i]].Obj? { SetInsideCrown(u, k, v, i); } else { OverScalarActs(u, k, v, i, p); }
  }

  /** The two ways in which one operation can leave a leaf at `p` that its rule would not. */
  ghost predicate Slips(u: Tree, op: Op, p: Path) {
    Missed(u, op, p) || Uncovered(u, op, p)
  }

  /** Everywhere else one operation acts on the crown by its rule. */
  lemma StepActs(u: Tree, op: Op, p: Path)
    requires Sound(u) && OpOk(op) && !Slips(u, op, p)
    requires op.Set? && Split(op.key) <= p ==> !Buried(u, op)
    ensures View(Crown(Apply(u, op)), p) == Act(op, p, View(Crown(u), p))
  {
    match op
    case Set(k, v) => SetActs(u, k, v, p);
    case Del(k) => DeleteActs(u, k, p);
    case Clear =>
  }

  lemma LeafKept(u: Tree, op: Op, p: Path)
    requires Sound(u) && OpOk(op) && !Kills(op, p) && View(Crown(u), p).Some?
    ensures View(Crown(Apply(u, op)), p) == View(Crown(u), p)
  {
    if Uncovered(u, op, p) {
      var i := AncestorFrom(u.Keys, op.key, 0).value;
      ShortestIsTop(u, op.key, i);
      BelowScalar(u, op.key[..i], op.key, p);
    }
    StepActs(u, op, p);
  }

  /** A leaf that nothing decides any more stays. */
  lemma {:induction false} LeafStays(u: Tree, ops: seq<Op>, p: Path)
    requires Sound(u) && (forall op :: op in ops ==> OpOk(op))
    requires !KillsAny(ops, p) && View(Crown(u), p).Some?
    ensures View(Crown(ApplyAll(u, ops)), p) == View(Crown(u), p)
    decreases |ops|
  {
    if ops != [] {
      var op, rest := ops[0], ops[1..];
      assert ops == [op] + rest;
      KillsCons(op, rest, p);
      LeafKept(u, op, p);
      SoundKept(u, op);
      LeafStays(Apply(u, op), rest, p);
    }
  }

  lemma {:induction false} ReplaySound(u: Tree, ops: seq<Op>)
    requires Sound(u) && (forall op :: op in ops ==> OpOk(op))
    ensures Sound(ApplyAll(u, ops))
    decreases |ops|
  {
    if ops != [] {
      SoundKept(u, ops[0]);
      ReplaySound(Apply(u, ops[0]), ops[1..]);
    }
  }

  /** Wherever the replay slips, a later operation decides the leaf. */
  ghost predicate SlipsReach(u: Tree, ops: seq<Op>)
    decreases |ops|
  {
    ops != [] ==>
      && (forall p :: Slips(u, ops[0], p) ==> KillsAny(ops[1..], p))
      && SlipsReach(Apply(u, ops[0]), ops[1..])
  }

  /** A key that is set below an uncovered entry is decided again later. */
  ghost predicate BuriedDecided(u: Tree, ops: seq<Op>)
    decreases |ops|
  {
    ops != [] ==>
      && (Buried(u, ops[0]) ==> DecidedBelow(ops[1..], ops[0].key))
      && BuriedDecided(Apply(u, ops[0]), ops[1..])
  }

  /** `u` shows what `m` shows wherever the log does not decide. */
  ghost predicate AgreeUndecided(u: Tree, m: Tree, ops: seq<Op>) {
    forall p :: !KillsAny(ops, p) ==> View(Crown(u), p) == View(m, p)
  }

  lemma StepAgrees(u: Tree, m: Tree, op: Op, rest: seq<Op>)
    requires Sound(u) && Consistent(m) && OpOk(op) && AgreeUndecided(u, m, [op] + rest)
    requires Buried(u, op) ==> DecidedBelow(rest, op.key)
    requires forall p :: Slips(u, op, p) ==> KillsAny(rest, p)
    ensures AgreeUndecided(Apply(u, op), Apply(m, op), rest)
  {
    ApplyView(m, op);
    forall p | !KillsAny(rest, p) ensures View(Crown(Apply(u, op)), p) == View(Apply(m, op), p) {
      if Buried(u, op) && Split(op.key) <= p { DecidedKills(rest, op.key, p); }
      StepActs(u, op, p);
      KillsCons(op, rest, p);
    }
  }

  lemma UncoveredWasNone(u: Tree, m: Tree, op: Op, rest: seq<Op>, p: Path)
    requires Uncovered(u, op, p) && AgreeUndecided(u, m, [op] + rest) && !KillsAny(rest, p)
    ensures Act(op, p, View(m, p)).None?
  {
    if !(p <= Split(op.key)) {
      var i := AncestorFrom(u.Keys, op.key, 0).value;
      ShortestIsTop(u, op.key, i);
      BelowScalar(u, op.key[..i], op.key, p);
      KillsCons(op, rest, p);
    }
  }

  /** A leaf left by a slip that nothing decides later is shown in the end, and should not be. */
  lemma SlipStays(u: Tree, m: Tree, op: Op, rest: seq<Op>, p: Path)
    requires Sound(u) && Consistent(m) && OpOk(op) && (forall o :: o in rest ==> OpOk(o))
    requires AgreeUndecided(u, m, [op] + rest) && Slips(u, op, p) && !KillsAny(rest, p)
    ensures View(Crown(Apply(u, op)), p).Some?
    ensures View(Crown(ApplyAll(Apply(u, op), rest)), p) == View(Crown(Apply(u, op)), p)
    ensures View(ApplyAll(Apply(m, op), rest), p).None?
  {
    var i := AncestorFrom(u.Keys, op.key, 0).value;
    if op.Del? {
      DeleteShadowedCrown(u, op.key, i);
    } else {
      UncoveredWasNone(u, m, op, rest, p);
    }
    SoundKept(u, op);
    LeafStays(Apply(u, op), rest, p);
    ApplyView(m, op);
    ApplyAllView(Apply(m, op), rest);
    LogDecidesOrKeeps(rest, p, View(Apply(m, op), p), None);
  }

  /** Replaying a log over a store with shadowed entries ends in a prefix-free store that shows what a
      clean replay shows exactly when no key is left below another, and whatever slips is decided later.
      Assumed is only that a key set below an uncovered entry is decided again. */
  lemma {:induction false} ReplayExact(u: Tree, m: Tree, ops: seq<Op>)
    requires Sound(u) && Consistent(m) && (forall op :: op in ops ==> OpOk(op))
    requires BuriedDecided(u, ops) && AgreeUndecided(u, m, ops)
    ensures Consistent(ApplyAll(u, ops)) && SameView(ApplyAll(u, ops), ApplyAll(m, ops)) <==>
      PrefixFree(ApplyAll(u, ops).Keys) && SlipsReach(u, ops)
    decreases |ops|
  {
    ReplaySound(u, ops);
    if ops == [] {
      if PrefixFree(u.Keys) { CrownOfPrefixFree(u); }
    } else {
      var op, rest := ops[0], ops[1..];
      assert ops == [op] + rest;
      SoundKept(u, op);
      ApplyView(m, op);
      if forall p :: Slips(u, op, p) ==> KillsAny(rest, p) {
        StepAgrees(u, m, op, rest);
        ReplayExact(Apply(u, op), Apply(m, op), rest);
      } else {
        var p :| Slips(u, op, p) && !KillsAny(rest, p);
        SlipStays(u, m, op, rest, p);
        if PrefixFree(ApplyAll(u, ops).Keys) { CrownOfPrefixFree(ApplyAll(u, ops)); }
      }
    }
  }

  // --------------------------------------------------------------------------------------
  // When the log decides whatever is shadowed
  // --------------------------------------------------------------------------------------

  /** Whenever the replay misses a delete, a later operation decides the leaves it missed. */
  ghost predicate DeletesReach(u: Tree, ops: seq<Op>)
    decreases |ops|
  {
    ops != [] ==>
      && (forall p :: Missed(u, ops[0], p) ==> KillsAny(ops[1..], p))
      && DeletesReach(Apply(u, ops[0]), ops[1..])
  }

  lemma UncoveredDecided(u: Tree, op: Op, rest: seq<Op>, p: Path)
    requires ShadowsDecided(u, [op] + rest) && Uncovered(u, op, p)
    ensures KillsAny(rest, p)
  {
    var i := AncestorFrom(u.Keys, op.key, 0).value;
    var t := op.key[..i];
    ShortestIsTop(u, op.key, i);
    var x :| x in Crown(Apply(u, op)) && Owns(x, p);
    KeysKept(u, op, x);
    ComparablePrefixes(Split(x), Split(t), p);
    RelatedIffComparable(x, t);
    assert Nested(u, x);
    DecidedCons(op, rest, x);
    DecidedKills(rest, x, p);
  }

  lemma {:induction false} DecidedSettles(u: Tree, ops: seq<Op>)
    requires ShadowsDecided(u, ops)
    ensures BuriedDecided(u, ops) && PrefixFree(ApplyAll(u, ops).Keys)
    ensures SlipsReach(u, ops) <==> DeletesReach(u, ops)
    decreases |ops|
  {
    if ops == [] {
      forall a, s | a in u && s in u ensures !Under(a, s) {
        if Under(a, s) { assert Nested(u, s); }
      }
    } else {
      var op, rest := ops[0], ops[1..];
      assert ops == [op] + rest;
      forall s | Nested(Apply(u, op), s) ensures DecidedBelow(rest, s) { ShadowsKept(u, op, rest, s); }
      forall p | Uncovered(u, op, p) ensures KillsAny(rest, p) { UncoveredDecided(u, op, rest, p); }
      DecidedSettles(Apply(u, op), rest);
    }
  }

  /** If the log decides whatever is shadowed, the replay always ends prefix-free, and only missed
      deletes can spoil it. */
  lemma ReplayDecided(u: Tree, m: Tree, ops: seq<Op>)
    requires Sound(u) && Consistent(m) && (forall op :: op in ops ==> OpOk(op))
    requires ShadowsDecided(u, ops) && AgreeUndecided(u, m, ops)
    ensures Consistent(ApplyAll(u, ops))
    ensures SameView(ApplyAll(u, ops), ApplyAll(m, ops)) <==> DeletesReach(u, ops)
  {
    DecidedSettles(u, ops);
    ReplayExact(u, m, ops);
    ReplaySound(u, ops);
  }

  // --------------------------------------------------------------------------------------
  // A guard on the log and the shadowed keys alone
  // --------------------------------------------------------------------------------------

  /** The first operation that decides everything below `s` is no delete, or a later operation
      decides everything that delete should have removed. */
  predicate MadeGood(ops: seq<Op>, s: Bytes) {
    ops != [] ==>
      if DecidesBelow(ops[0], s) then (ops[0].Del? ==> DecidedBelow(ops[1..], ops[0].key))
      else MadeGood(ops[1..], s)
  }

  ghost predicate ShadowsMadeGood(u: Tree, ops: seq<Op>) {
    forall s :: Nested(u, s) ==> MadeGood(ops, s)
  }

  lemma {:induction false} MadeGoodUnder(ops: seq<Op>, a: Bytes, s: Bytes)
    requires MadeGood(ops, a) && DecidedBelow(ops, a) && Split(a) <= Split(s)
    ensures MadeGood(ops, s)
    decreases |ops|
  {
    if ops != [] {
      var op, rest := ops[0], ops[1..];
      assert ops == [op] + rest;
      DecidedCons(op, rest, a);
      if !DecidesBelow(op, s) {
        MadeGoodUnder(rest, a, s);
      } else if !DecidesBelow(op, a) {
        ComparablePrefixes(Split(a), Split(op.key), Split(s));
        DecidedUnder(rest, a, op.key);
      }
    }
  }

  lemma MadeGoodKept(u: Tree, op: Op, rest: seq<Op>, s: Bytes)
    requires ShadowsDecided(u, [op] + rest) && ShadowsMadeGood(u, [op] + rest) && Nested(Apply(u, op), s)
    ensures MadeGood(rest, s)
  {
    var a :| a in Apply(u, op) && Under(a, s);
    assert ([op] + rest)[1..] == rest;
    if op.Set? && s == op.key {
      NewlyNested(u, op.key, op.value, a);
      DecidedCons(op, rest, a);
      UnderIsProperPrefix(a, s);
      MadeGoodUnder(rest, a, s);
    } else {
      if DecidesBelow(op, s) { DecidedGone(u, op, s); }
      if op.Set? && a == op.key { UnderIsProperPrefix(a, s); }
      KeysKept(u, op, a);
      KeysKept(u, op, s);
      assert Nested(u, s);
    }
  }

  lemma ShadowedByDelete(u: Tree, k: Bytes, rest: seq<Op>)
    requires ShadowsMadeGood(u, [Del(k)] + rest)
    requires Occupied(u, k) && AncestorFrom(u.Keys, k, 0).Some?
    ensures DecidedBelow(rest, k)
  {
    var t := k[..AncestorFrom(u.Keys, k, 0).value];
    var x :| x in u && (x == k || Under(k, x));
    if x != k { UnderTransitive(t, k, x); }
    UnderIsProperPrefix(k, x);
    assert Nested(u, x) && ([Del(k)] + rest)[1..] == rest;
    assert MadeGood([Del(k)] + rest, x);
  }

  /** Under that guard no missed delete shows in the end. */
  lemma {:induction false} MadeGoodReaches(u: Tree, ops: seq<Op>)
    requires ShadowsDecided(u, ops) && ShadowsMadeGood(u, ops)
    ensures DeletesReach(u, ops)
    decreases |ops|
  {
    if ops != [] {
      var op, rest := ops[0], ops[1..];
      assert ops == [op] + rest;
      forall p | Missed(u, op, p) ensures KillsAny(rest, p) {
        ShadowedByDelete(u, op.key, rest);
        DecidedKills(rest, op.key, p);
      }
      forall s | Nested(Apply(u, op), s) ensures DecidedBelow(rest, s) && MadeGood(rest, s) {
        ShadowsKept(u, op, rest, s);
        MadeGoodKept(u, op, rest, s);
      }
      MadeGoodReaches(Apply(u, op), rest);
    }
  }

  /** A prefix-free store misses no delete. */
  lemma PrefixFreeReaches(u: Tree, ops: seq<Op>)
    requires PrefixFree(u.Keys)
    ensures ShadowsDecided(u, ops) && DeletesReach(u, ops)
  {
    assert forall s :: !Nested(u, s);
    MadeGoodReaches(u, ops);
  }
}
