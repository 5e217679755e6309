/** Concrete disks on which recovery goes wrong, one for each condition of the recovery theorems. */
module RecoveryWitnesses {
  import opened Bytes
  import opened Paths
  import opened Json
  import opened StoreSpec
  import opened StoreView
  import opened Effects
  import opened Shadows
  import opened Recovery

  const X: Bytes := [0x78]
  const STRAY: ManifestEntry := ManifestEntry(Delta(1), 7)

  /** `x` was set, a delta segment written, `x` deleted; now a full merge is under way. */
  const BEFORE_RESET: Disk :=
    Disk(map[], [[Op.Set(X, Null)], [Del(X)]], map[Delta(1) := SegmentFile(map[X := Null], 7)], 0, [STRAY])

  lemma FlattenTwo(a: Op, b: Op)
    ensures Flatten([[a], [b]]) == [a, b]
  {
    assert [[a], [b]][1..] == [[b]] && [[b]][1..] == [];
    assert Flatten([[b]]) == [b] + Flatten([]);
  }

  lemma StrayHolds()
    ensures Holds(BEFORE_RESET, map[])
  {
    var a, b := Op.Set(X, Null), Del(X);
    FlattenTwo(a, b);
    var ops := [a, b];
    assert DecidesBelow(ops[1], X);
    forall p ensures ActAll(ops, p, None).None? {
      assert ops[1..] == [b] && [b][1..] == [];
      assert ActAll(ops, p, None) == ActAll([b], p, Act(a, p, None)) == Act(b, p, Act(a, p, None));
      SplitDotFree(X);
      assert !([X] <= p) ==> Act(a, p, None).None?;
    }
  }

  /** A single listed segment with a single entry is loaded as it is. */
  lemma OneSegment(d: Disk, e: ManifestEntry, k: Bytes, v: Json)
    requires d.listed == [e] && e.name in d.files && d.files[e.name] == SegmentFile(map[k := v], e.crc)
    requires v != TOMBSTONE
    ensures LoadSegments(map[], d, d.listed) == map[k := v]
  {
    var entries: Tree := map[k := v];
    assert PrefixFree(entries.Keys);
    ReloadIdentity(entries);
    SortedUnique(Sorted(entries.Keys), [k]);
    assert MergeEach(map[], [k], entries) == MergeEach(entries, [k][1..], entries) == entries;
    assert MergeSegment(map[], entries) == entries;
    assert LoadSegments(map[], d, [e]) == LoadSegments(entries, d, [e][1..]);
  }

  /** A crash in the window can bring a deleted key back: one segment holds `x`, the log that
      deleted it has been reset, and the manifest still lists the segment. */
  lemma MergeWindowResurrects()
    ensures Holds(BEFORE_RESET, map[])
    ensures View(Recover(BEFORE_RESET.(wal := [])), [X]) == Some(Null)
  {
    SplitDotFree(X);
    StrayHolds();
    var entries: Tree := map[X := Null];
    OneSegment(BEFORE_RESET.(wal := []), STRAY, X, Null);
    assert Reload(map[]) == map[] by { ReloadIdentity(map[]); }
    assert Recover(BEFORE_RESET.(wal := [])) == entries;
    ViewBelow(entries, X, []);
    assert Split(X) + [] == [X];
  }

  const A: Bytes := [0x61]
  const AB: Bytes := [0x61, DOT, 0x62]
  const ABE: Bytes := [0x61, DOT, 0x62, DOT, 0x65]
  const B: Bytes := [0x62]
  const C: Bytes := [0x63]
  const E: Bytes := [0x65]
  const REBUILT_BRANCH: Json := Obj(Field(E, Bool(true), NoField))

  /** The snapshot holds `a`, an object with `b.c` in it; the log deletes `a.b` and then sets `a.b.e`;
      a delta segment has recorded `a.b`, which is all that is left of the branch. */
  const REBUILT: Disk := Disk(
    map[A := Obj(Field(B, Obj(Field(C, Null, NoField)), NoField))],
    [[Del(AB)], [Op.Set(ABE, Bool(true))]],
    map[Delta(1) := SegmentFile(map[AB := REBUILT_BRANCH], 7)],
    0, [STRAY])

  lemma RebuiltPaths()
    ensures Split(A) == [A] && Split(AB) == [A, B] && Split(ABE) == [A, B, E]
    ensures Under(A, AB)
  {
    SplitDotFree(A);
    SplitDotFree(B);
    SplitDotFree(E);
    SplitDot(A, B);
    SplitDot(AB, E);
    assert A + [DOT] + B == AB && AB + [DOT] + E == ABE;
  }

  lemma RebuiltLog()
    ensures Flatten(REBUILT.wal) == [Del(AB), Op.Set(ABE, Bool(true))]
    ensures DecidedBelow(Flatten(REBUILT.wal), AB)
  {
    FlattenTwo(Del(AB), Op.Set(ABE, Bool(true)));
    assert DecidesBelow(Flatten(REBUILT.wal)[0], AB);
  }

  lemma RebuiltEntriesOk()
    ensures Consistent(REBUILT.base) && EntriesOk(map[AB := REBUILT_BRANCH])
  {
    assert IsText(A) && IsText(AB);
    assert REBUILT.base.Keys == {A};
  }

  lemma RebuiltOk()
    ensures DiskOk(REBUILT) && OnlyDeltas(REBUILT)
  {
    RebuiltLog();
    RebuiltEntriesOk();
    assert IsText(AB) && IsText(ABE);
    assert Harmless(map[AB := REBUILT_BRANCH], REBUILT.base, Flatten(REBUILT.wal));
  }

  lemma RebuiltLoads()
    ensures LoadSnapshots(REBUILT) == map[AB := REBUILT_BRANCH] + REBUILT.base
    ensures NestedDecided(REBUILT)
  {
    RebuiltOk();
    RebuiltEntriesOk();
    OneSegment(REBUILT, STRAY, AB, REBUILT_BRANCH);
    ReloadIdentity(REBUILT.base);
    DeltasNested(REBUILT);
  }

  lemma RebuiltMissed(u: Tree, p: Path)
    requires u == map[AB := REBUILT_BRANCH] + REBUILT.base && p == [A, B, C]
    ensures Missed(u, Del(AB), p) && View(Crown(u), p) == Some(Null)
    ensures !KillsAny([Op.Set(ABE, Bool(true))], p)
  {
    RebuiltPaths();
    assert !Nested(u, A);
    CrownView(u, A, p);
    var b := Obj(Field(C, Null, NoField));
    assert p[1..] == [B, C] && p[1..][1..] == [C] && [C][1..] == [];
    assert LeafAt(u[A], [B, C]) == LeafAt(b, [C]) == LeafAt(Null, []) == Some(Null);
    assert AncestorFrom(u.Keys, AB, 1) == Some(1) by { assert AB[..1] == A; }
  }

  /** The first logged operation misses a leaf, and no later one decides it. */
  lemma MissedLingers(d: Disk, op: Op, rest: seq<Op>, p: Path)
    requires DiskOk(d) && NestedDecided(d) && Flatten(d.wal) == [op] + rest
    requires Missed(LoadSnapshots(d), op, p) && !KillsAny(rest, p)
    ensures Holds(d, ApplyAll(d.base, Flatten(d.wal))) && View(ApplyAll(d.base, Flatten(d.wal)), p).None?
    ensures Consistent(Recover(d)) && View(Recover(d), p) == View(Crown(LoadSnapshots(d)), p)
  {
    var ops, u := Flatten(d.wal), LoadSnapshots(d);
    assert ops[0] == op && ops[1..] == rest;
    assert OpOk(op) && forall o :: o in rest ==> OpOk(o) by { assert forall o :: o in rest ==> o in ops; }
    LoadView(d);
    ApplyAllView(d.base, ops);
    RecoveryDecided(d, ApplyAll(d.base, ops));
    SlipStays(u, d.base, op, rest, p);
    DeleteShadowedCrown(u, op.key, AncestorFrom(u.Keys, op.key, 0).value);
    CrownOfPrefixFree(Recover(d));
  }

  lemma RebuiltNested()
    ensures NestedDecided(REBUILT)
  {
    RebuiltLoads();
  }

  lemma RebuiltMisses()
    ensures Missed(LoadSnapshots(REBUILT), Del(AB), [A, B, C])
    ensures View(Crown(LoadSnapshots(REBUILT)), [A, B, C]) == Some(Null)
    ensures !KillsAny([Op.Set(ABE, Bool(true))], [A, B, C])
  {
    RebuiltLoads();
    RebuiltMissed(LoadSnapshots(REBUILT), [A, B, C]);
  }

  /** The replayed delete removes the segment's `a.b` and not the branch inside the snapshot's `a`, and
      the set that follows does not decide `a.b.c`: the deleted leaf is back. */
  lemma RebuiltBranchLingers()
    ensures var live := ApplyAll(REBUILT.base, Flatten(REBUILT.wal));
      Holds(REBUILT, live) && View(live, [A, B, C]).None?
    ensures NestedDecided(REBUILT) && Consistent(Recover(REBUILT))
    ensures View(Recover(REBUILT), [A, B, C]) == Some(Null)
  {
    RebuiltOk();
    RebuiltLog();
    RebuiltNested();
    RebuiltMisses();
    MissedLingers(REBUILT, Del(AB), [Op.Set(ABE, Bool(true))], [A, B, C]);
  }

  const FOLDED_BRANCH: Json := Obj(Field(B, Null, NoField))
  const COPY: ManifestEntry := ManifestEntry(Full(1), 7)

  /** The snapshot holds `a.b`; a read has folded the branch to `a`, and a full segment has copied the
      live store, while the log is empty. */
  const FOLDED: Disk := Disk(map[AB := Null], [], map[Full(1) := SegmentFile(map[A := FOLDED_BRANCH], 7)], 1, [COPY])

  lemma BelowFolded(q: Path)
    requires q != [] && q[0] == B
    ensures Owns(AB, Split(A) + q)
  {
    RebuiltPaths();
    assert Split(A) + q == [A, B] + q[1..];
  }

  lemma FoldedLeaf(q: Path)
    ensures LeafAt(FOLDED_BRANCH, q) == View(FOLDED.base, Split(A) + q)
  {
    RebuiltPaths();
    if q != [] && q[0] == B { BelowFolded(q); }
    if Owns(AB, Split(A) + q) {
      assert PrefixFree(FOLDED.base.Keys);
      ViewAt(FOLDED.base, AB, Split(A) + q);
      assert q[0] == (Split(A) + q)[1] == B;
      assert (Split(A) + q)[2..] == q[1..];
    } else {
      ViewNone(FOLDED.base, Split(A) + q);
      if q != [] { assert Lookup(FOLDED_BRANCH.fields, q[0]) == Lookup(NoField, q[0]); }
    }
  }

  lemma FoldedConsistent()
    ensures Consistent(FOLDED.base) && Consistent(map[A := FOLDED_BRANCH])
  {
    assert IsText(A) && IsText(AB);
    assert FOLDED.base.Keys == {AB};
  }

  /** One listed copy of an entry that agrees with the base. */
  lemma CopyOk(d: Disk, e: ManifestEntry, k: Bytes, v: Json)
    requires Consistent(d.base) && OpsOk(Flatten(d.wal)) && d.listed == [e]
    requires e.name in d.files && d.files[e.name].entries == map[k := v] && Consistent(map[k := v])
    requires forall q :: LeafAt(v, q) == View(d.base, Split(k) + q)
    ensures DiskOk(d)
  {
    assert Agrees(k, v, d.base, Flatten(d.wal));
  }

  lemma FoldedOk(wal: seq<Record>)
    requires OpsOk(Flatten(wal))
    ensures DiskOk(FOLDED.(wal := wal)) && Consistent(FOLDED.base)
  {
    FoldedConsistent();
    forall q ensures LeafAt(FOLDED_BRANCH, q) == View(FOLDED.base, Split(A) + q) {
      FoldedLeaf(q);
    }
    CopyOk(FOLDED.(wal := wal), COPY, A, FOLDED_BRANCH);
  }

  lemma OneEntry(k: Bytes, v: Json)
    ensures Reload(map[k := v]) == map[k := v]
  {
    ReloadIdentity(map[k := v]);
  }

  lemma TwoEntries(a: Bytes, v: Json, b: Bytes, w: Json)
    requires a != b
    ensures map[a := v] + map[b := w] == map[a := v, b := w]
  {
  }

  lemma FoldedLoads(wal: seq<Record>)
    ensures LoadSnapshots(FOLDED.(wal := wal)) == map[A := FOLDED_BRANCH, AB := Null]
  {
    OneSegment(FOLDED.(wal := wal), COPY, A, FOLDED_BRANCH);
    OneEntry(AB, Null);
    TwoEntries(A, FOLDED_BRANCH, AB, Null);
  }

  lemma FoldedRead(u: Tree)
    requires u == map[A := FOLDED_BRANCH, AB := Null]
    ensures Nested(u, AB) && !PrefixFree(u.Keys)
    ensures DeleteFn(u, AB).1 && GetFn(DeleteFn(u, AB).0, AB).1 == Some(Null)
  {
    RebuiltPaths();
    assert Under(A, AB) && A in u && AB in u;
    var m: Tree := map[A := FOLDED_BRANCH];
    assert Prune(u, AB) == m;
    assert AB[..1] == A && AB[2..] == B && AB !in m;
    assert AncestorFrom(m.Keys, AB, 0) == AncestorFrom(m.Keys, AB, 1) == Some(1);
    SplitDotFree(B);
    assert [B][1..] == [];
    assert Descend(FOLDED_BRANCH, [B]) == Descend(Null, []);
  }

  /** On such a disk both keys are loaded, and deleting `a.b` from the store that was opened does not
      delete it: what the log does not decide must not be shadowed. */
  lemma FoldedCopyLingers()
    ensures Holds(FOLDED, FOLDED.base) && !NestedDecided(FOLDED) && !Consistent(Recover(FOLDED))
    ensures DeleteFn(Recover(FOLDED), AB).1 && GetFn(DeleteFn(Recover(FOLDED), AB).0, AB).1 == Some(Null)
  {
    FoldedOk([]);
    FoldedLoads([]);
    assert FOLDED.(wal := []) == FOLDED;
    FoldedRead(Recover(FOLDED));
    assert !DecidedBelow(Flatten(FOLDED.wal), AB);
  }

  lemma PrunedStep(u: Tree, op: Op)
    requires u == map[A := FOLDED_BRANCH, AB := Null] && op == Op.Set(ABE, Null)
    ensures BuriedDecided(u, [op]) && SlipsReach(u, [op]) && PrefixFree(ApplyAll(u, [op]).Keys)
  {
    assert ABE[..1] == A;
    assert AncestorFrom(u.Keys, ABE, 0) == AncestorFrom(u.Keys, ABE, 1) == Some(1);
    assert Under(A, AB);
    var u' := Apply(u, op);
    assert u'.Keys == {A};
    assert [op][1..] == [] && ApplyAll(u, [op]) == ApplyAll(u', []) == u';
    assert SlipsReach(u', []) && BuriedDecided(u', []);
  }

  lemma CleanReplay(d: Disk, u: Tree, ops: seq<Op>)
    requires DiskOk(d) && Flatten(d.wal) == ops && LoadSnapshots(d) == u
    requires BuriedDecided(u, ops) && SlipsReach(u, ops) && PrefixFree(ApplyAll(u, ops).Keys)
    ensures Holds(d, ApplyAll(d.base, ops)) && Consistent(Recover(d)) && SameView(Recover(d), ApplyAll(d.base, ops))
  {
    ApplyAllView(d.base, ops);
    RecoveryExact(d, ApplyAll(d.base, ops));
  }

  const PRUNED: Disk := FOLDED.(wal := [[Op.Set(ABE, Null)]])

  lemma PrunedLoads()
    ensures Flatten(PRUNED.wal) == [Op.Set(ABE, Null)] && DiskOk(PRUNED)
    ensures LoadSnapshots(PRUNED) == map[A := FOLDED_BRANCH, AB := Null]
  {
    var op := Op.Set(ABE, Null);
    assert Flatten([[op]]) == [op] by { assert [[op]][1..] == [] && [op] + [] == [op]; }
    assert IsText(ABE);
    FoldedOk([[op]]);
    FoldedLoads([[op]]);
  }

  lemma PrunedUndecided(u: Tree)
    requires u == map[A := FOLDED_BRANCH, AB := Null]
    ensures !ShadowsDecided(u, [Op.Set(ABE, Null)])
  {
    FoldedRead(u);
    RebuiltPaths();
    assert !DecidedBelow([Op.Set(ABE, Null)], AB);
  }

  /** The same disk with a set of `a.b.e` in its log: the log does not decide the shadowed `a.b`, but the
      set edits the stored `a` and prunes what lies below it, and recovery is right. */
  lemma PrunedCopyRecovers()
    ensures var live := ApplyAll(PRUNED.base, Flatten(PRUNED.wal));
      && Holds(PRUNED, live) && !NestedDecided(PRUNED)
      && Consistent(Recover(PRUNED)) && SameView(Recover(PRUNED), live)
  {
    PrunedLoads();
    var u, ops := LoadSnapshots(PRUNED), Flatten(PRUNED.wal);
    PrunedStep(u, Op.Set(ABE, Null));
    PrunedUndecided(u);
    CleanReplay(PRUNED, u, ops);
  }
}
