/** What lies on disk, how opening a database rebuilds the store from it, and when the rebuilt
    store shows the leaves that were acknowledged. */
module Recovery {
  import opened Bytes
  import opened Paths
  import opened Json
  import opened StoreSpec
  import opened StoreView
  import opened Effects
  import opened Shadows

  /** One log frame: a single operation or a batch, replayed whole or not at all. */
  type Record = seq<Op>

  datatype SegmentName = Delta(id: nat) | Full(generation: nat)

  /** A segment file: the entries written to it, and the checksum of its bytes. */
  datatype SegmentFile = SegmentFile(entries: Tree, crc: nat)

  datatype ManifestEntry = ManifestEntry(name: SegmentName, crc: nat)

  datatype Disk = Disk(
    base: Tree,
    wal: seq<Record>,
    files: map<SegmentName, SegmentFile>,
    generation: nat,
    listed: seq<ManifestEntry>)

  /** The value that marks a deleted key in a segment: the bytes 00 44 45 4C. */
  const TOMBSTONE := NotJson([0x00, 0x44, 0x45, 0x4C])

  function Flatten(records: seq<Record>): seq<Op> {
    if records == [] then [] else records[0] + Flatten(records[1..])
  }

  lemma {:induction false} FlattenAppend(records: seq<Record>, r: Record)
    ensures Flatten(records + [r]) == Flatten(records) + r
    decreases |records|
  {
    if records == [] {
      assert records + [r] == [r];
      assert Flatten([r]) == r + Flatten([r][1..]);
    } else {
      assert (records + [r])[1..] == records[1..] + [r];
      FlattenAppend(records[1..], r);
    }
  }

  lemma {:induction false} FlattenConcat(a: seq<Record>, b: seq<Record>)
    ensures Flatten(a + b) == Flatten(a) + Flatten(b)
    decreases |a|
  {
    if a == [] {
      assert a + b == b;
    } else {
      assert (a + b)[1..] == a[1..] + b;
      FlattenConcat(a[1..], b);
    }
  }

  // --------------------------------------------------------------------------------------
  // Loading
  // --------------------------------------------------------------------------------------

  /** A snapshot is read back by setting its entries one by one, in key order. */
  function SetEach(m: Tree, keys: seq<Bytes>, entries: Tree): Tree
    requires forall k :: k in keys ==> k in entries
    decreases |keys|
  {
    if keys == [] then m
    else assert keys[0] in keys; SetEach(SetFn(m, keys[0], entries[keys[0]]), keys[1..], entries)
  }

  function Reload(entries: Tree): Tree {
    SetEach(map[], Sorted(entries.Keys), entries)
  }

  lemma {:induction false} SetEachKeys(m: Tree, keys: seq<Bytes>, entries: Tree)
    requires forall k :: k in keys ==> k in entries
    ensures SetEach(m, keys, entries).Keys <= m.Keys + entries.Keys
    decreases |keys|
  {
    if keys != [] {
      assert keys[0] in keys;
      SetEachKeys(SetFn(m, keys[0], entries[keys[0]]), keys[1..], entries);
    }
  }

  /** Reading a snapshot back introduces no key that was not written. */
  lemma ReloadKeys(entries: Tree)
    ensures Reload(entries).Keys <= entries.Keys
  {
    SetEachKeys(map[], Sorted(entries.Keys), entries);
  }

  /** Raw insertion of one segment's entries, a tombstone deleting its key. */
  function MergeEach(m: Tree, keys: seq<Bytes>, entries: Tree): Tree
    requires forall k :: k in keys ==> k in entries
    decreases |keys|
  {
    if keys == [] then m
    else
      assert keys[0] in keys;
      var v := entries[keys[0]];
      MergeEach(if v == TOMBSTONE then DeleteFn(m, keys[0]).0 else m[keys[0] := v], keys[1..], entries)
  }

  function MergeSegment(m: Tree, entries: Tree): Tree {
    MergeEach(m, Sorted(entries.Keys), entries)
  }

  /** A listed segment is used only if its file is there with the listed checksum. */
  predicate Usable(d: Disk, e: ManifestEntry) {
    e.name in d.files && d.files[e.name].crc == e.crc
  }

  function LoadSegments(m: Tree, d: Disk, listed: seq<ManifestEntry>): Tree
    decreases |listed|
  {
    if listed == [] then m
    else if !Usable(d, listed[0]) then LoadSegments(m, d, listed[1..])
    else LoadSegments(MergeSegment(m, Reload(d.files[listed[0].name].entries)), d, listed[1..])
  }

  /** The base goes in after the segments, by raw insertion. */
  function LoadSnapshots(d: Disk): Tree {
    LoadSegments(map[], d, d.listed) + Reload(d.base)
  }

  function Recover(d: Disk): Tree {
    ApplyAll(LoadSnapshots(d), Flatten(d.wal))
  }

  // --------------------------------------------------------------------------------------
  // Loading a prefix-free snapshot is plain insertion
  // --------------------------------------------------------------------------------------

  lemma SetIsInsert(m: Tree, k: Bytes, v: Json)
    requires k !in m && forall x :: x in m ==> !Under(x, k) && !Under(k, x)
    ensures SetFn(m, k, v) == m[k := v]
  {
    NoneAbove(m, k);
    assert Prune(m, k) == m;
  }

  lemma {:induction false} SetEachInserts(m: Tree, keys: seq<Bytes>, entries: Tree)
    requires forall k :: k in keys ==> k in entries && k !in m
    requires PrefixFree(entries.Keys) && m.Keys <= entries.Keys && StrictlySorted(keys)
    ensures var r := SetEach(m, keys, entries);
      && (forall k :: k in r <==> k in m || k in keys)
      && (forall k :: k in m ==> r[k] == m[k])
      && (forall k :: k in keys ==> r[k] == entries[k])
    decreases |keys|
  {
    if keys != [] {
      var k := keys[0];
      assert k in keys;
      SetIsInsert(m, k, entries[k]);
      LessTotal(k, k);
      assert forall x :: x in keys <==> x == k || x in keys[1..];
      SetEachInserts(m[k := entries[k]], keys[1..], entries);
    }
  }

  /** Reading back what was written gives the same map, although reading goes through the
      merging `set`: prefix-freeness leaves it nothing to merge. */
  lemma ReloadIdentity(entries: Tree)
    requires PrefixFree(entries.Keys)
    ensures Reload(entries) == entries
  {
    SetEachInserts(map[], Sorted(entries.Keys), entries);
  }

  // --------------------------------------------------------------------------------------
  // What loading segments can add
  // --------------------------------------------------------------------------------------

  /** What a segment may record for a key: a document, or the mark of a deleted key. */
  ghost predicate SegmentValueOk(v: Json) { v == TOMBSTONE || WellFormed(v) }

  ghost predicate EntriesOk(entries: Tree) {
    forall k :: k in entries ==> KeyOk(k) && SegmentValueOk(entries[k])
  }

  lemma SetEntryOk(m: Tree, k: Bytes, v: Json)
    requires EntriesOk(m) && KeyOk(k) && SegmentValueOk(v)
    ensures EntriesOk(SetFn(m, k, v))
  {
    var n := AncestorFrom(m.Keys, k, 0);
    if n.Some? && m[k[..n.value]].Obj? {
      InsertAtWellFormed(m[k[..n.value]].fields, Split(k[n.value + 1..]), v);
    }
  }

  lemma {:induction false} SetEachOk(m: Tree, keys: seq<Bytes>, entries: Tree)
    requires (forall k :: k in keys ==> k in entries) && EntriesOk(m) && EntriesOk(entries)
    ensures EntriesOk(SetEach(m, keys, entries))
    decreases |keys|
  {
    if keys != [] {
      assert keys[0] in keys;
      SetEntryOk(m, keys[0], entries[keys[0]]);
      SetEachOk(SetFn(m, keys[0], entries[keys[0]]), keys[1..], entries);
    }
  }

  /** Reading a segment back keeps documents well formed and tombstones apart from documents. */
  lemma ReloadOk(entries: Tree)
    requires EntriesOk(entries)
    ensures EntriesOk(Reload(entries))
  {
    SetEachOk(map[], Sorted(entries.Keys), entries);
  }

  lemma {:induction false} MergeEachSound(m: Tree, keys: seq<Bytes>, entries: Tree)
    requires (forall k :: k in keys ==> k in entries) && Sound(m) && EntriesOk(entries)
    ensures Sound(MergeEach(m, keys, entries))
    ensures MergeEach(m, keys, entries).Keys <= m.Keys + entries.Keys
    decreases |keys|
  {
    if keys != [] {
      var k := keys[0];
      assert k in keys;
      SoundKept(m, Del(k));
      MergeEachSound(if entries[k] == TOMBSTONE then DeleteFn(m, k).0 else m[k := entries[k]], keys[1..], entries);
    }
  }

  /** Every leaf of `v` at or below key `k` is the base's leaf there, or the log decides it. */
  ghost predicate Agrees(k: Bytes, v: Json, base: Tree, ops: seq<Op>) {
    forall q :: LeafAt(v, q) == View(base, Split(k) + q) || KillsAny(ops, Split(k) + q)
  }

  /** Entries that cannot show anything but the base's leaves where the log is silent. */
  ghost predicate AllAgree(m: Tree, base: Tree, ops: seq<Op>) {
    forall k :: k in m ==> Agrees(k, m[k], base, ops)
  }

  /** The same for entries still to be merged, among which a tombstone needs the log's consent. */
  ghost predicate Mergeable(m: Tree, base: Tree, ops: seq<Op>) {
    forall k :: k in m ==> if m[k] == TOMBSTONE then DecidedBelow(ops, k) else Agrees(k, m[k], base, ops)
  }

  lemma DecidedAgrees(k: Bytes, v: Json, base: Tree, ops: seq<Op>)
    requires DecidedBelow(ops, k)
    ensures Agrees(k, v, base, ops)
  {
    forall q ensures KillsAny(ops, Split(k) + q) { DecidedKills(ops, k, Split(k) + q); }
  }

  lemma DeleteAgrees(m: Tree, k: Bytes, base: Tree, ops: seq<Op>)
    requires Sound(m) && AllAgree(m, base, ops) && DecidedBelow(ops, k)
    ensures AllAgree(DeleteFn(m, k).0, base, ops)
  {
    var n := AncestorFrom(m.Keys, k, 0);
    if !Occupied(m, k) && n.Some? && RemoveInside(m, k[..n.value], k).Some? {
      var a := k[..n.value];
      var r := Split(k[|a| + 1..]);
      UnderSplits(a, k);
      var v := RemoveInside(m, a, k).value[a];
      forall q ensures LeafAt(v, q) == View(base, Split(a) + q) || KillsAny(ops, Split(a) + q) {
        RemoveAtLeaf(m[a].fields, r, q);
        PrefixShift(Split(a), r, q);
        if r <= q { DecidedKills(ops, k, Split(a) + q); }
        assert Agrees(a, m[a], base, ops);
      }
    }
  }

  lemma {:induction false} MergeEachAgrees(m: Tree, keys: seq<Bytes>, entries: Tree, base: Tree, ops: seq<Op>)
    requires (forall k :: k in keys ==> k in entries) && Sound(m) && EntriesOk(entries)
    requires AllAgree(m, base, ops) && Mergeable(entries, base, ops)
    ensures AllAgree(MergeEach(m, keys, entries), base, ops)
    decreases |keys|
  {
    if keys != [] {
      var k := keys[0];
      assert k in keys;
      SoundKept(m, Del(k));
      if entries[k] == TOMBSTONE { DeleteAgrees(m, k, base, ops); }
      var m' := if entries[k] == TOMBSTONE then DeleteFn(m, k).0 else m[k := entries[k]];
      MergeEachAgrees(m', keys[1..], entries, base, ops);
    }
  }

  // --------------------------------------------------------------------------------------
  // Disks that recover
  // --------------------------------------------------------------------------------------

  /** The entries of a segment are harmless if the log has touched every one of them, or if they are
      a prefix-free copy that agrees with the base wherever the log is silent. */
  ghost predicate Harmless(entries: Tree, base: Tree, ops: seq<Op>) {
    && EntriesOk(entries)
    && ((forall k :: k in entries ==> DecidedBelow(ops, k)) || (Consistent(entries) && AllAgree(entries, base, ops)))
  }

  lemma HarmlessReload(entries: Tree, base: Tree, ops: seq<Op>)
    requires Harmless(entries, base, ops)
    ensures Mergeable(Reload(entries), base, ops)
  {
    ReloadKeys(entries);
    if forall k :: k in entries ==> DecidedBelow(ops, k) {
      var part := Reload(entries);
      forall k | k in part ensures DecidedBelow(ops, k) && Agrees(k, part[k], base, ops) {
        DecidedAgrees(k, part[k], base, ops);
      }
    } else {
      ReloadIdentity(entries);
    }
  }

  ghost predicate OpsOk(ops: seq<Op>) {
    forall op :: op in ops ==> OpOk(op)
  }

  ghost predicate Readable(d: Disk) {
    && Consistent(d.base)
    && OpsOk(Flatten(d.wal))
    && forall e :: e in d.listed && Usable(d, e) ==> EntriesOk(d.files[e.name].entries)
  }

  ghost predicate DiskOk(d: Disk) {
    && Consistent(d.base)
    && OpsOk(Flatten(d.wal))
    && forall e :: e in d.listed && Usable(d, e) ==> Harmless(d.files[e.name].entries, d.base, Flatten(d.wal))
  }

  /** The disk holds the leaves of `m`: base plus log. */
  ghost predicate Holds(d: Disk, m: Tree) {
    && DiskOk(d)
    && forall p :: View(m, p) == ActAll(Flatten(d.wal), p, View(d.base, p))
  }

  lemma {:induction false} LoadSegmentsSound(m: Tree, d: Disk, n: nat)
    requires Sound(m) && Readable(d) && n <= |d.listed|
    ensures Sound(LoadSegments(m, d, d.listed[n..]))
    decreases |d.listed| - n
  {
    if n < |d.listed| {
      var e := d.listed[n];
      assert e in d.listed && d.listed[n..][1..] == d.listed[n + 1..];
      if Usable(d, e) {
        var part := Reload(d.files[e.name].entries);
        ReloadOk(d.files[e.name].entries);
        MergeEachSound(m, Sorted(part.Keys), part);
        LoadSegmentsSound(MergeSegment(m, part), d, n + 1);
      } else {
        LoadSegmentsSound(m, d, n + 1);
      }
    }
  }

  lemma {:induction false} LoadSegmentsAgree(m: Tree, d: Disk, n: nat)
    requires DiskOk(d) && n <= |d.listed|
    requires Sound(m) && AllAgree(m, d.base, Flatten(d.wal))
    ensures AllAgree(LoadSegments(m, d, d.listed[n..]), d.base, Flatten(d.wal))
    decreases |d.listed| - n
  {
    if n < |d.listed| {
      var e := d.listed[n];
      assert e in d.listed && d.listed[n..][1..] == d.listed[n + 1..];
      if Usable(d, e) {
        var part := Reload(d.files[e.name].entries);
        ReloadOk(d.files[e.name].entries);
        HarmlessReload(d.files[e.name].entries, d.base, Flatten(d.wal));
        MergeEachSound(m, Sorted(part.Keys), part);
        MergeEachAgrees(m, Sorted(part.Keys), part, d.base, Flatten(d.wal));
        LoadSegmentsAgree(MergeSegment(m, part), d, n + 1);
      } else {
        LoadSegmentsAgree(m, d, n + 1);
      }
    }
  }

  lemma Loaded(d: Disk) returns (segs: Tree)
    requires Readable(d)
    ensures segs == LoadSegments(map[], d, d.listed) && Sound(segs)
    ensures LoadSnapshots(d) == segs + d.base && Sound(segs + d.base)
  {
    assert d.listed[0..] == d.listed;
    LoadSegmentsSound(map[], d, 0);
    ReloadIdentity(d.base);
    segs := LoadSegments(map[], d, d.listed);
  }

  lemma TopOwner(u: Tree, x: Bytes, p: Path) returns (t: Bytes)
    requires x in u && Owns(x, p)
    ensures t in Crown(u) && Owns(t, p)
  {
    t := CrownAbove(u, x);
    UnderIsProperPrefix(t, x);
  }

  lemma OwnerAgrees(segs: Tree, base: Tree, ops: seq<Op>, t: Bytes, p: Path)
    requires PrefixFree(base.Keys) && AllAgree(segs, base, ops) && !KillsAny(ops, p)
    requires t in segs + base && Owns(t, p)
    ensures LeafAt((segs + base)[t], p[|Split(t)|..]) == View(base, p)
  {
    if t in base {
      ViewAt(base, t, p);
    } else {
      assert p == Split(t) + p[|Split(t)|..] && Agrees(t, segs[t], base, ops);
    }
  }

  lemma UnionView(segs: Tree, base: Tree, ops: seq<Op>, p: Path)
    requires Sound(segs) && Consistent(base) && AllAgree(segs, base, ops) && !KillsAny(ops, p)
    ensures View(Crown(segs + base), p) == View(base, p)
  {
    var u := segs + base;
    if x :| x in u && Owns(x, p) {
      var t := TopOwner(u, x, p);
      CrownView(u, t, p);
      OwnerAgrees(segs, base, ops, t, p);
    }
  }

  /** Where the log is silent, the topmost loaded entries show exactly the base's leaves. */
  lemma LoadView(d: Disk)
    requires DiskOk(d)
    ensures Sound(LoadSnapshots(d))
    ensures AgreeUndecided(LoadSnapshots(d), d.base, Flatten(d.wal))
  {
    var segs := Loaded(d);
    assert d.listed[0..] == d.listed;
    LoadSegmentsAgree(map[], d, 0);
    forall p | !KillsAny(Flatten(d.wal), p) ensures View(Crown(segs + d.base), p) == View(d.base, p) {
      UnionView(segs, d.base, Flatten(d.wal), p);
    }
  }

  /** Opening a disk that holds `m` gives a prefix-free store with exactly the leaves of `m` if and only if
      the replay leaves no key below another, and decides later whatever slips: a delete that meets an
      entry below a stored object, or an entry that a removed scalar uncovers. Assumed is only that a key
      set below an uncovered entry is decided again. */
  lemma RecoveryExact(d: Disk, m: Tree)
    requires Holds(d, m) && BuriedDecided(LoadSnapshots(d), Flatten(d.wal))
    ensures Consistent(Recover(d)) && SameView(Recover(d), m) <==>
      PrefixFree(Recover(d).Keys) && SlipsReach(LoadSnapshots(d), Flatten(d.wal))
  {
    var ops := Flatten(d.wal);
    LoadView(d);
    ReplayExact(LoadSnapshots(d), d.base, ops);
    ApplyAllView(d.base, ops);
  }

  /** Every loaded key that lies below another is decided by the log. */
  ghost predicate NestedDecided(d: Disk) {
    ShadowsDecided(LoadSnapshots(d), Flatten(d.wal))
  }

  /** If the log decides whatever is shadowed, the store is always prefix-free, and only missed deletes
      matter. */
  lemma RecoveryDecided(d: Disk, m: Tree)
    requires Holds(d, m) && NestedDecided(d)
    ensures Consistent(Recover(d))
    ensures SameView(Recover(d), m) <==> DeletesReach(LoadSnapshots(d), Flatten(d.wal))
  {
    var ops := Flatten(d.wal);
    LoadView(d);
    ReplayDecided(LoadSnapshots(d), d.base, ops);
    ApplyAllView(d.base, ops);
  }

  /** In particular when the first operation on each shadowed key is no delete, or the deleted
      branch is written again as a whole. */
  lemma RecoveryCorrect(d: Disk, m: Tree)
    requires Holds(d, m) && NestedDecided(d) && ShadowsMadeGood(LoadSnapshots(d), Flatten(d.wal))
    ensures Consistent(Recover(d)) && SameView(Recover(d), m)
  {
    RecoveryDecided(d, m);
    MadeGoodReaches(LoadSnapshots(d), Flatten(d.wal));
  }

  // Two kinds of disk on which nothing undecided is shadowed.

  /** Without segments only the base is loaded. */
  lemma Unsegmented(d: Disk)
    requires Consistent(d.base) && d.listed == []
    ensures LoadSnapshots(d) == d.base && NestedDecided(d)
    ensures DeletesReach(LoadSnapshots(d), Flatten(d.wal))
  {
    ReloadIdentity(d.base);
    PrefixFreeReaches(d.base, Flatten(d.wal));
  }

  /** All usable segments hold keys the log has touched: those of delta compactions. */
  ghost predicate OnlyDeltas(d: Disk) {
    forall e, k :: e in d.listed && Usable(d, e) && k in d.files[e.name].entries ==> DecidedBelow(Flatten(d.wal), k)
  }

  lemma {:induction false} LoadSegmentsDecided(m: Tree, d: Disk, n: nat)
    requires Sound(m) && Readable(d) && OnlyDeltas(d) && n <= |d.listed|
    requires forall k :: k in m ==> DecidedBelow(Flatten(d.wal), k)
    ensures forall k :: k in LoadSegments(m, d, d.listed[n..]) ==> DecidedBelow(Flatten(d.wal), k)
    decreases |d.listed| - n
  {
    if n < |d.listed| {
      var e := d.listed[n];
      assert e in d.listed && d.listed[n..][1..] == d.listed[n + 1..];
      if Usable(d, e) {
        var part := Reload(d.files[e.name].entries);
        ReloadOk(d.files[e.name].entries);
        ReloadKeys(d.files[e.name].entries);
        MergeEachSound(m, Sorted(part.Keys), part);
        LoadSegmentsDecided(MergeSegment(m, part), d, n + 1);
      } else {
        LoadSegmentsDecided(m, d, n + 1);
      }
    }
  }

  /** Delta segments shadow nothing that the log does not decide. */
  lemma DeltasNested(d: Disk)
    requires Readable(d) && OnlyDeltas(d)
    ensures NestedDecided(d)
  {
    var segs := Loaded(d);
    assert d.listed[0..] == d.listed;
    LoadSegmentsDecided(map[], d, 0);
    forall s | Nested(segs + d.base, s) ensures DecidedBelow(Flatten(d.wal), s) {
      var a :| a in segs + d.base && Under(a, s);
      UnderIsProperPrefix(a, s);
      if s !in segs { DecidedUnder(Flatten(d.wal), a, s); }
    }
  }

  // --------------------------------------------------------------------------------------
  // Durable steps
  // --------------------------------------------------------------------------------------

  lemma KillsGrows(a: seq<Op>, b: seq<Op>, p: Path)
    requires KillsAny(a, p)
    ensures KillsAny(a + b, p)
  {
    var i :| 0 <= i < |a| && Kills(a[i], p);
    assert (a + b)[i] == a[i];
  }

  lemma DecidedGrows(a: seq<Op>, b: seq<Op>, k: Bytes)
    requires DecidedBelow(a, k)
    ensures DecidedBelow(a + b, k)
  {
    var i :| 0 <= i < |a| && DecidesBelow(a[i], k);
    assert (a + b)[i] == a[i];
  }

  lemma HarmlessGrows(entries: Tree, base: Tree, a: seq<Op>, b: seq<Op>)
    requires Harmless(entries, base, a)
    ensures Harmless(entries, base, a + b)
  {
    forall p | KillsAny(a, p) ensures KillsAny(a + b, p) { KillsGrows(a, b, p); }
    forall k | DecidedBelow(a, k) ensures DecidedBelow(a + b, k) { DecidedGrows(a, b, k); }
    if !(forall k :: k in entries ==> DecidedBelow(a, k)) {
      forall k | k in entries ensures Agrees(k, entries[k], base, a + b) {
        assert Agrees(k, entries[k], base, a);
      }
    }
  }

  /** Flushing buffered frames to the log. */
  lemma FlushHolds(d: Disk, m: Tree, records: seq<Record>, m': Tree)
    requires Holds(d, m) && OpsOk(Flatten(records))
    requires forall p :: View(m', p) == ActAll(Flatten(records), p, View(m, p))
    ensures Holds(d.(wal := d.wal + records), m')
    ensures Flatten(d.wal + records) == Flatten(d.wal) + Flatten(records)
  {
    FlattenConcat(d.wal, records);
    var a, b := Flatten(d.wal), Flatten(records);
    forall p { ActAllConcat(a, b, p, View(d.base, p)); }
    forall e | e in d.listed && Usable(d, e) ensures Harmless(d.files[e.name].entries, d.base, a + b) {
      HarmlessGrows(d.files[e.name].entries, d.base, a, b);
    }
  }

  lemma HarmlessMoves(entries: Tree, base: Tree, base': Tree, ops: seq<Op>)
    requires Harmless(entries, base, ops)
    requires forall p :: !KillsAny(ops, p) ==> View(base', p) == View(base, p)
    ensures Harmless(entries, base', ops)
  {
    if !(forall k :: k in entries ==> DecidedBelow(ops, k)) {
      forall k | k in entries ensures Agrees(k, entries[k], base', ops) {
        assert Agrees(k, entries[k], base, ops);
      }
    }
  }

  /** The log only grows, so what it has decided stays decided. */
  lemma FlushDeltas(d: Disk, records: seq<Record>)
    requires OnlyDeltas(d)
    ensures OnlyDeltas(d.(wal := d.wal + records))
  {
    FlattenConcat(d.wal, records);
    forall k | DecidedBelow(Flatten(d.wal), k) ensures DecidedBelow(Flatten(d.wal + records), k) {
      DecidedGrows(Flatten(d.wal), Flatten(records), k);
    }
  }

  /** The window after the snapshot rename and before the log reset: the new snapshot already
      contains the log, and replaying the log over it changes nothing. */
  lemma SnapshotHolds(d: Disk, m: Tree)
    requires Holds(d, m) && Consistent(m)
    ensures Holds(d.(base := m), m)
  {
    var ops := Flatten(d.wal);
    forall p ensures ActAll(ops, p, View(m, p)) == View(m, p) {
      ReplayIdempotent(ops, p, View(d.base, p));
    }
    forall p | !KillsAny(ops, p) ensures View(m, p) == View(d.base, p) {
      LogDecidesOrKeeps(ops, p, View(d.base, p), None);
    }
    forall e | e in d.listed && Usable(d, e) ensures Harmless(d.files[e.name].entries, m, ops) {
      HarmlessMoves(d.files[e.name].entries, d.base, m, ops);
    }
  }

  /** Resetting the log once the snapshot is in place and no segment is listed. */
  lemma ResetHolds(d: Disk, m: Tree)
    requires Consistent(m) && d.base == m && d.listed == []
    ensures Holds(d.(wal := []), m)
  {
  }

  lemma WriteFileHolds(d: Disk, m: Tree, name: SegmentName, file: SegmentFile)
    requires Holds(d, m) && Harmless(file.entries, d.base, Flatten(d.wal))
    ensures Holds(d.(files := d.files[name := file]), m)
  {
  }

  lemma RemoveFileHolds(d: Disk, m: Tree, name: SegmentName)
    requires Holds(d, m)
    ensures Holds(d.(files := d.files - {name}), m)
  {
  }

  /** Listing an additional segment whose entries are harmless, or listing fewer. */
  lemma ListHolds(d: Disk, m: Tree, generation: nat, listed: seq<ManifestEntry>)
    requires Holds(d, m)
    requires forall e :: e in listed && e !in d.listed && Usable(d, e) ==>
      Harmless(d.files[e.name].entries, d.base, Flatten(d.wal))
    ensures Holds(d.(generation := generation, listed := listed), m)
  {
    var d' := d.(generation := generation, listed := listed);
    forall e | e in listed && Usable(d', e)
      ensures Harmless(d'.files[e.name].entries, d'.base, Flatten(d'.wal))
    {
      assert Usable(d, e);
    }
  }

  lemma LastOpDecides(ops: seq<Op>, op: Op, k: Bytes)
    requires op.Clear? || op.key == k
    ensures DecidedBelow(ops + [op], k)
  {
    assert DecidesBelow((ops + [op])[|ops|], k);
  }

  lemma TouchedHarmless(entries: Tree, base: Tree, ops: seq<Op>)
    requires EntriesOk(entries)
    requires forall k :: k in entries ==> DecidedBelow(ops, k)
    ensures Harmless(entries, base, ops)
  {
  }

  /** Listing one more segment, of keys the log has touched, brings back no leaf, whatever its values:
      where the log is silent the loaded entries still show the leaves of the base, and no others. */
  lemma TouchedBringsNothing(d: Disk, m: Tree, name: SegmentName, file: SegmentFile)
    requires Holds(d, m) && EntriesOk(file.entries)
    requires forall k :: k in file.entries ==> DecidedBelow(Flatten(d.wal), k)
    ensures var d' := d.(files := d.files[name := file], listed := d.listed + [ManifestEntry(name, file.crc)]);
      && Holds(d', m)
      && forall p :: !KillsAny(Flatten(d.wal), p) ==> View(Crown(LoadSnapshots(d')), p) == View(d.base, p)
  {
    TouchedHarmless(file.entries, d.base, Flatten(d.wal));
    WriteFileHolds(d, m, name, file);
    var written := d.(files := d.files[name := file]);
    ListHolds(written, m, d.generation, d.listed + [ManifestEntry(name, file.crc)]);
    LoadView(written.(listed := d.listed + [ManifestEntry(name, file.crc)]));
  }

  /** A copy of the whole live store is harmless: a leaf the log does not decide is the base's. */
  lemma LiveHarmless(d: Disk, m: Tree)
    requires Holds(d, m) && Consistent(m)
    ensures Harmless(m, d.base, Flatten(d.wal))
  {
    var ops := Flatten(d.wal);
    forall k, q | k in m && !KillsAny(ops, Split(k) + q) ensures LeafAt(m[k], q) == View(d.base, Split(k) + q) {
      ViewBelow(m, k, q);
      LogDecidesOrKeeps(ops, Split(k) + q, View(d.base, Split(k) + q), None);
    }
    forall k | k in m ensures Agrees(k, m[k], d.base, ops) { }
  }

  // --------------------------------------------------------------------------------------
  // The window of a full merge: snapshot written, log reset, old segments still listed
  // --------------------------------------------------------------------------------------

  ghost predicate NoLeaves(v: Json) {
    forall q :: LeafAt(v, q).None?
  }

  /** No other loaded key lies above or below `k`. */
  ghost predicate Apart(u: Tree, k: Bytes) {
    forall x :: x in u ==> !Under(x, k) && !Under(k, x)
  }

  lemma StrayLeafShows(segs: Tree, base: Tree, k: Bytes, q: Path)
    requires PrefixFree((segs + base).Keys) && k in segs && k !in base
    ensures View(base, Split(k) + q).None?
    ensures View(segs + base, Split(k) + q) == LeafAt(segs[k], q)
  {
    var m := segs + base;
    assert base.Keys <= m.Keys;
    ViewBelow(m, k, q);
    forall j | j in base ensures !Owns(j, Split(k) + q) {
      if Owns(j, Split(k) + q) { OwnerUnique(m, j, k, Split(k) + q); }
    }
    ViewNone(base, Split(k) + q);
  }

  lemma EmptyStrays(segs: Tree, base: Tree, p: Path)
    requires PrefixFree((segs + base).Keys) && PrefixFree(base.Keys)
    requires forall k :: k in segs && k !in base ==> NoLeaves(segs[k])
    ensures View(segs + base, p) == View(base, p)
  {
    var m := segs + base;
    if k :| k in m && Owns(k, p) {
      ViewAt(m, k, p);
      if k in base {
        ViewAt(base, k, p);
      } else {
        assert NoLeaves(segs[k]);
        if i :| i in base && Owns(i, p) { OwnerUnique(m, i, k, p); }
      }
    }
  }

  lemma UnionExact(segs: Tree, base: Tree)
    requires Sound(segs) && Consistent(base)
    ensures var u := segs + base;
      Consistent(u) && SameView(u, base) <==> forall k :: k in segs && k !in base ==> Apart(u, k) && NoLeaves(segs[k])
  {
    var u := segs + base;
    if Consistent(u) && SameView(u, base) {
      forall k | k in segs && k !in base ensures Apart(u, k) && NoLeaves(segs[k]) {
        forall q ensures LeafAt(segs[k], q).None? { StrayLeafShows(segs, base, k, q); }
      }
    }
    if forall k :: k in segs && k !in base ==> Apart(u, k) && NoLeaves(segs[k]) {
      forall a, b | a in u && b in u ensures !Under(a, b) {
        if !(a in base && b in base) { assert Apart(u, if a in base then b else a); }
      }
      forall p { EmptyStrays(segs, base, p); }
    }
  }

  /** In that window recovery is right, and the store prefix-free, exactly when every key the old
      segments still contribute is in the new snapshot, or is related to no other and has no leaf. */
  lemma MergeWindowExact(d: Disk)
    requires Readable(d) && d.wal == []
    ensures Consistent(Recover(d)) && SameView(Recover(d), d.base) <==>
      var segs := LoadSegments(map[], d, d.listed);
      forall k :: k in segs && k !in d.base ==> Apart(LoadSnapshots(d), k) && NoLeaves(segs[k])
  {
    var segs := Loaded(d);
    assert Recover(d) == segs + d.base;
    UnionExact(segs, d.base);
  }
}
