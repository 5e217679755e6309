/** The engine: the live store, the log buffer and the bookkeeping of segments, with every durable
    write spelled out. Operations that write more than once return their durable steps: a crash leaves
    the disk as some number of those steps made it. */
module EngineRuns {
  import opened Bytes
  import opened Paths
  import opened Json
  import opened StoreSpec
  import opened StoreView
  import opened Effects
  import opened Shadows
  import opened Recovery
  import opened DiskSteps
  import opened FlatStore

  /** A compaction prepared under the lock, serialized outside it. */
  datatype CompactJob =
    | LegacyJob
    | DeltaJob(generation: nat, segId: nat, scratch: Tree)
    | FullJob(generation: nat, scratch: Tree)

  datatype CompactDone =
    | LegacyDone
    | SegmentDone(full: bool, generation: nat, segId: nat, name: SegmentName, file: SegmentFile)

  datatype Outcome = LegacyOutcome | Stale | Committed

  /** Serialization: fixes the file name, the segment id and the checksum. */
  function Compute(job: CompactJob, crc: nat): CompactDone {
    match job
    case LegacyJob => LegacyDone
    case DeltaJob(g, id, scratch) => SegmentDone(false, g, id, Delta(id), SegmentFile(scratch, crc))
    case FullJob(g, scratch) => SegmentDone(true, g, g, Full(g), SegmentFile(scratch, crc))
  }

  /** Each dirty key with its entry in the store, or with a tombstone if it has none. */
  function Marked(m: Tree, dirty: set<Bytes>): Tree {
    map k | k in dirty :: if k in m then m[k] else TOMBSTONE
  }

  function NextId(listed: seq<ManifestEntry>): nat {
    if listed == [] then 1
    else
      var rest := NextId(listed[1..]);
      var id := (if listed[0].name.Delta? then listed[0].name.id else listed[0].name.generation) + 1;
      if id > rest then id else rest
  }

  /** Dirty keys have been touched by the log. */
  ghost predicate DirtyOk(dirty: set<Bytes>, log: seq<Op>) {
    forall k :: k in dirty ==> KeyOk(k) && DecidedBelow(log, k)
  }

  ghost predicate JobOk(j: CompactJob, base: Tree, log: seq<Op>)
    requires !j.LegacyJob?
  {
    Harmless(j.scratch, base, log) && (j.DeltaJob? ==> forall k :: k in j.scratch ==> DecidedBelow(log, k))
  }

  /** A job that could still be committed carries only entries harmless to the durable log, and if it is a
      delta, only keys that log has touched. */
  ghost predicate JobsOk(jobs: set<CompactJob>, base: Tree, generation: nat, log: seq<Op>) {
    forall j :: j in jobs && !j.LegacyJob? ==>
      && j.generation <= generation + 1
      && (j.generation == generation + 1 ==> JobOk(j, base, log))
  }

  lemma DirtyGrows(dirty: set<Bytes>, log: seq<Op>, r: seq<Op>)
    requires DirtyOk(dirty, log)
    ensures DirtyOk(dirty, log + r)
  {
    forall k | k in dirty ensures DecidedBelow(log + r, k) { DecidedGrows(log, r, k); }
  }

  lemma JobsGrow(jobs: set<CompactJob>, base: Tree, generation: nat, log: seq<Op>, r: seq<Op>)
    requires JobsOk(jobs, base, generation, log)
    ensures JobsOk(jobs, base, generation, log + r)
  {
    forall j | j in jobs && !j.LegacyJob? && j.generation == generation + 1
      ensures JobOk(j, base, log + r)
    {
      HarmlessGrows(j.scratch, base, log, r);
      forall k | DecidedBelow(log, k) ensures DecidedBelow(log + r, k) { DecidedGrows(log, r, k); }
    }
  }

  /** A new generation makes every earlier job stale. */
  lemma JobsStale(jobs: set<CompactJob>, base: Tree, base': Tree, generation: nat, log: seq<Op>, log': seq<Op>)
    requires JobsOk(jobs, base, generation, log)
    ensures JobsOk(jobs, base', generation + 1, log')
  {
  }

  /** `v` records what the store shows at and below `k`, a tombstone meaning nothing. A key below a
      scalar or array reads inside that leaf instead. */
  ghost predicate Records(m: Tree, k: Bytes, v: Json) {
    (forall i {:trigger Split(k)[..i]} :: 0 <= i < |Split(k)| ==> View(m, Split(k)[..i]).None?) ==>
      forall q :: View(m, Split(k) + q) == if v == TOMBSTONE then None else LeafAt(v, q)
  }

  lemma ReadRecords(m: Tree, k: Bytes)
    requires Consistent(m) && KeyOk(k)
    ensures var r := GetFn(m, k).1; Records(m, k, if r.Some? then r.value else TOMBSTONE)
  {
    GetWellFormed(m, k);
    if forall i {:trigger Split(k)[..i]} :: 0 <= i < |Split(k)| ==> View(m, Split(k)[..i]).None? {
      forall q { GetReturnsSubtree(m, k, q); }
    }
  }

  lemma RecordsSame(m: Tree, m': Tree, k: Bytes, v: Json)
    requires SameView(m, m') && Records(m', k, v)
    ensures Records(m, k, v)
  {
  }

  lemma SameViewTwice(a: Tree, b: Tree, c: Tree)
    requires SameView(a, b) && SameView(b, c)
    ensures SameView(a, c)
  {
  }

  ghost predicate AllRecorded(m: Tree, scratch: Tree) {
    forall k :: k in scratch ==> Records(m, k, scratch[k])
  }

  lemma RecordOne(m: Tree, scratch: Tree, key: Bytes, v: Json)
    requires AllRecorded(m, scratch) && Records(m, key, v)
    ensures AllRecorded(m, scratch[key := v])
  {
  }

  /** The store `m` was read at all dirty keys but those in `todo`, which folded it to `now`. */
  ghost predicate Collecting(m: Tree, now: Tree, dirty: set<Bytes>, todo: set<Bytes>, scratch: Tree) {
    && Consistent(now) && SameView(m, now)
    && EntriesOk(scratch) && (forall k :: k in scratch <==> k in dirty && k !in todo)
    && AllRecorded(m, scratch)
  }

  lemma CollectOne(m: Tree, was: Tree, now: Tree, dirty: set<Bytes>, todo: set<Bytes>, scratch: Tree,
                   key: Bytes, v: Json)
    requires Collecting(m, was, dirty, todo, scratch) && key in dirty && key in todo
    requires KeyOk(key) && SegmentValueOk(v) && Records(was, key, v)
    requires Consistent(now) && SameView(was, now)
    ensures Collecting(m, now, dirty, todo - {key}, scratch[key := v])
  {
    SameViewTwice(m, was, now);
    RecordsSame(m, was, key, v);
    RecordOne(m, scratch, key, v);
  }

  predicate OpFlag(m: Tree, op: Op) {
    op.Set? || (op.Del? && op.key in m)
  }

  function BatchFlags(m: Tree, ops: seq<Op>): seq<bool>
    decreases |ops|
  {
    if ops == [] then []
    else [OpFlag(m, ops[0])] + BatchFlags(Apply(m, ops[0]), ops[1..])
  }

  lemma BatchNext(m: Tree, ops: seq<Op>, i: nat, flags: seq<bool>)
    requires i < |ops|
    ensures ops[i] in ops && (!ops[i].Clear? ==> ops[i].key in OpKeys(ops))
    ensures ApplyAll(m, ops[i..]) == ApplyAll(Apply(m, ops[i]), ops[i + 1..])
    ensures flags + BatchFlags(m, ops[i..]) ==
      (flags + [OpFlag(m, ops[i])]) + BatchFlags(Apply(m, ops[i]), ops[i + 1..])
  {
    assert ops[i..][0] == ops[i] && ops[i..][1..] == ops[i + 1..];
    Assoc(flags, [OpFlag(m, ops[i])], BatchFlags(Apply(m, ops[i]), ops[i + 1..]));
  }

  lemma FramesLine(wal: seq<Record>, rest: seq<Record>, wal': seq<Record>, buf': seq<Record>)
    requires wal' + buf' == wal + rest && (wal' == wal || buf' == [])
    ensures if buf' == [] then wal' == wal + rest else buf' == rest
  {
    if buf' != [] {
      assert buf' == (wal' + buf')[|wal|..];
      assert rest == (wal + rest)[|wal|..];
    }
  }

  /** Moving frames from the buffer to the log leaves their concatenation alone. */
  lemma FramesMoved(wal: seq<Record>, buf: seq<Record>, r: Record, wal': seq<Record>, buf': seq<Record>)
    requires wal' + buf' == wal + buf + [r] && (wal' == wal || buf' == [])
    ensures Flatten(wal') + Flatten(buf') == Flatten(wal) + Flatten(buf) + r
    ensures buf' != [] ==> buf' == buf + [r]
    ensures buf' == [] ==> wal' == wal + (buf + [r])
  {
    Assoc(wal, buf, [r]);
    FramesLine(wal, buf + [r], wal', buf');
    FlattenConcat(wal', buf');
    FlattenConcat(wal, buf + [r]);
    FlattenAppend(buf, r);
    Assoc(Flatten(wal), Flatten(buf), r);
  }

  lemma ActOne(op: Op)
    ensures forall p, was :: ActAll([op], p, was) == Act(op, p, was)
  {
    forall p, was ensures ActAll([op], p, was) == Act(op, p, was) {
      assert ActAll([op][1..], p, Act(op, p, was)) == Act(op, p, was);
    }
  }

  lemma TouchedDecides(log: seq<Op>, ops: seq<Op>, i: nat, k: Bytes)
    requires i < |ops| && !ops[i].Clear? && ops[i].key == k
    ensures DecidedBelow(log + ops, k)
  {
    assert DecidesBelow((log + ops)[|log| + i], k);
  }

  // --------------------------------------------------------------------------------------
  // The engine
  // --------------------------------------------------------------------------------------

  class Engine {
    const segments: bool
    const buffering: bool
    const mergeEvery: nat
    const store: Store

    var disk: Disk
    var walBuf: seq<Record>
    var dirty: set<Bytes>
    var dirtyAll: bool
    var nextSegId: nat

    /** The store as of the last flush, and the prepared jobs. */
    ghost var durable: Tree
    ghost var jobs: set<CompactJob>

    ghost function Log(): seq<Op>
      reads this
    {
      Flatten(disk.wal) + Flatten(walBuf)
    }

    ghost predicate Valid()
      reads this, store
    {
      Coherent() && (!buffering ==> walBuf == [])
    }

    ghost predicate Coherent()
      reads this, store
    {
      && store.Synced() && Consistent(store.tree)
      && Consistent(durable) && Holds(disk, durable)
      && OpsOk(Flatten(walBuf))
      && (forall p :: View(store.tree, p) == ActAll(Flatten(walBuf), p, View(durable, p)))
      && DirtyOk(dirty, Log())
      && JobsOk(jobs, disk.base, disk.generation, Flatten(disk.wal))
      && (!segments ==> disk.listed == [] && forall j :: j in jobs ==> j.LegacyJob?)
    }

    // ------------------------------------------------------------------------------------
    // Opening
    // ------------------------------------------------------------------------------------

    /** Read a snapshot file: its entries are set one by one. */
    static method LoadSnapshot(entries: Tree) returns (part: Tree)
      requires forall k :: k in entries ==> IsText(k)
      ensures part == Reload(entries)
    {
      var s := new Store();
      var keys := Sorted(entries.Keys);
      var i := 0;
      assert keys[0..] == keys;
      while i < |keys|
        invariant 0 <= i <= |keys|
        invariant s.Synced() && fresh(s)
        invariant SetEach(s.tree, keys[i..], entries) == Reload(entries)
      {
        assert keys[i] in keys && keys[i..][1..] == keys[i + 1..];
        s.Set(keys[i], entries[keys[i]]);
        i := i + 1;
      }
      part := s.tree;
    }

    static method MergeInto(s: Store, part: Tree)
      requires s.Synced() && forall k :: k in part ==> IsText(k)
      modifies s
      ensures s.Synced() && s.tree == MergeSegment(old(s.tree), part)
    {
      var keys := Sorted(part.Keys);
      var i := 0;
      ghost var result := MergeSegment(s.tree, part);
      assert keys[0..] == keys;
      while i < |keys|
        invariant 0 <= i <= |keys|
        invariant s.Synced()
        invariant MergeEach(s.tree, keys[i..], part) == result
      {
        assert keys[i] in keys && keys[i..][1..] == keys[i + 1..];
        if part[keys[i]] == TOMBSTONE {
          var _, _ := s.Delete(keys[i]);
        } else {
          s.RawInsert(keys[i], part[keys[i]]);
        }
        i := i + 1;
      }
    }

    static method ApplyRecord(s: Store, ops: Record)
      requires s.Synced() && OpsOk(ops)
      modifies s
      ensures s.Synced() && s.tree == ApplyAll(old(s.tree), ops)
    {
      ghost var result := ApplyAll(s.tree, ops);
      assert ops[0..] == ops;
      for i := 0 to |ops|
        invariant s.Synced() && ApplyAll(s.tree, ops[i..]) == result
      {
        assert ops[i..][1..] == ops[i + 1..] && ops[i] in ops;
        match ops[i]
        case Set(k, v) => s.Set(k, v);
        case Del(k) => var _, _ := s.Delete(k);
        case Clear => s.Clear();
      }
    }

    /** Merge every usable segment, in manifest order. */
    static method LoadListed(s: Store, d: Disk)
      requires s.Synced() && s.tree == map[] && Readable(d)
      modifies s
      ensures s.Synced() && s.tree == LoadSegments(map[], d, d.listed)
    {
      var i := 0;
      assert d.listed[0..] == d.listed;
      while i < |d.listed|
        invariant 0 <= i <= |d.listed|
        invariant s.Synced()
        invariant LoadSegments(s.tree, d, d.listed[i..]) == LoadSegments(map[], d, d.listed)
      {
        assert d.listed[i..][1..] == d.listed[i + 1..];
        var e := d.listed[i];
        if Usable(d, e) {
          MergeFile(s, d.files[e.name].entries);
        }
        i := i + 1;
      }
    }

    static method MergeFile(s: Store, entries: Tree)
      requires s.Synced() && EntriesOk(entries)
      modifies s
      ensures s.Synced() && s.tree == MergeSegment(old(s.tree), Reload(entries))
    {
      var part := LoadSnapshot(entries);
      ReloadKeys(entries);
      MergeInto(s, part);
    }

    static method LoadState(s: Store, d: Disk)
      requires s.Synced() && s.tree == map[] && Readable(d)
      modifies s
      ensures s.Synced() && s.tree == Recover(d)
    {
      LoadListed(s, d);
      var base := LoadSnapshot(d.base);
      ReloadKeys(d.base);
      s.RawInsertAll(base);
      ReplayLog(s, d.wal);
    }

    static method ReplayLog(s: Store, wal: seq<Record>)
      requires s.Synced() && OpsOk(Flatten(wal))
      modifies s
      ensures s.Synced() && s.tree == ApplyAll(old(s.tree), Flatten(wal))
    {
      ghost var result := ApplyAll(s.tree, Flatten(wal));
      var i := 0;
      assert wal[0..] == wal;
      while i < |wal|
        invariant 0 <= i <= |wal|
        invariant s.Synced() && OpsOk(Flatten(wal[i..]))
        invariant ApplyAll(s.tree, Flatten(wal[i..])) == result
      {
        assert wal[i..][1..] == wal[i + 1..];
        var rest := Flatten(wal[i + 1..]);
        assert Flatten(wal[i..]) == wal[i] + rest;
        assert forall op :: op in wal[i] || op in rest ==> op in wal[i] + rest;
        ApplyAllConcat(s.tree, wal[i], rest);
        ApplyRecord(s, wal[i]);
        i := i + 1;
      }
    }

    /** Open a database: segments in manifest order, then the base, then the log. If the disk held
        `m`, nothing undecided is shadowed and the log's deletes reach, the live store shows `m`. */
    constructor (d: Disk, segments: bool, buffering: bool, mergeEvery: nat, ghost m: Tree)
      requires Readable(d)
      ensures fresh(store) && store.Synced() && store.tree == Recover(d)
      ensures disk == d && walBuf == [] && dirty == {} && !dirtyAll && nextSegId == NextId(d.listed)
      ensures Holds(d, m) && NestedDecided(d) ==>
        (SameView(store.tree, m) <==> DeletesReach(LoadSnapshots(d), Flatten(d.wal)))
      ensures Holds(d, m) && NestedDecided(d) && SameView(store.tree, m) && (!segments ==> d.listed == []) ==> Valid()
    {
      this.segments, this.buffering, this.mergeEvery := segments, buffering, mergeEvery;
      disk, walBuf, dirty, dirtyAll, nextSegId := d, [], {}, false, NextId(d.listed);
      this.jobs := {};
      var s := new Store();
      store := s;
      new;
      LoadState(s, d);
      durable := s.tree;
      if Holds(d, m) && NestedDecided(d) {
        RecoveryDecided(d, m);
        if SameView(s.tree, m) { HoldsSame(d, m, s.tree); }
      }
    }

    // ------------------------------------------------------------------------------------
    // Logging
    // ------------------------------------------------------------------------------------

    method WalFlush()
      modifies this`disk, this`walBuf
      ensures disk == old(Flushed()) && walBuf == []
    {
      disk := disk.(wal := disk.wal + walBuf);
      walBuf := [];
    }

    /** Put one frame in the buffer, and flush unless frames are being buffered; a buffered
        engine flushes once enough bytes have gathered. */
    method WalAppend(r: Record)
      modifies this`disk, this`walBuf
      ensures disk == old(disk).(wal := disk.wal)
      ensures disk.wal + walBuf == old(disk).wal + old(walBuf) + [r]
      ensures disk.wal == old(disk).wal || walBuf == []
      ensures !buffering ==> walBuf == []
    {
      walBuf := walBuf + [r];
      if !buffering {
        WalFlush();
      } else if * {
        WalFlush();
      }
    }

    method Flush()
      requires Valid()
      modifies this`disk, this`walBuf, this`durable
      ensures Valid() && walBuf == [] && Log() == old(Log())
      ensures disk == old(Flushed()) && (old(OnlyDeltas(disk)) ==> OnlyDeltas(disk))
      ensures Holds(disk, store.tree)
    {
      if OnlyDeltas(disk) { FlushDeltas(disk, walBuf); }
      FlushHolds(disk, durable, walBuf, store.tree);
      JobsGrow(jobs, disk.base, disk.generation, Flatten(disk.wal), Flatten(walBuf));
      WalFlush();
      durable := store.tree;
      assert Log() == old(Log());
    }

    /** A frame `r` was logged and applied: the engine was valid on disk `d`, buffer `buf` and
        store `m`, and is valid again. */
    ghost method Settle(d: Disk, buf: seq<Record>, m: Tree, r: Record)
      requires store.Synced() && Consistent(store.tree)
      requires Consistent(durable) && Holds(d, durable) && OpsOk(Flatten(buf)) && OpsOk(r)
      requires forall p :: View(m, p) == ActAll(Flatten(buf), p, View(durable, p))
      requires forall p :: View(store.tree, p) == ActAll(r, p, View(m, p))
      requires disk == d.(wal := disk.wal) && disk.wal + walBuf == d.wal + buf + [r]
      requires (disk.wal == d.wal || walBuf == []) && (!buffering ==> walBuf == [])
      requires DirtyOk(dirty, Flatten(d.wal) + Flatten(buf) + r)
      requires JobsOk(jobs, d.base, d.generation, Flatten(d.wal))
      requires !segments ==> d.listed == [] && forall j :: j in jobs ==> j.LegacyJob?
      modifies this`durable
      ensures Valid() && Log() == Flatten(d.wal) + Flatten(buf) + r
      ensures OnlyDeltas(d) ==> OnlyDeltas(disk)
    {
      var records := buf + [r];
      FlattenAppend(buf, r);
      FramesMoved(d.wal, buf, r, disk.wal, walBuf);
      forall p ensures View(store.tree, p) == ActAll(Flatten(records), p, View(durable, p)) {
        ActAllConcat(Flatten(buf), r, p, View(durable, p));
      }
      if walBuf == [] {
        FlushHolds(d, durable, records, store.tree);
        if OnlyDeltas(d) { FlushDeltas(d, records); }
        JobsGrow(jobs, d.base, d.generation, Flatten(d.wal), Flatten(records));
        durable := store.tree;
      } else {
        assert disk == d;
      }
    }

    // ------------------------------------------------------------------------------------
    // Reads and writes
    // ------------------------------------------------------------------------------------

    /** A read may fold a branch of the live store; nothing is logged and no leaf changes. */
    method Get(key: Bytes) returns (r: Option<Json>)
      requires Valid() && KeyOk(key)
      modifies store
      ensures Valid()
      ensures r == GetFn(old(store.tree), key).1
      ensures forall p :: View(store.tree, p) == old(View(store.tree, p))
    {
      r := store.Get(key);
    }

    method Set(key: Bytes, value: Json)
      requires Valid() && KeyOk(key) && WellFormed(value)
      modifies this, store
      ensures Valid()
      ensures forall p :: View(store.tree, p) == Write(Split(key), value, p, old(View(store.tree, p)))
      ensures !buffering ==> Holds(disk, store.tree)
      ensures old(OnlyDeltas(disk)) ==> OnlyDeltas(disk)
    {
      ghost var op := Op.Set(key, value);
      DirtyGrows(dirty, Log(), [op]);
      LastOpDecides(Log(), op, key);
      ActOne(op);
      store.Set(key, value);
      dirty := dirty + {key};
      WalAppend([Op.Set(key, value)]);
      Settle(old(disk), old(walBuf), old(store.tree), [op]);
    }

    /** A delete that removes nothing is not logged. */
    method Delete(key: Bytes) returns (removed: bool)
      requires Valid() && KeyOk(key)
      modifies this, store
      ensures Valid()
      ensures removed == DeleteFn(old(store.tree), key).1
      ensures forall p :: View(store.tree, p) == Kill(Split(key), p, old(View(store.tree, p)))
      ensures !buffering ==> Holds(disk, store.tree)
      ensures old(OnlyDeltas(disk)) ==> OnlyDeltas(disk)
    {
      ghost var op := Op.Del(key);
      DirtyGrows(dirty, Log(), [op]);
      LastOpDecides(Log(), op, key);
      ActOne(op);
      var _, any := store.Delete(key);
      removed := any;
      if any {
        dirty := dirty + {key};
        WalAppend([Op.Del(key)]);
        Settle(old(disk), old(walBuf), old(store.tree), [op]);
      }
    }

    method Clear()
      requires Valid()
      modifies this, store
      ensures Valid()
      ensures forall p :: View(store.tree, p).None?
      ensures !buffering ==> Holds(disk, store.tree)
      ensures old(OnlyDeltas(disk)) ==> OnlyDeltas(disk)
    {
      ghost var op := Op.Clear;
      DirtyGrows(dirty, Log(), [op]);
      ActOne(op);
      store.Clear();
      dirty := {};
      dirtyAll := true;
      WalAppend([Op.Clear]);
      Settle(old(disk), old(walBuf), old(store.tree), [op]);
    }

    /** A batch is one frame, logged before it is applied. The flag of an operation says that it
        was a set, or a delete of a key stored at that moment. */
    method Batch(ops: seq<Op>) returns (flags: seq<bool>)
      requires Valid() && OpsOk(ops)
      modifies this, store
      ensures Valid()
      ensures forall p :: View(store.tree, p) == ActAll(ops, p, old(View(store.tree, p)))
      ensures flags == BatchFlags(old(store.tree), ops)
      ensures !buffering ==> Holds(disk, store.tree)
      ensures old(OnlyDeltas(disk)) ==> OnlyDeltas(disk)
    {
      ghost var m, log := store.tree, Log();
      DirtyGrows(dirty, log, ops);
      ApplyAllView(m, ops);
      WalAppend(ops);
      flags := ApplyBatch(ops);
      forall k | k in OpKeys(ops) ensures KeyOk(k) && DecidedBelow(log + ops, k) {
        var i :| 0 <= i < |ops| && !ops[i].Clear? && ops[i].key == k;
        TouchedDecides(log, ops, i, k);
        assert ops[i] in ops;
      }
      Settle(old(disk), old(walBuf), m, ops);
    }

    method ApplyBatch(ops: seq<Op>) returns (flags: seq<bool>)
      requires store.Synced() && OpsOk(ops)
      modifies store, this`dirty, this`dirtyAll
      ensures store.Synced() && store.tree == ApplyAll(old(store.tree), ops)
      ensures flags == BatchFlags(old(store.tree), ops)
      ensures dirty <= old(dirty) + OpKeys(ops)
    {
      ghost var m, touched := store.tree, dirty + OpKeys(ops);
      flags := [];
      assert ops[0..] == ops && [] + BatchFlags(m, ops) == BatchFlags(m, ops);
      for i := 0 to |ops|
        invariant store.Synced() && dirty <= touched
        invariant ApplyAll(store.tree, ops[i..]) == ApplyAll(m, ops)
        invariant flags + BatchFlags(store.tree, ops[i..]) == BatchFlags(m, ops)
      {
        BatchNext(store.tree, ops, i, flags);
        var flag := ApplyOp(ops[i]);
        flags := flags + [flag];
      }
      assert flags + [] == flags;
    }

    method ApplyOp(op: Op) returns (flag: bool)
      requires store.Synced() && OpOk(op)
      modifies store, this`dirty, this`dirtyAll
      ensures store.Synced() && store.tree == Apply(old(store.tree), op)
      ensures flag == OpFlag(old(store.tree), op)
      ensures dirty == if op.Clear? then {} else old(dirty) + {op.key}
    {
      match op {
        case Set(k, v) =>
          store.Set(k, v);
          dirty := dirty + {k};
          flag := true;
        case Del(k) =>
          var exact, _ := store.Delete(k);
          dirty := dirty + {k};
          flag := exact;
        case Clear =>
          store.Clear();
          dirty := {};
          dirtyAll := true;
          flag := false;
      }
    }

    // ------------------------------------------------------------------------------------
    // Compaction
    // ------------------------------------------------------------------------------------

    /** Write a new base snapshot and reset the log: the two durable steps of a legacy
        compaction, which is also the first half of a full merge. */
    method SnapshotAndReset() returns (ghost steps: seq<DiskStep>)
      requires Valid() && walBuf == [] && Holds(disk, store.tree)
      modifies this`disk, this`dirty, this`dirtyAll
      ensures steps == LegacySteps(store.tree) && disk == AfterAll(old(disk), steps)
      ensures disk == old(disk).(base := store.tree, wal := [])
      ensures Safe(old(disk), steps, store.tree, 2, 3) && InMergeWindow(disk, store.tree)
      ensures dirty == {} && !dirtyAll
    {
      ghost var d := disk;
      SafeStart(d, store.tree, 2, 3);
      SnapshotHolds(disk, store.tree);
      disk := disk.(base := store.tree);
      SafeMore(d, [], Rename(store.tree), store.tree, 2, 3);
      dirty, dirtyAll := {}, false;
      disk := disk.(wal := []);
      steps := LegacySteps(store.tree);
      assert [] + [Rename(store.tree)] == [Rename(store.tree)];
      assert [Rename(store.tree)] + [Reset] == steps;
      SafeMore(d, [Rename(store.tree)], Reset, store.tree, 2, 3);
    }

    /** What a segment records for a key; a key with nothing at it becomes a tombstone. */
    static method ReadForSegment(store: Store, key: Bytes) returns (v: Json)
      requires store.Synced() && Consistent(store.tree) && KeyOk(key)
      modifies store
      ensures store.Synced() && Consistent(store.tree) && SegmentValueOk(v)
      ensures SameView(old(store.tree), store.tree)
      ensures Records(old(store.tree), key, v)
    {
      GetWellFormed(store.tree, key);
      ReadRecords(store.tree, key);
      var r := store.Get(key);
      v := if r.Some? then r.value else TOMBSTONE;
    }

    /** Read every dirty key. */
    static method CollectDirty(store: Store, dirty: set<Bytes>) returns (scratch: Tree)
      requires store.Synced() && Consistent(store.tree) && forall k :: k in dirty ==> KeyOk(k)
      modifies store
      ensures store.Synced() && Collecting(old(store.tree), store.tree, dirty, {}, scratch)
    {
      scratch := map[];
      ghost var m := store.tree;
      var todo := dirty;
      while todo != {}
        invariant store.Synced() && Collecting(m, store.tree, dirty, todo, scratch)
        invariant todo <= dirty
        decreases |todo|
      {
        var key :| key in todo;
        ghost var before := store.tree;
        var v := ReadForSegment(store, key);
        CollectOne(m, before, store.tree, dirty, todo, scratch, key, v);
        scratch := scratch[key := v];
        todo := todo - {key};
      }
    }

    /** The disk once the log buffer is out. */
    function Flushed(): Disk
      reads this
    {
      disk.(wal := disk.wal + walBuf)
    }

    /** Whether a compaction rewrites everything. */
    predicate FullMergeDue(count: nat)
      reads this
    {
      dirtyAll || (disk.listed == [] && |dirty| >= count) || |disk.listed| >= mergeEvery
    }

    /** Compaction once the log buffer is out. */
    method CompactFlushed(count: nat, crc: nat) returns (ghost steps: seq<DiskStep>, ghost scratch: Tree)
      requires Valid() && walBuf == [] && Holds(disk, store.tree)
      modifies this, store
      ensures Valid() && walBuf == [] && Holds(disk, store.tree)
      ensures SameView(old(store.tree), store.tree) && disk == AfterAll(old(disk), steps)
      ensures !segments ==> steps == LegacySteps(store.tree) && Safe(old(disk), steps, store.tree, 0, 0)
      ensures segments && old(FullMergeDue(count)) ==>
        steps == MergeSteps(old(disk), store.tree) && Safe(old(disk), steps, store.tree, 2, |steps| - 1)
      ensures segments && !old(FullMergeDue(count)) ==>
        && steps == DeltaSteps(old(disk), old(nextSegId), SegmentFile(scratch, crc))
        && scratch.Keys == old(dirty) && AllRecorded(store.tree, scratch)
        && Safe(old(disk), steps, store.tree, 0, 0)
        && (old(OnlyDeltas(disk)) ==> forall n :: 0 <= n <= 2 ==> OnlyDeltas(AfterAll(old(disk), steps[..n])))
      ensures old(OnlyDeltas(disk)) ==> OnlyDeltas(disk)
    {
      scratch := map[];
      if !segments {
        steps := Legacy();
      } else if FullMergeDue(count) {
        steps := FullMerge();
      } else {
        steps, scratch := DeltaCompact(crc);
      }
    }

    /** Synchronous compaction. `count` is the number of leaves and `crc` the checksum of the segment
        written, if one is. The log buffer goes out first; every disk a crash can leave after that holds
        the store, except between the reset and the new manifest of a full merge. */
    method Compact(count: nat, crc: nat) returns (ghost steps: seq<DiskStep>, ghost scratch: Tree)
      requires Valid()
      modifies this, store
      ensures Valid() && walBuf == []
      ensures SameView(old(store.tree), store.tree) && Holds(disk, store.tree)
      ensures disk == AfterAll(old(Flushed()), steps)
      ensures !segments ==> steps == LegacySteps(store.tree) && Safe(old(Flushed()), steps, store.tree, 0, 0)
      ensures segments && old(FullMergeDue(count)) ==>
        steps == MergeSteps(old(Flushed()), store.tree) && Safe(old(Flushed()), steps, store.tree, 2, |steps| - 1)
      ensures segments && !old(FullMergeDue(count)) ==>
        && steps == DeltaSteps(old(Flushed()), old(nextSegId), SegmentFile(scratch, crc))
        && scratch.Keys == old(dirty) && AllRecorded(store.tree, scratch)
        && Safe(old(Flushed()), steps, store.tree, 0, 0)
        && (old(OnlyDeltas(disk)) ==> forall n :: 0 <= n <= 2 ==> OnlyDeltas(AfterAll(old(Flushed()), steps[..n])))
      ensures old(OnlyDeltas(disk)) ==> OnlyDeltas(disk)
    {
      Flush();
      steps, scratch := CompactFlushed(count, crc);
    }


    method Legacy() returns (ghost steps: seq<DiskStep>)
      requires Valid() && walBuf == [] && Holds(disk, store.tree) && !segments
      modifies this
      ensures Valid() && walBuf == [] && Holds(disk, store.tree)
      ensures steps == LegacySteps(store.tree) && disk == AfterAll(old(disk), steps)
      ensures Safe(old(disk), steps, store.tree, 0, 0) && disk.listed == []
    {
      ghost var d := disk;
      steps := SnapshotAndReset();
      ResetHolds(disk, store.tree);
      durable := store.tree;
      assert steps[..2] == steps;
      forall n | 0 <= n <= 2 ensures CrashState(AfterAll(d, steps[..n]), store.tree, false) {
        assert CrashState(AfterAll(d, steps[..n]), store.tree, 2 <= n < 3);
      }
    }

    /** A full merge: base and log first, then the segments and the manifest, then the log again. */
    method FullMerge() returns (ghost steps: seq<DiskStep>)
      requires Valid() && walBuf == [] && Holds(disk, store.tree) && segments
      modifies this
      ensures Valid() && walBuf == [] && Holds(disk, store.tree)
      ensures steps == MergeSteps(old(disk), store.tree) && disk == AfterAll(old(disk), steps)
      ensures Safe(old(disk), steps, store.tree, 2, |steps| - 1) && disk.listed == []
    {
      ghost var d := disk;
      ghost var hi := |disk.listed| + 3;
      JobsStale(jobs, d.base, store.tree, d.generation, Flatten(d.wal), []);
      steps := SnapshotAndReset();
      WidenWindow(d, steps, store.tree, 2, 3, hi);
      steps := RemoveListed(d, steps, store.tree, 2, hi);
      steps := ForgetSegments(d, steps, hi);
      durable := store.tree;
      assert Log() == [] && JobsOk(jobs, disk.base, disk.generation, []);
    }

    /** The end of a full merge: the manifest lists nothing, and the log is reset again. */
    method ForgetSegments(ghost d: Disk, ghost before: seq<DiskStep>, ghost hi: nat)
      returns (ghost steps: seq<DiskStep>)
      requires Consistent(store.tree) && disk == AfterAll(d, before) && InMergeWindow(disk, store.tree)
      requires Safe(d, before, store.tree, 2, hi) && |before| + 1 == hi
      modifies this`disk
      ensures steps == before + [WriteManifest(old(disk).generation + 1, [])] + [Reset]
      ensures disk == old(disk).(generation := old(disk).generation + 1, listed := [])
      ensures disk == AfterAll(d, steps) && Safe(d, steps, store.tree, 2, hi) && Holds(disk, store.tree)
    {
      ghost var s := WriteManifest(disk.generation + 1, []);
      disk := disk.(generation := disk.generation + 1, listed := []);
      ResetHolds(disk, store.tree);
      assert disk.(wal := []) == disk;
      SafeMore(d, before, s, store.tree, 2, hi);
      disk := disk.(wal := []);
      SafeMore(d, before + [s], Reset, store.tree, 2, hi);
      steps := before + [s] + [Reset];
    }

    /** Remove the files of the listed segments; the crash state stays what it was. */
    method RemoveListed(ghost d: Disk, ghost before: seq<DiskStep>, ghost m: Tree, ghost lo: nat, ghost hi: nat)
      returns (ghost steps: seq<DiskStep>)
      requires disk == AfterAll(d, before) && Safe(d, before, m, lo, hi) && CrashState(disk, m, lo < hi)
      requires lo < hi ==> lo <= |before| && |before| + |disk.listed| < hi
      modifies this`disk
      ensures steps == before + Removals(old(disk).listed) && |steps| == |before| + |old(disk).listed|
      ensures disk == AfterAll(d, steps) && Safe(d, steps, m, lo, hi) && CrashState(disk, m, lo < hi)
      ensures disk == old(disk).(files := disk.files)
      ensures forall n :: n in disk.files ==> n in old(disk).files && disk.files[n] == old(disk).files[n]
    {
      var doomed := disk.listed;
      steps := before;
      for i := 0 to |doomed|
        invariant steps == before + Removals(doomed[..i]) && |steps| == |before| + i
        invariant disk == AfterAll(d, steps) && Safe(d, steps, m, lo, hi) && CrashState(disk, m, lo < hi)
        invariant disk == old(disk).(files := disk.files)
        invariant forall n :: n in disk.files ==> n in old(disk).files && disk.files[n] == old(disk).files[n]
        modifies this`disk
      {
        assert doomed[..i + 1][..i] == doomed[..i];
        SafeRemoval(d, steps, doomed[i].name, m, lo, hi);
        disk := disk.(files := disk.files - {doomed[i].name});
        steps := steps + [RemoveFile(doomed[i].name)];
      }
      assert doomed[..|doomed|] == doomed;
    }

    /** Write what the store shows at the dirty keys as a segment, and list it. */
    method DeltaCompact(crc: nat) returns (ghost steps: seq<DiskStep>, ghost scratch: Tree)
      requires Valid() && walBuf == [] && Holds(disk, store.tree) && segments
      modifies this, store
      ensures Valid() && walBuf == [] && Holds(disk, store.tree)
      ensures SameView(old(store.tree), store.tree)
      ensures scratch.Keys == old(dirty) && AllRecorded(store.tree, scratch)
      ensures steps == DeltaSteps(old(disk), old(nextSegId), SegmentFile(scratch, crc))
      ensures disk == AfterAll(old(disk), steps) && Safe(old(disk), steps, store.tree, 0, 0)
      ensures old(OnlyDeltas(disk)) ==> forall n :: 0 <= n <= 2 ==> OnlyDeltas(AfterAll(old(disk), steps[..n]))
      ensures old(OnlyDeltas(disk)) ==> OnlyDeltas(disk)
    {
      assert Log() == Flatten(disk.wal);
      ghost var m := store.tree;
      var entries := CollectDirty(store, dirty);
      scratch := entries;
      forall k | k in scratch ensures Records(store.tree, k, scratch[k]) {
        RecordsSame(store.tree, m, k, scratch[k]);
      }
      HoldsSame(disk, m, store.tree);
      durable := store.tree;
      TouchedHarmless(scratch, disk.base, Flatten(disk.wal));
      ghost var d, id := disk, nextSegId;
      steps := WriteSegment(SegmentFile(entries, crc));
      if OnlyDeltas(d) {
        DeltaStepsOnly(d, id, SegmentFile(entries, crc));
        assert steps[..2] == steps;
      }
      dirty, dirtyAll := {}, false;
    }

    /** Write a segment file; nothing lists it yet. */
    method PutFile(name: SegmentName, file: SegmentFile) returns (ghost steps: seq<DiskStep>)
      requires Holds(disk, durable) && Harmless(file.entries, disk.base, Flatten(disk.wal))
      modifies this`disk
      ensures steps == [WriteFile(name, file)]
      ensures disk == old(disk).(files := old(disk).files[name := file])
      ensures disk == AfterAll(old(disk), steps) && Safe(old(disk), steps, durable, 0, 0) && Holds(disk, durable)
    {
      ghost var d := disk;
      SafeStart(d, durable, 0, 0);
      WriteFileHolds(disk, durable, name, file);
      SafeMore(d, [], WriteFile(name, file), durable, 0, 0);
      disk := disk.(files := disk.files[name := file]);
      steps := [] + [WriteFile(name, file)];
    }

    /** Write the manifest; what it lists anew must be harmless. */
    method PublishManifest(ghost d: Disk, ghost before: seq<DiskStep>, generation: nat, listed: seq<ManifestEntry>)
      returns (ghost steps: seq<DiskStep>)
      requires disk == AfterAll(d, before) && Safe(d, before, durable, 0, 0) && Holds(disk, durable)
      requires forall e :: e in listed && e !in disk.listed && Usable(disk, e) ==>
        Harmless(disk.files[e.name].entries, disk.base, Flatten(disk.wal))
      modifies this`disk
      ensures steps == before + [WriteManifest(generation, listed)]
      ensures disk == old(disk).(generation := generation, listed := listed)
      ensures disk == AfterAll(d, steps) && Safe(d, steps, durable, 0, 0) && Holds(disk, durable)
    {
      ListHolds(disk, durable, generation, listed);
      SafeMore(d, before, WriteManifest(generation, listed), durable, 0, 0);
      disk := disk.(generation := generation, listed := listed);
      steps := before + [WriteManifest(generation, listed)];
    }

    /** Write a delta segment and list it. */
    method WriteSegment(file: SegmentFile) returns (ghost steps: seq<DiskStep>)
      requires Holds(disk, durable) && Harmless(file.entries, disk.base, Flatten(disk.wal))
      modifies this`disk, this`nextSegId
      ensures steps == DeltaSteps(old(disk), old(nextSegId), file)
      ensures disk == AfterAll(old(disk), steps) && Safe(old(disk), steps, durable, 0, 0)
      ensures disk == old(disk).(files := disk.files, listed := disk.listed) && Holds(disk, durable)
    {
      ghost var d := disk;
      var name := Delta(nextSegId);
      steps := PutFile(name, file);
      nextSegId := nextSegId + 1;
      steps := PublishManifest(d, steps, disk.generation, disk.listed + [ManifestEntry(name, file.crc)]);
    }

    method MakeJob(count: nat) returns (job: CompactJob)
      requires Valid() && walBuf == [] && Holds(disk, store.tree)
      ensures job == if FullMergeDue(count) then FullJob(disk.generation + 1, store.tree)
        else DeltaJob(disk.generation + 1, nextSegId, Marked(store.tree, dirty))
      ensures JobOk(job, disk.base, Flatten(disk.wal))
    {
      assert Log() == Flatten(disk.wal);
      if FullMergeDue(count) {
        LiveHarmless(disk, store.tree);
        job := FullJob(disk.generation + 1, store.tree);
      } else {
        var scratch: Tree := map k | k in dirty :: if k in store.hash then store.hash[k] else TOMBSTONE;
        TouchedHarmless(scratch, disk.base, Flatten(disk.wal));
        job := DeltaJob(disk.generation + 1, nextSegId, scratch);
      }
    }

    /** First phase of asynchronous compaction: the job takes the whole store, or the entry of each dirty
        key that has one. */
    method PrepareCompact(count: nat) returns (job: CompactJob)
      requires Valid()
      modifies this
      ensures Valid() && walBuf == [] && jobs == old(jobs) + {job}
      ensures disk == old(Flushed()) && Holds(disk, store.tree)
      ensures job == if !segments then LegacyJob
        else if old(FullMergeDue(count)) then FullJob(disk.generation + 1, store.tree)
        else DeltaJob(disk.generation + 1, nextSegId, Marked(store.tree, old(dirty)))
      ensures dirty == if segments then {} else old(dirty)
    {
      Flush();
      if !segments {
        jobs := jobs + {LegacyJob};
        return LegacyJob;
      }
      job := MakeJob(count);
      jobs := jobs + {job};
      dirty, dirtyAll := {}, false;
    }

    /** Last phase: commit a computed job, unless another commit overtook it. */
    method FinishCompact(done: CompactDone, ghost job: CompactJob, ghost crc: nat)
      returns (outcome: Outcome, ghost steps: seq<DiskStep>)
      requires Valid() && job in jobs && done == Compute(job, crc)
      modifies this
      ensures Valid() && durable == old(durable)
      ensures outcome == if job.LegacyJob? then LegacyOutcome
        else if job.generation != old(disk).generation + 1 then Stale else Committed
      ensures steps == if !outcome.Committed? then []
        else CommitSteps(old(disk), done.full, done.generation, done.name, done.file)
      ensures disk == AfterAll(old(disk), steps) && Safe(old(disk), steps, durable, 0, 0)
      ensures old(OnlyDeltas(disk)) && !job.FullJob? ==>
        OnlyDeltas(disk) && forall n :: 0 <= n <= |steps| ==> OnlyDeltas(AfterAll(old(disk), steps[..n]))
    {
      steps := [];
      SafeStart(disk, durable, 0, 0);
      if done.LegacyDone? {
        return LegacyOutcome, steps;
      }
      if done.generation != disk.generation + 1 {
        return Stale, steps;
      }
      if OnlyDeltas(disk) && job.DeltaJob? { CommitStepsOnly(disk, done.generation, done.name, done.file); }
      steps := CommitSegment(done.full, done.generation, done.name, done.file);
      assert steps[..|steps|] == steps;
      nextSegId := if nextSegId > done.segId + 1 then nextSegId else done.segId + 1;
      outcome := Committed;
    }

    method CommitSegment(full: bool, generation: nat, name: SegmentName, file: SegmentFile)
      returns (ghost steps: seq<DiskStep>)
      requires Holds(disk, durable) && Harmless(file.entries, disk.base, Flatten(disk.wal))
      modifies this`disk
      ensures steps == CommitSteps(old(disk), full, generation, name, file)
      ensures disk == AfterAll(old(disk), steps) && Safe(old(disk), steps, durable, 0, 0) && Holds(disk, durable)
      ensures disk == old(disk).(generation := generation, files := disk.files, listed := disk.listed)
    {
      ghost var d := disk;
      steps := PutFile(name, file);
      if full {
        steps := RemoveListed(d, steps, durable, 0, 0);
      }
      var listed := (if full then [] else disk.listed) + [ManifestEntry(name, file.crc)];
      steps := PublishManifest(d, steps, generation, listed);
    }

    // ------------------------------------------------------------------------------------
    // Crashing
    // ------------------------------------------------------------------------------------

    /** Any disk that holds the durable store, opened after a crash, gives a prefix-free store with the
        durable leaves exactly when the replay leaves no key below another and whatever slips is decided
        later. If nothing undecided is shadowed, only missed deletes matter. Delta segments shadow nothing
        undecided; without segments there is nothing to shadow. */
    lemma CrashRecovers(d: Disk)
      requires Valid() && Holds(d, durable)
      ensures BuriedDecided(LoadSnapshots(d), Flatten(d.wal)) ==>
        (Consistent(Recover(d)) && SameView(Recover(d), durable) <==>
          PrefixFree(Recover(d).Keys) && SlipsReach(LoadSnapshots(d), Flatten(d.wal)))
      ensures NestedDecided(d) || OnlyDeltas(d) ==>
        && Consistent(Recover(d))
        && (SameView(Recover(d), durable) <==> DeletesReach(LoadSnapshots(d), Flatten(d.wal)))
        && (ShadowsMadeGood(LoadSnapshots(d), Flatten(d.wal)) ==> SameView(Recover(d), durable))
      ensures d.listed == [] ==> Consistent(Recover(d)) && SameView(Recover(d), durable)
      ensures walBuf == [] ==> SameView(store.tree, durable)
    {
      if BuriedDecided(LoadSnapshots(d), Flatten(d.wal)) { RecoveryExact(d, durable); }
      if d.listed == [] { Unsegmented(d); }
      if OnlyDeltas(d) { DeltasNested(d); }
      if NestedDecided(d) {
        RecoveryDecided(d, durable);
        if ShadowsMadeGood(LoadSnapshots(d), Flatten(d.wal)) { RecoveryCorrect(d, durable); }
      }
    }
  }
}
