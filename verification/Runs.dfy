/** Whole runs of the unsegmented engine: any interleaving of writes, reads, flushes, compaction
    steps and crashes recovers exactly the operations that were flushed. */
module Runs {
  import opened Bytes
  import opened Json
  import opened StoreSpec
  import opened StoreView
  import opened Effects
  import opened Recovery
  import W = Wal
  import Codec

  /** One durable or in-memory step. `Rename` puts the live store in place as the new base and
      `Reset` empties the log after it; a crash can fall between any two steps. */
  datatype Event = Write(record: Record) | Read(key: Bytes) | Flush | Rename | Reset | Crash

  /** `history` is every operation flushed since the database was created. */
  datatype State = State(disk: Disk, live: Tree, buffer: seq<Record>, history: seq<Op>)

  const CREATED: State := State(Disk(map[], [], map[], 0, []), map[], [], [])

  ghost predicate Enabled(s: State, e: Event) {
    match e
    case Write(r) => OpsOk(r)
    case Read(k) => KeyOk(k)
    case Flush => true
    case Rename => s.buffer == []
    case Reset => s.buffer == [] && s.disk.base == s.live
    case Crash => true
  }

  function Step(s: State, e: Event): State {
    match e
    case Write(r) => s.(live := ApplyAll(s.live, r), buffer := s.buffer + [r])
    case Read(k) => s.(live := GetFn(s.live, k).0)
    case Flush =>
      s.(disk := s.disk.(wal := s.disk.wal + s.buffer), buffer := [], history := s.history + Flatten(s.buffer))
    case Rename => s.(disk := s.disk.(base := s.live))
    case Reset => s.(disk := s.disk.(wal := []))
    case Crash => s.(live := Recover(s.disk), buffer := [])
  }

  function Run(s: State, es: seq<Event>): State
    decreases |es|
  {
    if es == [] then s else Run(Step(s, es[0]), es[1..])
  }

  ghost predicate Runnable(s: State, es: seq<Event>)
    decreases |es|
  {
    es != [] ==> Enabled(s, es[0]) && Runnable(Step(s, es[0]), es[1..])
  }

  /** The live store is the flushed history with the buffered frames applied, path by path. */
  ghost predicate LiveShows(s: State) {
    && Consistent(s.live) && OpsOk(Flatten(s.buffer))
    && forall p :: View(s.live, p) == ActAll(Flatten(s.buffer), p, ActAll(s.history, p, None))
  }

  /** Base plus log is the flushed history. */
  ghost predicate DiskShows(s: State) {
    && DiskOk(s.disk) && s.disk.listed == []
    && forall p :: ActAll(Flatten(s.disk.wal), p, View(s.disk.base, p)) == ActAll(s.history, p, None)
  }

  ghost predicate Inv(s: State) { LiveShows(s) && DiskShows(s) }

  lemma CreatedInv()
    ensures Inv(CREATED)
  {
  }

  lemma WriteKeeps(s: State, r: Record)
    requires Inv(s) && OpsOk(r)
    ensures Inv(Step(s, Event.Write(r)))
  {
    var s' := Step(s, Event.Write(r));
    ApplyAllView(s.live, r);
    FlattenAppend(s.buffer, r);
    forall p ensures View(s'.live, p) == ActAll(Flatten(s'.buffer), p, ActAll(s.history, p, None)) {
      ActAllConcat(Flatten(s.buffer), r, p, ActAll(s.history, p, None));
    }
  }

  lemma ReadKeeps(s: State, k: Bytes)
    requires Inv(s) && KeyOk(k)
    ensures Inv(Step(s, Read(k)))
  {
    GetConsistent(s.live, k);
    forall p { GetView(s.live, k, p); }
  }

  lemma FlushKeeps(s: State)
    requires Inv(s)
    ensures Inv(Step(s, Flush))
  {
    var s' := Step(s, Flush);
    var a, b := Flatten(s.disk.wal), Flatten(s.buffer);
    FlattenConcat(s.disk.wal, s.buffer);
    forall p ensures ActAll(Flatten(s'.disk.wal), p, View(s.disk.base, p)) == ActAll(s'.history, p, None) {
      ActAllConcat(a, b, p, View(s.disk.base, p));
      ActAllConcat(s.history, b, p, None);
    }
    forall p ensures View(s'.live, p) == ActAll([], p, ActAll(s'.history, p, None)) {
      ActAllConcat(s.history, b, p, None);
    }
  }

  /** Replaying the log over the new base changes nothing. */
  lemma RenameKeeps(s: State)
    requires Inv(s) && s.buffer == []
    ensures Inv(Step(s, Rename))
  {
    var ops := Flatten(s.disk.wal);
    forall p ensures ActAll(ops, p, View(s.live, p)) == ActAll(s.history, p, None) {
      ReplayIdempotent(ops, p, View(s.disk.base, p));
      assert View(s.live, p) == ActAll([], p, ActAll(s.history, p, None));
    }
  }

  lemma ResetKeeps(s: State)
    requires Inv(s) && s.buffer == [] && s.disk.base == s.live
    ensures Inv(Step(s, Reset))
  {
    forall p ensures ActAll([], p, View(s.disk.base, p)) == ActAll(s.history, p, None) {
      assert View(s.live, p) == ActAll([], p, ActAll(s.history, p, None));
    }
  }

  /** Recovery rebuilds the flushed history. */
  lemma Recovers(s: State)
    requires DiskShows(s)
    ensures Consistent(Recover(s.disk))
    ensures forall p :: View(Recover(s.disk), p) == ActAll(s.history, p, None)
  {
    Unsegmented(s.disk);
    ApplyAllView(LoadSnapshots(s.disk), Flatten(s.disk.wal));
  }

  lemma CrashKeeps(s: State)
    requires Inv(s)
    ensures Inv(Step(s, Crash))
  {
    Recovers(s);
  }

  lemma StepKeeps(s: State, e: Event)
    requires Inv(s) && Enabled(s, e)
    ensures Inv(Step(s, e))
  {
    match e
    case Write(r) => WriteKeeps(s, r);
    case Read(k) => ReadKeeps(s, k);
    case Flush => FlushKeeps(s);
    case Rename => RenameKeeps(s);
    case Reset => ResetKeeps(s);
    case Crash => CrashKeeps(s);
  }

  lemma {:induction false} RunKeeps(s: State, es: seq<Event>)
    requires Inv(s) && Runnable(s, es)
    ensures Inv(Run(s, es))
    decreases |es|
  {
    if es != [] {
      StepKeeps(s, es[0]);
      RunKeeps(Step(s, es[0]), es[1..]);
    }
  }

  /** After any run, with crashes and half-finished compactions anywhere in it, opening the disk
      shows what replaying every flushed operation over an empty database would show; the live
      store shows that plus the frames still buffered. */
  lemma RunRecovers(es: seq<Event>)
    requires Runnable(CREATED, es)
    ensures var s := Run(CREATED, es);
      && (forall p :: View(Recover(s.disk), p) == ActAll(s.history, p, None))
      && (forall p :: View(s.live, p) == ActAll(Flatten(s.buffer), p, View(Recover(s.disk), p)))
  {
    CreatedInv();
    RunKeeps(CREATED, es);
    Recovers(Run(CREATED, es));
  }

  // --------------------------------------------------------------------------------------
  // From bytes to operations
  // --------------------------------------------------------------------------------------

  /** A logged operation with its value parsed. */
  function Parsed(op: W.WalOp, parse: Bytes -> Json): Op {
    match op
    case Set(k, v) => Op.Set(k, parse(v))
    case Del(k) => Op.Del(k)
    case Clear => Op.Clear
  }

  function ParsedAll(ops: seq<W.WalOp>, parse: Bytes -> Json): seq<Op> {
    if ops == [] then [] else [Parsed(ops[0], parse)] + ParsedAll(ops[1..], parse)
  }

  function RecordOf(f: W.Frame, parse: Bytes -> Json): Record {
    match f
    case Single(op) => [Parsed(op, parse)]
    case Batch(ops) => ParsedAll(ops, parse)
  }

  function RecordsOf(fs: seq<W.Frame>, parse: Bytes -> Json): (r: seq<Record>)
    ensures |r| == |fs| && forall i :: 0 <= i < |fs| ==> r[i] == RecordOf(fs[i], parse)
  {
    if fs == [] then [] else [RecordOf(fs[0], parse)] + RecordsOf(fs[1..], parse)
  }

  lemma FlattenOk(records: seq<Record>)
    requires forall r :: r in records ==> OpsOk(r)
    ensures OpsOk(Flatten(records))
    decreases |records|
  {
    if records != [] {
      assert records[0] in records;
      FlattenOk(records[1..]);
    }
  }

  /** Opening a log file torn at any byte shows the base with a whole number of frames applied:
      those that lie wholly before the tear, each batch entirely or not at all. */
  lemma TornLogRecovers(base: Tree, generation: nat, baseLsn: nat, fs: seq<W.Stamped>, n: nat, crc: W.Crc,
                        parse: Bytes -> Json, decode: (byte, Bytes) -> Option<W.Frame>)
    requires Consistent(base) && W.AllFit(fs) && generation < Width(8) && baseLsn < Width(8)
    requires W.HEADER_LENGTH <= n <= |W.LogFile(generation, baseLsn, fs, crc)|
    requires forall f :: f in fs ==> OpsOk(RecordOf(f.frame, parse))
    ensures var read := RecordsOf(W.ReplayLog(W.LogFile(generation, baseLsn, fs, crc)[..n], crc, decode).frames, parse);
      var whole := RecordsOf(W.FramesOf(fs), parse)[..Codec.Within(fs, n - W.HEADER_LENGTH, W.Encoder(crc))];
      forall p :: View(ApplyAll(base, Flatten(read)), p) == ActAll(Flatten(whole), p, View(base, p))
  {
    var w := Codec.Within(fs, n - W.HEADER_LENGTH, W.Encoder(crc));
    var all := RecordsOf(W.FramesOf(fs), parse);
    W.LogCut(generation, baseLsn, fs, n, crc, decode);
    assert RecordsOf(W.FramesOf(fs[..w]), parse) == all[..w];
    forall r | r in all[..w] ensures OpsOk(r) {
      var i :| 0 <= i < w && all[i] == r;
      assert fs[i] in fs;
    }
    FlattenOk(all[..w]);
    ApplyAllView(base, Flatten(all[..w]));
  }
}
