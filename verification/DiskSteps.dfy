/** The durable steps an engine makes, and what a crash between any two of them leaves on disk. */
module DiskSteps {
  import opened StoreSpec
  import opened Effects
  import opened Recovery

  /** One write that a crash sees whole or not at all; how much of an append survives is the business
      of the log format. */
  datatype DiskStep =
    | Append(records: seq<Record>)
    | Rename(base: Tree)
    | Reset
    | WriteFile(name: SegmentName, file: SegmentFile)
    | RemoveFile(name: SegmentName)
    | WriteManifest(generation: nat, listed: seq<ManifestEntry>)

  function After(d: Disk, s: DiskStep): Disk {
    match s
    case Append(records) => d.(wal := d.wal + records)
    case Rename(base) => d.(base := base)
    case Reset => d.(wal := [])
    case WriteFile(name, file) => d.(files := d.files[name := file])
    case RemoveFile(name) => d.(files := d.files - {name})
    case WriteManifest(generation, listed) => d.(generation := generation, listed := listed)
  }

  function AfterAll(d: Disk, steps: seq<DiskStep>): Disk {
    if steps == [] then d else After(AfterAll(d, steps[..|steps| - 1]), steps[|steps| - 1])
  }

  lemma AfterMore(d: Disk, steps: seq<DiskStep>, s: DiskStep)
    ensures AfterAll(d, steps + [s]) == After(AfterAll(d, steps), s)
  {
    assert (steps + [s])[..|steps|] == steps;
  }

  // --------------------------------------------------------------------------------------
  // What a crash can leave
  // --------------------------------------------------------------------------------------

  /** A merge that has reset the log while the old segments are still listed. */
  ghost predicate InMergeWindow(d: Disk, m: Tree) {
    d.base == m && d.wal == [] && Readable(d)
  }

  ghost predicate CrashState(d: Disk, m: Tree, window: bool) {
    if window then InMergeWindow(d, m) else Holds(d, m)
  }

  /** Every disk a crash can leave before, between and after the steps holds `m`, except that from
      step `lo` to before step `hi` it is in the merge window. */
  ghost predicate Safe(d: Disk, steps: seq<DiskStep>, m: Tree, lo: nat, hi: nat) {
    forall n :: 0 <= n <= |steps| ==> CrashState(AfterAll(d, steps[..n]), m, lo <= n < hi)
  }

  lemma SafeStart(d: Disk, m: Tree, lo: nat, hi: nat)
    requires CrashState(d, m, lo <= 0 < hi)
    ensures AfterAll(d, []) == d && Safe(d, [], m, lo, hi)
  {
  }

  lemma SafeMore(d: Disk, steps: seq<DiskStep>, s: DiskStep, m: Tree, lo: nat, hi: nat)
    requires Safe(d, steps, m, lo, hi)
    requires CrashState(After(AfterAll(d, steps), s), m, lo <= |steps| + 1 < hi)
    ensures AfterAll(d, steps + [s]) == After(AfterAll(d, steps), s)
    ensures Safe(d, steps + [s], m, lo, hi)
  {
    AfterMore(d, steps, s);
    forall n | 0 <= n <= |steps + [s]|
      ensures CrashState(AfterAll(d, (steps + [s])[..n]), m, lo <= n < hi)
    {
      if n <= |steps| {
        assert (steps + [s])[..n] == steps[..n];
      } else {
        assert (steps + [s])[..n] == steps + [s];
      }
    }
  }

  lemma WidenWindow(d: Disk, steps: seq<DiskStep>, m: Tree, lo: nat, hi: nat, wider: nat)
    requires Safe(d, steps, m, lo, hi) && |steps| < hi <= wider
    ensures Safe(d, steps, m, lo, wider)
  {
    forall n | 0 <= n <= |steps| ensures CrashState(AfterAll(d, steps[..n]), m, lo <= n < wider) {
      assert CrashState(AfterAll(d, steps[..n]), m, lo <= n < hi);
    }
  }

  lemma RemovalCrash(d: Disk, name: SegmentName, m: Tree, window: bool)
    requires CrashState(d, m, window)
    ensures CrashState(After(d, RemoveFile(name)), m, window)
  {
    forall e | Usable(After(d, RemoveFile(name)), e) ensures Usable(d, e) { }
    if !window { RemoveFileHolds(d, m, name); }
  }

  lemma SafeRemoval(d: Disk, steps: seq<DiskStep>, name: SegmentName, m: Tree, lo: nat, hi: nat)
    requires Safe(d, steps, m, lo, hi) && CrashState(AfterAll(d, steps), m, lo < hi)
    requires lo < hi ==> lo <= |steps| + 1 < hi
    ensures AfterAll(d, steps + [RemoveFile(name)]) == After(AfterAll(d, steps), RemoveFile(name))
    ensures Safe(d, steps + [RemoveFile(name)], m, lo, hi)
    ensures CrashState(AfterAll(d, steps + [RemoveFile(name)]), m, lo < hi)
  {
    RemovalCrash(AfterAll(d, steps), name, m, lo < hi);
    SafeMore(d, steps, RemoveFile(name), m, lo, hi);
  }

  lemma HoldsSame(d: Disk, m: Tree, m': Tree)
    requires Holds(d, m) && SameView(m, m')
    ensures Holds(d, m')
  {
  }

  // --------------------------------------------------------------------------------------
  // The step lists of the compactions
  // --------------------------------------------------------------------------------------

  function Removals(listed: seq<ManifestEntry>): (r: seq<DiskStep>)
    ensures |r| == |listed|
  {
    if listed == [] then [] else Removals(listed[..|listed| - 1]) + [RemoveFile(listed[|listed| - 1].name)]
  }

  function LegacySteps(m: Tree): seq<DiskStep> { [Rename(m), Reset] }

  /** A full merge is a legacy compaction, then the old segments go, then the manifest forgets them,
      then the log is reset once more. */
  function MergeSteps(d: Disk, m: Tree): seq<DiskStep> {
    LegacySteps(m) + Removals(d.listed) + [WriteManifest(d.generation + 1, [])] + [Reset]
  }

  function DeltaSteps(d: Disk, id: nat, file: SegmentFile): seq<DiskStep> {
    [WriteFile(Delta(id), file), WriteManifest(d.generation, d.listed + [ManifestEntry(Delta(id), file.crc)])]
  }

  /** A prepared segment is written; if it is a full copy the old ones go; then the manifest lists it. */
  function CommitSteps(d: Disk, full: bool, generation: nat, name: SegmentName, file: SegmentFile): seq<DiskStep> {
    [WriteFile(name, file)]
    + (if full then Removals(d.listed) else [])
    + [WriteManifest(generation, (if full then [] else d.listed) + [ManifestEntry(name, file.crc)])]
  }

  predicate Touched(file: SegmentFile, log: seq<Op>) {
    forall k :: k in file.entries ==> DecidedBelow(log, k)
  }

  lemma WriteFileOnly(d: Disk, name: SegmentName, file: SegmentFile)
    requires OnlyDeltas(d) && Touched(file, Flatten(d.wal))
    ensures OnlyDeltas(After(d, WriteFile(name, file)))
  {
    var written := After(d, WriteFile(name, file));
    forall e, k | e in d.listed && Usable(written, e) && k in written.files[e.name].entries
      ensures DecidedBelow(Flatten(d.wal), k)
    {
      if e.name != name { assert Usable(d, e); }
    }
  }

  lemma ListFileOnly(d: Disk, generation: nat, name: SegmentName, file: SegmentFile)
    requires OnlyDeltas(d) && Touched(file, Flatten(d.wal)) && name in d.files && d.files[name] == file
    ensures OnlyDeltas(After(d, WriteManifest(generation, d.listed + [ManifestEntry(name, file.crc)])))
  {
    var listed := d.listed + [ManifestEntry(name, file.crc)];
    var after := After(d, WriteManifest(generation, listed));
    forall e, k | e in listed && Usable(after, e) && k in after.files[e.name].entries
      ensures DecidedBelow(Flatten(d.wal), k)
    {
      if e.name != name { assert e in d.listed && Usable(d, e); }
    }
  }

  /** While a segment of keys that the log has touched is written and listed, every disk lists only such
      segments, if it did before. */
  lemma CommitStepsOnly(d: Disk, generation: nat, name: SegmentName, file: SegmentFile)
    requires OnlyDeltas(d) && Touched(file, Flatten(d.wal))
    ensures var steps := CommitSteps(d, false, generation, name, file);
      |steps| == 2 && forall n :: 0 <= n <= 2 ==> OnlyDeltas(AfterAll(d, steps[..n]))
  {
    var steps := CommitSteps(d, false, generation, name, file);
    var written := After(d, WriteFile(name, file));
    assert steps == [WriteFile(name, file), WriteManifest(generation, d.listed + [ManifestEntry(name, file.crc)])];
    assert steps[..0] == [] && steps[..1] == [] + [steps[0]] && steps[..2] == steps[..1] + [steps[1]];
    AfterMore(d, [], steps[0]);
    AfterMore(d, steps[..1], steps[1]);
    WriteFileOnly(d, name, file);
    ListFileOnly(written, generation, name, file);
  }

  lemma DeltaStepsOnly(d: Disk, id: nat, file: SegmentFile)
    requires OnlyDeltas(d) && Touched(file, Flatten(d.wal))
    ensures forall n :: 0 <= n <= 2 ==> OnlyDeltas(AfterAll(d, DeltaSteps(d, id, file)[..n]))
  {
    CommitStepsOnly(d, d.generation, Delta(id), file);
    assert CommitSteps(d, false, d.generation, Delta(id), file) == DeltaSteps(d, id, file);
  }
}
