/** The binary snapshot: header, entry count, key and value blocks in key order, checksum. */
module Snapshot {
  import opened Bytes
  import opened Json
  import opened StoreSpec
  import opened Codec
  import opened Wal
  import opened Recovery
  import opened FlatStore

  datatype Entry = Entry(key: Bytes, value: Bytes)

  datatype LoadError = InvalidHeader | UnsupportedVersion | ChecksumMismatch | Truncated

  datatype Result<+T> = Ok(value: T) | Err(error: LoadError)

  /** "SPDBSNAP" */
  const SNAPSHOT_MAGIC: Bytes := [0x53, 0x50, 0x44, 0x42, 0x53, 0x4E, 0x41, 0x50]
  const SNAPSHOT_VERSION: nat := 2

  function EncodeEntry(e: Entry): Bytes { EncodeBlock(e.key) + EncodeBlock(e.value) }

  function DecodeEntry(b: Bytes): Option<(Entry, Bytes)> {
    match DecodeBlock(b)
    case None => None
    case Some((k, r)) =>
      match DecodeBlock(r)
      case None => None
      case Some((v, rest)) => Some((Entry(k, v), rest))
  }

  function Body(entries: seq<Entry>): Bytes {
    LE(|entries|, 8) + EncodeMany(entries, EncodeEntry)
  }

  /** An uncompressed, unencrypted snapshot: both flag bits are clear. */
  function SnapshotCovered(entries: seq<Entry>): Bytes {
    SNAPSHOT_MAGIC + (LE(SNAPSHOT_VERSION, 2) + (LE(0, 2) + (LE(0, 4) + Body(entries))))
  }

  function SnapshotFile(entries: seq<Entry>, crc: Crc): Bytes {
    SnapshotCovered(entries) + LE(crc(SnapshotCovered(entries)), 4)
  }

  function ReadEntries(b: Bytes, crc: Crc): Result<seq<Entry>> {
    if |b| < 28 || b[..8] != SNAPSHOT_MAGIC then Err(InvalidHeader)
    else if UnLE(b[8..10]) != SNAPSHOT_VERSION then Err(UnsupportedVersion)
    else if crc(b[..|b| - 4]) != UnLE(b[|b| - 4..]) then Err(ChecksumMismatch)
    else
      var body := b[16..|b| - 4];
      match DecodeMany(body[8..], UnLE(body[..8]), DecodeEntry)
      case None => Err(Truncated)
      case Some((entries, _)) => Ok(entries)
  }

  /** Entry sizes fit their 32-bit fields and their number its 64-bit field. */
  ghost predicate EntriesFit(entries: seq<Entry>) {
    && |entries| < Width(8)
    && forall e :: e in entries ==> |e.key| < 0x1_0000_0000 && |e.value| < 0x1_0000_0000
  }

  lemma EntryDecodes(e: Entry, post: Bytes)
    requires |e.key| < 0x1_0000_0000 && |e.value| < 0x1_0000_0000
    ensures DecodeEntry(EncodeEntry(e) + post) == Some((e, post))
  {
    Assoc(EncodeBlock(e.key), EncodeBlock(e.value), post);
    BlockDecodes(e.key, EncodeBlock(e.value) + post);
    BlockDecodes(e.value, post);
  }

  lemma BodyDecodes(entries: seq<Entry>)
    requires EntriesFit(entries)
    ensures var body := Body(entries);
      |body| >= 8 && DecodeMany(body[8..], UnLE(body[..8]), DecodeEntry) == Some((entries, []))
  {
    UnLEofLE(|entries|, 8);
    forall e, post | e in entries ensures DecodeEntry(EncodeEntry(e) + post) == Some((e, post)) {
      EntryDecodes(e, post);
    }
    DecodeManyEncoded(entries, [], EncodeEntry, DecodeEntry);
    assert EncodeMany(entries, EncodeEntry) + [] == EncodeMany(entries, EncodeEntry);
  }

  lemma SnapshotFields(m: Bytes, v: Bytes, f: Bytes, r: Bytes, body: Bytes, check: Bytes)
    requires |m| == 8 && |v| == 2 && |f| == 2 && |r| == 4 && |check| == 4
    ensures var c := m + (v + (f + (r + body)));
      var b := c + check;
      && b[..8] == m && b[8..10] == v && b[16..|b| - 4] == body
      && b[..|b| - 4] == c && b[|b| - 4..] == check && |b| == 20 + |body|
  {
    var c := m + (v + (f + (r + body)));
    assert c[16..] == body;
  }

  /** Reading a written snapshot gives back its entries. */
  lemma SnapshotDecodes(entries: seq<Entry>, crc: Crc)
    requires EntriesFit(entries)
    ensures ReadEntries(SnapshotFile(entries, crc), crc) == Ok(entries)
  {
    var check := crc(SnapshotCovered(entries));
    Read32(check);
    assert Width(2) == 256 * Width(1);
    UnLEofLE(SNAPSHOT_VERSION, 2);
    BodyDecodes(entries);
    SnapshotFields(SNAPSHOT_MAGIC, LE(SNAPSHOT_VERSION, 2), LE(0, 2), LE(0, 4), Body(entries), LE(check, 4));
  }

  // --------------------------------------------------------------------------------------
  // Stores
  // --------------------------------------------------------------------------------------

  /** The entries of a store in key order; `show` gives the stored text of a value. */
  function StoreEntries(m: Tree, keys: seq<Bytes>, show: Json -> Bytes): (r: seq<Entry>)
    requires forall k :: k in keys ==> k in m
    ensures |r| == |keys|
    ensures forall i :: 0 <= i < |keys| ==> r[i] == Entry(keys[i], show(m[keys[i]]))
  {
    if keys == [] then []
    else
      assert keys[0] in keys;
      [Entry(keys[0], show(m[keys[0]]))] + StoreEntries(m, keys[1..], show)
  }

  function WriteSnapshot(m: Tree, show: Json -> Bytes, crc: Crc): Bytes {
    SnapshotFile(StoreEntries(m, Sorted(m.Keys), show), crc)
  }

  /** Loading sets the entries one after another. */
  function LoadEntries(m: Tree, entries: seq<Entry>, parse: Bytes -> Json): Tree
    decreases |entries|
  {
    if entries == [] then m
    else LoadEntries(SetFn(m, entries[0].key, parse(entries[0].value)), entries[1..], parse)
  }

  function LoadSnapshotFile(b: Bytes, parse: Bytes -> Json, crc: Crc): Result<Tree> {
    match ReadEntries(b, crc)
    case Err(e) => Err(e)
    case Ok(entries) => Ok(LoadEntries(map[], entries, parse))
  }

  lemma {:induction false} LoadIsSetEach(acc: Tree, m: Tree, keys: seq<Bytes>, show: Json -> Bytes,
                                         parse: Bytes -> Json)
    requires forall k :: k in keys ==> k in m && parse(show(m[k])) == m[k]
    ensures LoadEntries(acc, StoreEntries(m, keys, show), parse) == SetEach(acc, keys, m)
    decreases |keys|
  {
    if keys != [] {
      assert keys[0] in keys;
      LoadIsSetEach(SetFn(acc, keys[0], m[keys[0]]), m, keys[1..], show, parse);
      assert StoreEntries(m, keys, show)[1..] == StoreEntries(m, keys[1..], show);
    }
  }

  /** Writing a prefix-free store and loading it gives the same flat map, although loading goes
      through the merging `set`. */
  lemma SnapshotRoundTrip(m: Tree, show: Json -> Bytes, parse: Bytes -> Json, crc: Crc)
    requires PrefixFree(m.Keys)
    requires forall k :: k in m ==> parse(show(m[k])) == m[k]
    requires EntriesFit(StoreEntries(m, Sorted(m.Keys), show))
    ensures LoadSnapshotFile(WriteSnapshot(m, show, crc), parse, crc) == Ok(m)
  {
    SnapshotDecodes(StoreEntries(m, Sorted(m.Keys), show), crc);
    LoadIsSetEach(map[], m, Sorted(m.Keys), show, parse);
    ReloadIdentity(m);
  }

  // --------------------------------------------------------------------------------------
  // The loading loops
  // --------------------------------------------------------------------------------------

  method ReadEntry(b: Bytes, off: nat) returns (r: Option<(Entry, nat)>)
    requires off <= |b|
    ensures r.None? <==> DecodeEntry(b[off..]).None?
    ensures r.Some? ==> off < r.value.1 <= |b| && DecodeEntry(b[off..]) == Some((r.value.0, b[r.value.1..]))
  {
    var key := ReadBlock(b, off);
    if key.None? { return None; }
    var value := ReadBlock(b, key.value.1);
    if value.None? { return None; }
    return Some((Entry(key.value.0, value.value.0), value.value.1));
  }

  /** Read the announced number of entries, checking every bound. */
  method ReadBody(body: Bytes) returns (r: Result<seq<Entry>>)
    requires |body| >= 8
    ensures match DecodeMany(body[8..], UnLE(body[..8]), DecodeEntry)
      case None => r == Err(Truncated)
      case Some((entries, _)) => r == Ok(entries)
  {
    var count := UnLE(body[..8]);
    var entries, off := [], 8;
    ghost var all := DecodeMany(body[8..], count, DecodeEntry);
    PrependNothing(all);
    for i := 0 to count
      invariant 8 <= off <= |body|
      invariant all == Prepend(entries, DecodeMany(body[off..], count - i, DecodeEntry))
    {
      var next := ReadEntry(body, off);
      if next.None? { return Err(Truncated); }
      ghost var rest := DecodeMany(body[next.value.1..], count - i - 1, DecodeEntry);
      if rest.Some? { Assoc(entries, [next.value.0], rest.value.0); }
      entries, off := entries + [next.value.0], next.value.1;
    }
    assert entries + [] == entries;
    r := Ok(entries);
  }

  /** Each entry goes through `set`. */
  method SetEntries(entries: seq<Entry>, parse: Bytes -> Json) returns (s: Store)
    requires forall e :: e in entries ==> IsText(e.key)
    ensures fresh(s) && s.Synced() && s.tree == LoadEntries(map[], entries, parse)
  {
    s := new Store();
    assert entries[0..] == entries;
    for i := 0 to |entries|
      invariant s.Synced() && fresh(s)
      invariant LoadEntries(s.tree, entries[i..], parse) == LoadEntries(map[], entries, parse)
    {
      assert entries[i] in entries && entries[i..][1..] == entries[i + 1..];
      s.Set(entries[i].key, parse(entries[i].value));
    }
  }
}
