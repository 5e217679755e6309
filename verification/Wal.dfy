/** The byte format of the write-ahead log: a checked header, then frames
    type | length | payload | lsn | crc, little-endian. The checksum is any function. */
module Wal {
  import opened Bytes
  import opened Codec

  type U32 = n: nat | n < 0x1_0000_0000

  type Crc = Bytes -> U32

  // --------------------------------------------------------------------------------------
  // Frames
  // --------------------------------------------------------------------------------------

  datatype WalOp = Set(key: Bytes, value: Bytes) | Del(key: Bytes) | Clear

  datatype Frame = Single(op: WalOp) | Batch(ops: seq<WalOp>)

  /** A frame with its log sequence number. */
  datatype Stamped = Stamped(frame: Frame, lsn: nat)

  const OP_SET: byte := 1
  const OP_DEL: byte := 2
  const OP_CLEAR: byte := 3
  const OP_BATCH_V3: byte := 5

  function Tag(f: Frame): byte {
    match f
    case Single(Set(_, _)) => OP_SET
    case Single(Del(_)) => OP_DEL
    case Single(Clear) => OP_CLEAR
    case Batch(_) => OP_BATCH_V3
  }

  function SubOp(op: WalOp): Bytes {
    match op
    case Set(k, v) => [OP_SET] + (EncodeBlock(k) + EncodeBlock(v))
    case Del(k) => [OP_DEL] + EncodeBlock(k)
    case Clear => [OP_CLEAR]
  }

  function Payload(f: Frame): Bytes {
    match f
    case Single(Set(k, v)) => LE(|k|, 4) + (k + v)
    case Single(Del(k)) => k
    case Single(Clear) => []
    case Batch(ops) => LE(|ops|, 4) + EncodeMany(ops, SubOp)
  }

  /** Everything in a frame that the checksum covers. */
  function Covered(s: Stamped): Bytes {
    [Tag(s.frame)] + (LE(|Payload(s.frame)|, 4) + (Payload(s.frame) + LE(s.lsn, 8)))
  }

  function Encode(s: Stamped, crc: Crc): Bytes {
    Covered(s) + LE(crc(Covered(s)), 4)
  }

  /** The payload length fits its 32-bit field. */
  predicate Fits(f: Frame) { |Payload(f)| < 0x1_0000_0000 }

  // --------------------------------------------------------------------------------------
  // Decoding one payload
  // --------------------------------------------------------------------------------------

  function DecodeSingle(tag: byte, p: Bytes): Option<WalOp> {
    if tag == OP_SET then
      if |p| < 4 then None
      else
        var klen := UnLE(p[..4]);
        if |p| < 4 + klen then None else Some(Set(p[4..4 + klen], p[4 + klen..]))
    else if tag == OP_DEL then Some(Del(p))
    else if tag == OP_CLEAR then Some(Clear)
    else None
  }

  /** The sub-operation a batch continues with, and the bytes after it. */
  function DecodeSubOp(p: Bytes): (r: Option<(WalOp, Bytes)>)
    ensures r.Some? ==> |r.value.1| < |p|
  {
    if p == [] then None
    else
      if p[0] == OP_SET then
        match DecodeBlock(p[1..])
        case None => None
        case Some((k, r)) =>
          match DecodeBlock(r)
          case None => None
          case Some((v, rest)) => Some((Set(k, v), rest))
      else if p[0] == OP_DEL then
        match DecodeBlock(p[1..])
        case None => None
        case Some((k, rest)) => Some((Del(k), rest))
      else if p[0] == OP_CLEAR then Some((Clear, p[1..]))
      else None
  }

  function DecodeBatch(p: Bytes): Option<seq<WalOp>> {
    if |p| < 4 then None
    else match DecodeMany(p[4..], UnLE(p[..4]), DecodeSubOp)
      case None => None
      case Some((ops, _)) => Some(ops)
  }

  function DecodeFrame(tag: byte, p: Bytes): Option<Frame> {
    if tag == OP_BATCH_V3 then
      match DecodeBatch(p)
      case None => None
      case Some(ops) => Some(Batch(ops))
    else match DecodeSingle(tag, p)
      case None => None
      case Some(op) => Some(Single(op))
  }

  lemma SubOpDecodes(op: WalOp, post: Bytes)
    requires |SubOp(op)| < 0x1_0000_0000
    ensures DecodeSubOp(SubOp(op) + post) == Some((op, post))
  {
    match op
    case Clear =>
      assert ([OP_CLEAR] + post)[1..] == post;
    case Del(k) =>
      Assoc([OP_DEL], EncodeBlock(k), post);
      assert ([OP_DEL] + (EncodeBlock(k) + post))[1..] == EncodeBlock(k) + post;
      BlockDecodes(k, post);
    case Set(k, v) =>
      Assoc([OP_SET], EncodeBlock(k) + EncodeBlock(v), post);
      Assoc(EncodeBlock(k), EncodeBlock(v), post);
      var r := EncodeBlock(k) + (EncodeBlock(v) + post);
      assert ([OP_SET] + r)[1..] == r;
      BlockDecodes(k, EncodeBlock(v) + post);
      BlockDecodes(v, post);
  }

  lemma SubOpsDecode(ops: seq<WalOp>)
    requires |EncodeMany(ops, SubOp)| < 0x1_0000_0000
    ensures DecodeMany(EncodeMany(ops, SubOp), |ops|, DecodeSubOp) == Some((ops, []))
    ensures |ops| <= |EncodeMany(ops, SubOp)|
  {
    EncodeManyLength(ops, SubOp);
    forall op, post | op in ops ensures DecodeSubOp(SubOp(op) + post) == Some((op, post)) {
      SubOpDecodes(op, post);
    }
    DecodeManyEncoded(ops, [], SubOp, DecodeSubOp);
    assert EncodeMany(ops, SubOp) + [] == EncodeMany(ops, SubOp);
  }

  /** A payload decodes to the frame it was made from. */
  lemma PayloadDecodes(f: Frame)
    requires Fits(f)
    ensures DecodeFrame(Tag(f), Payload(f)) == Some(f)
  {
    match f
    case Single(Set(k, v)) =>
      Read32(|k|);
      assert Payload(f)[4..] == k + v;
      assert Payload(f)[4..4 + |k|] == Payload(f)[4..][..|k|];
      assert Payload(f)[4 + |k|..] == Payload(f)[4..][|k|..];
    case Single(_) =>
    case Batch(ops) =>
      SubOpsDecode(ops);
      Read32(|ops|);
  }

  // --------------------------------------------------------------------------------------
  // Replaying frames
  // --------------------------------------------------------------------------------------

  /** The first frame of `b` and the bytes after it, if `b` starts with a whole valid frame. */
  function FirstFrame(b: Bytes, crc: Crc): (r: Option<(Stamped, Bytes)>)
    ensures r.Some? ==> |r.value.1| + 17 <= |b|
  {
    if |b| < 17 then None
    else
      var plen, r := UnLE(b[1..][..4]), b[5..];
      if |r| < plen + 12 then None
      else if crc(b[..5 + plen + 8]) != UnLE(r[plen + 8..][..4]) then None
      else match DecodeFrame(b[0], r[..plen])
        case None => None
        case Some(f) => Some((Stamped(f, UnLE(r[plen..][..8])), r[plen + 12..]))
  }

  lemma FrameReads(tag: byte, h: Bytes, p: Bytes, l: Bytes, check: Bytes, post: Bytes, crc: Crc)
    requires |h| == 4 && UnLE(h) == |p| && |l| == 8 && |check| == 4
    requires UnLE(check) == crc([tag] + (h + (p + l)))
    ensures FirstFrame([tag] + (h + (p + l)) + check + post, crc) ==
      match DecodeFrame(tag, p) case None => None case Some(f) => Some((Stamped(f, UnLE(l)), post))
  {
    var c := [tag] + (h + (p + l));
    Assoc(c, check, post);
    Assoc([tag], h + (p + l), check + post);
    Assoc(h, p + l, check + post);
    Assoc(p, l, check + post);
    Assoc([tag] + h, p, l + (check + post));
    var b, r := c + (check + post), p + (l + (check + post));
    assert b == [tag] + (h + r);
    assert b[1..] == h + r;
    assert (h + r)[..4] == h && b[5..] == r by { assert b[5..] == b[1..][4..]; }
    assert r[..|p|] == p && r[|p|..] == l + (check + post);
    assert (l + (check + post))[..8] == l;
    assert r[|p| + 8..] == check + post by { assert r[|p| + 8..] == r[|p|..][8..]; }
    assert r[|p| + 12..] == post by { assert r[|p| + 12..] == r[|p| + 8..][4..]; }
    assert b[..5 + |p| + 8] == c by { assert |c| == 5 + |p| + 8; }
  }

  lemma FrameDecodes(s: Stamped, post: Bytes, crc: Crc)
    requires Fits(s.frame) && s.lsn < Width(8)
    ensures FirstFrame(Encode(s, crc) + post, crc) == Some((s, post))
  {
    var p := Payload(s.frame);
    Read32(|p|);
    Read32(crc(Covered(s)));
    UnLEofLE(s.lsn, 8);
    PayloadDecodes(s.frame);
    FrameReads(Tag(s.frame), LE(|p|, 4), p, LE(s.lsn, 8), LE(crc(Covered(s)), 4), post, crc);
  }

  ghost predicate AllFit(fs: seq<Stamped>) {
    forall s :: s in fs ==> Fits(s.frame) && s.lsn < Width(8)
  }

  /** A frame cut short is not read. */
  lemma TornFrame(s: Stamped, n: nat, crc: Crc)
    requires n < |Encode(s, crc)| && Fits(s.frame)
    ensures FirstFrame(Encode(s, crc)[..n], crc).None?
  {
    var e, p := Encode(s, crc), Payload(s.frame);
    if n >= 17 {
      Read32(|p|);
      assert e[..n][1..][..4] == e[1..][..4];
      assert e[1..] == LE(|p|, 4) + (p + LE(s.lsn, 8) + LE(crc(Covered(s)), 4));
    }
  }

  function Encoder(crc: Crc): Stamped -> Bytes {
    s => Encode(s, crc)
  }

  function FrameDecoder(crc: Crc): Decoder<Stamped> {
    b => FirstFrame(b, crc)
  }

  /** Cutting a run of frames at any byte keeps exactly the frames that lie wholly before it, so
      a batch is read as a whole or not at all; an uncut run is read to its end. */
  lemma FramesCut(fs: seq<Stamped>, n: nat, crc: Crc)
    requires AllFit(fs) && n <= |EncodeMany(fs, Encoder(crc))|
    ensures var r := ScanMany(EncodeMany(fs, Encoder(crc))[..n], FrameDecoder(crc));
      && r.0 == fs[..Within(fs, n, Encoder(crc))]
      && (n == |EncodeMany(fs, Encoder(crc))| ==> r.0 == fs && r.1 == [])
  {
    var enc, dec := Encoder(crc), FrameDecoder(crc);
    forall s, post | s in fs ensures dec(enc(s) + post) == Some((s, post)) {
      FrameDecodes(s, post, crc);
    }
    forall s, k | s in fs && 0 <= k < |enc(s)| ensures dec(enc(s)[..k]).None? {
      TornFrame(s, k, crc);
    }
    ScanCut(fs, n, enc, dec);
    WithinAll(fs, enc);
  }

  // --------------------------------------------------------------------------------------
  // The whole file
  // --------------------------------------------------------------------------------------

  /** "SPDBWAL3" */
  const MAGIC: Bytes := [0x53, 0x50, 0x44, 0x42, 0x57, 0x41, 0x4C, 0x33]
  const VERSION: nat := 3
  const HEADER_LENGTH: nat := 32

  datatype Header = Header(version: nat, generation: nat, baseLsn: nat)

  datatype Replay = Replay(frames: seq<Frame>, warns: nat, header: Option<Header>, lastLsn: nat)

  function HeaderCovered(generation: nat, baseLsn: nat): (r: Bytes)
    ensures |r| == 28
  {
    MAGIC + (LE(VERSION, 2) + (LE(0, 2) + (LE(generation, 8) + LE(baseLsn, 8))))
  }

  function HeaderBytes(generation: nat, baseLsn: nat, crc: Crc): (r: Bytes)
    ensures |r| == HEADER_LENGTH
  {
    HeaderCovered(generation, baseLsn) + LE(crc(HeaderCovered(generation, baseLsn)), 4)
  }

  function FramesOf(fs: seq<Stamped>): (r: seq<Frame>)
    ensures |r| == |fs| && forall i :: 0 <= i < |fs| ==> r[i] == fs[i].frame
  {
    if fs == [] then [] else [fs[0].frame] + FramesOf(fs[1..])
  }

  function MaxLsn(fs: seq<Stamped>): nat {
    if fs == [] then 0
    else var rest := MaxLsn(fs[1..]); if fs[0].lsn > rest then fs[0].lsn else rest
  }

  /** The older headerless log: same idea without sequence numbers. `decode` reads a payload. */
  function HeaderlessFrames(b: Bytes, crc: Crc, decode: (byte, Bytes) -> Option<Frame>): (r: (seq<Frame>, Bytes, nat))
    decreases |b|
  {
    if |b| < 9 then ([], b, 0)
    else
      var plen := UnLE(b[1..][..4]);
      var end := 5 + plen + 4;
      if end > |b| then ([], b, 1)
      else if crc(b[..5 + plen]) != UnLE(b[5 + plen..end]) then ([], b, 1)
      else
        var rest := HeaderlessFrames(b[end..], crc, decode);
        match decode(b[0], b[5..5 + plen])
        case None => (rest.0, rest.1, rest.2 + 1)
        case Some(f) => ([f] + rest.0, rest.1, rest.2)
  }

  predicate HasHeader(b: Bytes) { |b| >= HEADER_LENGTH && b[..8] == MAGIC }

  function ReplayLog(b: Bytes, crc: Crc, decode: (byte, Bytes) -> Option<Frame>): Replay {
    if HasHeader(b) then
      if crc(b[..28]) != UnLE(b[28..32]) then Replay([], 1, None, 0)
      else
        var version := UnLE(b[8..10]);
        if version != VERSION then Replay([], 1, Some(Header(version, 0, 0)), 0)
        else
          var r := ScanMany(b[32..], FrameDecoder(crc));
          Replay(FramesOf(r.0), if r.1 != [] then 1 else 0,
            Some(Header(version, UnLE(b[12..20]), UnLE(b[20..28]))), MaxLsn(r.0))
    else
      var r := HeaderlessFrames(b, crc, decode);
      Replay(r.0, if r.1 != [] && r.2 == 0 then 1 else r.2, None, 0)
  }

  lemma HeaderFields(m: Bytes, v: Bytes, z: Bytes, g: Bytes, l: Bytes)
    requires |m| == 8 && |v| == 2 && |z| == 2 && |g| == 8 && |l| == 8
    ensures var c := m + (v + (z + (g + l))); c[8..10] == v && c[12..20] == g && c[20..28] == l
  {
  }

  lemma HeaderReads(generation: nat, baseLsn: nat, body: Bytes, crc: Crc)
    requires generation < Width(8) && baseLsn < Width(8)
    ensures var b := HeaderBytes(generation, baseLsn, crc) + body;
      && HasHeader(b) && b[32..] == body
      && crc(b[..28]) == UnLE(b[28..32]) && UnLE(b[8..10]) == VERSION
      && UnLE(b[12..20]) == generation && UnLE(b[20..28]) == baseLsn
  {
    var c := HeaderCovered(generation, baseLsn);
    var check := LE(crc(c), 4);
    var b := c + check + body;
    Read32(crc(c));
    UnLEofLE(generation, 8);
    UnLEofLE(baseLsn, 8);
    assert Width(2) == 256 * Width(1);
    UnLEofLE(VERSION, 2);
    assert b[..28] == c && b[28..32] == check && b[..8] == MAGIC;
    HeaderFields(MAGIC, LE(VERSION, 2), LE(0, 2), LE(generation, 8), LE(baseLsn, 8));
    assert b[8..10] == c[8..10] && b[12..20] == c[12..20] && b[20..28] == c[20..28];
  }

  function LogFile(generation: nat, baseLsn: nat, fs: seq<Stamped>, crc: Crc): Bytes {
    HeaderBytes(generation, baseLsn, crc) + EncodeMany(fs, Encoder(crc))
  }

  /** A file cut inside its header yields nothing: its first bytes, read as a headerless frame,
      announce far more bytes than there are. */
  lemma TornHeader(b: Bytes, generation: nat, baseLsn: nat, crc: Crc, decode: (byte, Bytes) -> Option<Frame>)
    requires |b| < HEADER_LENGTH && b <= HeaderBytes(generation, baseLsn, crc)
    ensures ReplayLog(b, crc, decode).frames == []
  {
    if |b| >= 9 {
      var h := HeaderBytes(generation, baseLsn, crc);
      assert b[1..][..4] == h[1..][..4] == MAGIC[1..][..4];
      var l := MAGIC[1..][..4];
      assert l == [0x50, 0x44, 0x42, 0x57];
      assert UnLE(l) >= 0x50;
    }
  }

  /** Cutting a log file at any byte makes replay return exactly the frames that lie wholly
      before the cut; the uncut file gives every frame, its header and no warning. */
  lemma LogCut(generation: nat, baseLsn: nat, fs: seq<Stamped>, n: nat, crc: Crc,
               decode: (byte, Bytes) -> Option<Frame>)
    requires AllFit(fs) && generation < Width(8) && baseLsn < Width(8)
    requires n <= |LogFile(generation, baseLsn, fs, crc)|
    ensures ReplayLog(LogFile(generation, baseLsn, fs, crc)[..n], crc, decode).frames ==
      if n < HEADER_LENGTH then [] else FramesOf(fs[..Within(fs, n - HEADER_LENGTH, Encoder(crc))])
    ensures n == |LogFile(generation, baseLsn, fs, crc)| ==>
      ReplayLog(LogFile(generation, baseLsn, fs, crc), crc, decode) ==
        Replay(FramesOf(fs), 0, Some(Header(VERSION, generation, baseLsn)), MaxLsn(fs))
  {
    var h, body := HeaderBytes(generation, baseLsn, crc), EncodeMany(fs, Encoder(crc));
    TakeConcat(h, body, n);
    if n < HEADER_LENGTH {
      TornHeader(h[..n], generation, baseLsn, crc, decode);
    } else {
      HeaderReads(generation, baseLsn, body[..n - HEADER_LENGTH], crc);
      FramesCut(fs, n - HEADER_LENGTH, crc);
    }
    if n == |h + body| {
      assert body[..|body|] == body && (h + body)[..n] == h + body;
    }
  }

  // --------------------------------------------------------------------------------------
  // Two places where reopening falls short of the documentation
  // --------------------------------------------------------------------------------------

  lemma RecoversFrames(fs: seq<Stamped>, crc: Crc)
    requires AllFit(fs)
    ensures Recovers(fs, Encoder(crc), FrameDecoder(crc))
  {
    forall s, post | s in fs ensures FrameDecoder(crc)(Encoder(crc)(s) + post) == Some((s, post)) {
      FrameDecodes(s, post, crc);
    }
  }

  /** Reopening does not cut a torn tail before appending. After the frames `fs`, the first `n` bytes of
      `s` and the frames `gs` appended later, replay reads `fs` and then whatever the torn bytes and `gs`
      read as together. A tear at a frame boundary loses nothing. Any other tear hides all of `gs`,
      unless the torn bytes and the bytes appended happen to make a valid frame. */
  lemma TornTailHidesLaterFrames(fs: seq<Stamped>, s: Stamped, n: nat, gs: seq<Stamped>, crc: Crc)
    requires AllFit(fs) && AllFit(gs) && n < |Encode(s, crc)|
    ensures var tail := Encode(s, crc)[..n] + EncodeMany(gs, Encoder(crc));
      var read := ScanMany(EncodeMany(fs, Encoder(crc)) + tail, FrameDecoder(crc)).0;
      && read == fs + ScanMany(tail, FrameDecoder(crc)).0
      && (n == 0 || FirstFrame(tail, crc).None? ==>
            && read == (if n == 0 then fs + gs else fs)
            && (read == fs + gs <==> n == 0 || gs == []))
  {
    var body := EncodeMany(gs, Encoder(crc));
    var tail := Encode(s, crc)[..n] + body;
    RecoversFrames(fs, crc);
    ScanThen(fs, tail, Encoder(crc), FrameDecoder(crc));
    if n == 0 {
      assert tail == body && body[..|body|] == body;
      FramesCut(gs, |body|, crc);
    } else if FirstFrame(tail, crc).None? {
      assert ScanMany(tail, FrameDecoder(crc)).0 == [];
      assert fs + [] == fs && |fs + gs| == |fs| + |gs|;
      assert gs == [] ==> fs + gs == fs;
    }
  }

  /** If the tear kept the length field, a frame can only be read there once the missing bytes have been
      appended, and then only if their checksum agrees. */
  lemma TornLengthHides(s: Stamped, n: nat, later: Bytes, crc: Crc)
    requires Fits(s.frame) && 5 <= n < |Encode(s, crc)|
    ensures var b, end := Encode(s, crc)[..n] + later, |Encode(s, crc)|;
      FirstFrame(b, crc).Some? ==> |b| >= end && crc(b[..end - 4]) == UnLE(b[end - 4..end])
  {
    var e, p := Encode(s, crc), Payload(s.frame);
    var b := e[..n] + later;
    Read32(|p|);
    assert b[1..][..4] == e[1..][..4];
    assert e[1..] == LE(|p|, 4) + (p + LE(s.lsn, 8) + LE(crc(Covered(s)), 4));
    if |b| >= |e| {
      assert b[5..][|p| + 8..][..4] == b[|e| - 4..|e|];
    }
  }

  lemma EncodeOne(s: Stamped, crc: Crc)
    ensures EncodeMany([s], Encoder(crc)) == Encode(s, crc)
  {
    assert EncodeMany([s][1..], Encoder(crc)) == [];
  }

  lemma FirstByteOf(s: Stamped, crc: Crc)
    ensures |Encode(s, crc)| > 1 && Encode(s, crc)[..1] == [Tag(s.frame)]
  {
  }

  lemma {:induction false} LEPrefix(n: nat, w: nat)
    ensures LE(n, w + 1)[..w] == LE(n, w)
  {
    if w > 0 {
      LEPrefix(n / 256, w - 1);
      assert LE(n, w + 1)[..w] == [n % 256] + LE(n / 256, w)[..w - 1];
    }
  }

  lemma StrayByte(key: Bytes, lsn: nat, crc: Crc)
    requires |key| < 0x100_0000
    ensures FirstFrame([OP_SET] + Encode(Stamped(Single(Del(key)), lsn), crc), crc).None?
  {
    var e := Encode(Stamped(Single(Del(key)), lsn), crc);
    var b := [OP_SET] + e;
    var l := LE(|key|, 4);
    assert e == [OP_DEL] + (l + (key + LE(lsn, 8))) + LE(crc(Covered(Stamped(Single(Del(key)), lsn))), 4);
    assert b[1..] == e;
    assert e[..4] == [OP_DEL] + l[..3];
    assert l[..3] == LE(|key|, 3) by { LEPrefix(|key|, 3); }
    UnLEofLE(|key|, 3) by { assert Width(3) == 256 * Width(2) == 256 * 256 * Width(1); }
    assert UnLE(e[..4]) == 2 + 256 * |key| by {
      assert e[..4][1..] == l[..3];
    }
  }

  /** For instance: one byte of a set was written before the tear, and a delete was appended later. */
  lemma StrayByteHidesDelete(fs: seq<Stamped>, s: Stamped, key: Bytes, lsn: nat, crc: Crc)
    requires AllFit(fs) && Tag(s.frame) == OP_SET && |key| < 0x100_0000 && lsn < Width(8)
    ensures var tail := Encode(s, crc)[..1] + Encode(Stamped(Single(Del(key)), lsn), crc);
      ScanMany(EncodeMany(fs, Encoder(crc)) + tail, FrameDecoder(crc)).0 == fs
  {
    var later := Stamped(Single(Del(key)), lsn);
    StrayByte(key, lsn, crc);
    FirstByteOf(s, crc);
    EncodeOne(later, crc);
    TornTailHidesLaterFrames(fs, s, 1, [later], crc);
  }

  /** Reopening adds the header's base to the largest number read. */
  function ReopenedLsn(r: Replay): nat {
    (if r.header.Some? then r.header.value.baseLsn else 0) + r.lastLsn
  }

  /** Sequence numbers are absolute, so the sum never falls behind the last one written, and
      equals it exactly when the base is zero or the log is empty. */
  lemma ReopenedLsnExact(generation: nat, baseLsn: nat, fs: seq<Stamped>, crc: Crc,
                         decode: (byte, Bytes) -> Option<Frame>)
    requires AllFit(fs) && generation < Width(8) && baseLsn < Width(8)
    requires forall s :: s in fs ==> s.lsn > baseLsn
    ensures var reopened := ReopenedLsn(ReplayLog(LogFile(generation, baseLsn, fs, crc), crc, decode));
      var last := if fs == [] then baseLsn else MaxLsn(fs);
      reopened >= last && (reopened == last <==> baseLsn == 0 || fs == [])
  {
    var file := LogFile(generation, baseLsn, fs, crc);
    LogCut(generation, baseLsn, fs, |file|, crc, decode);
  }

  // --------------------------------------------------------------------------------------
  // The buffers and loops
  // --------------------------------------------------------------------------------------

  lemma Patched(pre: Bytes, field: Bytes, post: Bytes)
    ensures (pre + field + post)[..|pre|] == pre
    ensures (pre + field + post)[|pre| + |field|..] == post
  {
  }

  /** The log buffer: frames are pushed piece by piece. */
  class LogBuffer {
    const crc: Crc
    var buf: Bytes
    var lastLsn: nat

    constructor (crc: Crc, lastLsn: nat)
      ensures this.crc == crc && buf == [] && this.lastLsn == lastLsn
    {
      this.crc, this.buf, this.lastLsn := crc, [], lastLsn;
    }

    /** Close the frame that starts at `start`. */
    method FrameTail(start: nat, lsn: nat, ghost pre: Bytes, ghost head: Bytes)
      requires buf == pre + head && start == |pre|
      modifies this`buf
      ensures buf == pre + ((head + LE(lsn, 8)) + LE(crc(head + LE(lsn, 8)), 4))
    {
      buf := buf + LE(lsn, 8);
      Assoc(pre, head, LE(lsn, 8));
      assert buf[start..] == head + LE(lsn, 8);
      Assoc(pre, head + LE(lsn, 8), LE(crc(buf[start..]), 4));
      buf := buf + LE(crc(buf[start..]), 4);
    }

    method Append(op: WalOp)
      modifies this
      ensures lastLsn == old(lastLsn) + 1
      ensures buf == old(buf) + Encode(Stamped(Single(op), lastLsn), crc)
    {
      var start, lsn := |buf|, lastLsn + 1;
      ghost var f := Single(op);
      PushHead(op);
      ghost var length, p, l := LE(|Payload(f)|, 4), Payload(f), LE(lsn, 8);
      FrameTail(start, lsn, old(buf), [Tag(f)] + (length + p));
      Assoc([Tag(f)], length + p, l);
      Assoc(length, p, l);
      lastLsn := lsn;
    }

    method PushHead(op: WalOp)
      modifies this`buf
      ensures var f := Single(op); buf == old(buf) + ([Tag(f)] + (LE(|Payload(f)|, 4) + Payload(f)))
    {
      match op {
        case Set(key, value) =>
          Pushed5(buf, [OP_SET], LE(4 + |key| + |value|, 4), LE(|key|, 4), key, value);
          var payloadLength := 4 + |key| + |value|;
          buf := buf + [OP_SET];
          buf := buf + LE(payloadLength, 4);
          buf := buf + LE(|key|, 4);
          buf := buf + key;
          buf := buf + value;
        case Del(key) =>
          Pushed3(buf, [OP_DEL], LE(|key|, 4), key);
          buf := buf + [OP_DEL];
          buf := buf + LE(|key|, 4);
          buf := buf + key;
        case Clear =>
          Pushed3(buf, [OP_CLEAR], LE(0, 4), []);
          buf := buf + [OP_CLEAR];
          buf := buf + LE(0, 4);
      }
    }

    /** The length field is written as zero and patched once the payload is known. */
    method AppendBatch(ops: seq<WalOp>)
      modifies this
      ensures lastLsn == old(lastLsn) + 1
      ensures buf == old(buf) + Encode(Stamped(Batch(ops), lastLsn), crc)
    {
      var start := |buf|;
      ghost var p, pre := Payload(Batch(ops)), buf + [OP_BATCH_V3];
      buf := buf + [OP_BATCH_V3];
      var lengthAt := |buf|;
      buf := buf + LE(0, 4);
      PushBatchPayload(ops);
      assert buf == pre + LE(0, 4) + p;
      var payloadLength := |buf| - lengthAt - 4;
      Patched(pre, LE(0, 4), p);
      buf := buf[..lengthAt] + LE(payloadLength, 4) + buf[lengthAt + 4..];
      var lsn := lastLsn + 1;
      ghost var length, l := LE(|p|, 4), LE(lsn, 8);
      Pushed3(old(buf), [OP_BATCH_V3], length, p);
      FrameTail(start, lsn, old(buf), [OP_BATCH_V3] + (length + p));
      Assoc([OP_BATCH_V3], length + p, l);
      Assoc(length, p, l);
      lastLsn := lsn;
    }

    method PushBatchPayload(ops: seq<WalOp>)
      modifies this`buf
      ensures buf == old(buf) + Payload(Batch(ops))
    {
      buf := buf + LE(|ops|, 4);
      ghost var base := buf;
      assert ops[..0] == [];
      for i := 0 to |ops|
        invariant buf == base + EncodeMany(ops[..i], SubOp)
      {
        PushSubOp(ops[i]);
        EncodeManySnoc(ops, i, SubOp);
        Assoc(base, EncodeMany(ops[..i], SubOp), SubOp(ops[i]));
      }
      assert ops[..|ops|] == ops;
      Assoc(old(buf), LE(|ops|, 4), EncodeMany(ops, SubOp));
    }

    method PushSubOp(op: WalOp)
      modifies this`buf
      ensures buf == old(buf) + SubOp(op)
    {
      match op {
        case Set(key, value) =>
          Pushed5(buf, [OP_SET], LE(|key|, 4), key, LE(|value|, 4), value);
          Assoc(LE(|key|, 4), key, EncodeBlock(value));
          buf := buf + [OP_SET];
          buf := buf + LE(|key|, 4);
          buf := buf + key;
          buf := buf + LE(|value|, 4);
          buf := buf + value;
        case Del(key) =>
          Pushed3(buf, [OP_DEL], LE(|key|, 4), key);
          buf := buf + [OP_DEL];
          buf := buf + LE(|key|, 4);
          buf := buf + key;
        case Clear =>
          buf := buf + [OP_CLEAR];
      }
    }
  }

  // --------------------------------------------------------------------------------------
  // Reading loops
  // --------------------------------------------------------------------------------------

  /** One sub-operation at `off`: every index is checked before it is used. */
  method ReadSubOp(p: Bytes, off: nat) returns (r: Option<(WalOp, nat)>)
    requires off <= |p|
    ensures r.None? <==> DecodeSubOp(p[off..]).None?
    ensures r.Some? ==> off < r.value.1 <= |p| && DecodeSubOp(p[off..]) == Some((r.value.0, p[r.value.1..]))
  {
    if off + 1 > |p| {
      return None;
    }
    var tag, o := p[off], off + 1;
    SliceSlice(p, off, 1);
    if tag == OP_SET {
      var key := ReadBlock(p, o);
      if key.None? { return None; }
      var value := ReadBlock(p, key.value.1);
      if value.None? { return None; }
      return Some((Set(key.value.0, value.value.0), value.value.1));
    } else if tag == OP_DEL {
      var key := ReadBlock(p, o);
      if key.None? { return None; }
      return Some((Del(key.value.0), key.value.1));
    } else if tag == OP_CLEAR {
      return Some((Clear, o));
    } else {
      return None;
    }
  }

  method ReadBatch(p: Bytes) returns (r: Option<seq<WalOp>>)
    ensures r == DecodeBatch(p)
  {
    if |p| < 4 {
      return None;
    }
    var count := UnLE(p[..4]);
    var ops, off := [], 4;
    ghost var all := DecodeMany(p[4..], count, DecodeSubOp);
    PrependNothing(all);
    for i := 0 to count
      invariant 4 <= off <= |p|
      invariant all == Prepend(ops, DecodeMany(p[off..], count - i, DecodeSubOp))
    {
      var next := ReadSubOp(p, off);
      if next.None? {
        return None;
      }
      ghost var rest := DecodeMany(p[next.value.1..], count - i - 1, DecodeSubOp);
      if rest.Some? { Assoc(ops, [next.value.0], rest.value.0); }
      ops, off := ops + [next.value.0], next.value.1;
    }
    assert ops + [] == ops;
    return Some(ops);
  }

  /** Offsets into the file are offsets into what is left of it. */
  lemma FrameSlices(b: Bytes, off: nat, plen: nat)
    requires off + 17 <= |b|
    ensures b[off..][1..][..4] == b[off + 1..off + 5]
    ensures off + 17 + plen <= |b| ==>
      var c := b[off..];
      && c[..5 + plen + 8] == b[off..off + 5 + plen + 8]
      && c[5..][..plen] == b[off + 5..off + 5 + plen]
      && c[5..][plen..][..8] == b[off + 5 + plen..off + 5 + plen + 8]
      && c[5..][plen + 8..][..4] == b[off + 5 + plen + 8..off + 5 + plen + 12]
      && c[5..][plen + 12..] == b[off + 5 + plen + 12..]
  {
  }

  /** The frame at `off`, with the offset after it. */
  method ReadFrame(b: Bytes, off: nat, crc: Crc) returns (r: Option<(Stamped, nat)>)
    requires off <= |b|
    ensures r.None? <==> FirstFrame(b[off..], crc).None?
    ensures r.Some? ==> off < r.value.1 <= |b| && FirstFrame(b[off..], crc) == Some((r.value.0, b[r.value.1..]))
  {
    if off + 17 > |b| {
      return None;
    }
    var op := b[off];
    var plen := UnLE(b[off + 1..off + 5]);
    FrameSlices(b, off, plen);
    var end := off + 5 + plen + 8 + 4;
    if end > |b| {
      return None;
    }
    var payload := b[off + 5..off + 5 + plen];
    var lsn := UnLE(b[off + 5 + plen..off + 5 + plen + 8]);
    if crc(b[off..off + 5 + plen + 8]) != UnLE(b[end - 4..end]) {
      return None;
    }
    if op == OP_BATCH_V3 {
      var ops := ReadBatch(payload);
      if ops.None? { return None; }
      return Some((Stamped(Batch(ops.value), lsn), end));
    } else {
      var single := DecodeSingle(op, payload);
      if single.None? { return None; }
      return Some((Stamped(Single(single.value), lsn), end));
    }
  }

  method ReadFrames(b: Bytes, crc: Crc) returns (fs: seq<Stamped>, off: nat, warns: nat)
    requires |b| >= HEADER_LENGTH
    ensures HEADER_LENGTH <= off <= |b| && ScanMany(b[32..], FrameDecoder(crc)) == (fs, b[off..])
    ensures warns <= 1 && (warns == 1 ==> off < |b|)
  {
    ghost var all := ScanMany(b[32..], FrameDecoder(crc));
    fs, off, warns := [], HEADER_LENGTH, 0;
    assert [] + all.0 == all.0;
    while off + 17 <= |b|
      invariant HEADER_LENGTH <= off <= |b|
      invariant var rest := ScanMany(b[off..], FrameDecoder(crc)); all == (fs + rest.0, rest.1)
      invariant warns == 0
    {
      var next := ReadFrame(b, off, crc);
      if next.None? {
        warns := warns + 1;
        break;
      }
      ghost var rest := ScanMany(b[next.value.1..], FrameDecoder(crc));
      Assoc(fs, [next.value.0], rest.0);
      fs, off := fs + [next.value.0], next.value.1;
    }
    assert FirstFrame(b[off..], crc).None?;
    assert fs + [] == fs;
  }

  /** Replay a log with a header: on any bytes it stops within bounds, at the first frame that
      is not whole and valid. */
  method ReplayFile(b: Bytes, crc: Crc, decode: (byte, Bytes) -> Option<Frame>) returns (r: Replay)
    requires HasHeader(b)
    ensures r == ReplayLog(b, crc, decode)
  {
    if crc(b[..28]) != UnLE(b[28..32]) {
      return Replay([], 1, None, 0);
    }
    var version := UnLE(b[8..10]);
    if version != VERSION {
      return Replay([], 1, Some(Header(version, 0, 0)), 0);
    }
    var fs, off, warns := ReadFrames(b, crc);
    if off < |b| && warns == 0 {
      warns := warns + 1;
    }
    var header := Header(version, UnLE(b[12..20]), UnLE(b[20..28]));
    r := Replay(FramesOf(fs), warns, Some(header), MaxLsn(fs));
  }
}
