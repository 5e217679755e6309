/** Runs of self-delimiting encodings: written one after another, read back by count or until
    something does not decode. */
module Codec {
  import opened Bytes

  type Decoder<T> = Bytes -> Option<(T, Bytes)>

  function EncodeMany<T>(xs: seq<T>, enc: T -> Bytes): Bytes {
    if xs == [] then [] else enc(xs[0]) + EncodeMany(xs[1..], enc)
  }

  function DecodeMany<T>(b: Bytes, n: nat, dec: Decoder<T>): Option<(seq<T>, Bytes)>
    decreases n
  {
    if n == 0 then Some(([], b))
    else match dec(b)
      case None => None
      case Some((x, rest)) =>
        match DecodeMany(rest, n - 1, dec)
        case None => None
        case Some((xs, left)) => Some(([x] + xs, left))
  }

  /** Everything that decodes, and the bytes at which decoding stopped. */
  function ScanMany<T>(b: Bytes, dec: Decoder<T>): (r: (seq<T>, Bytes))
    decreases |b|
  {
    match dec(b)
    case None => ([], b)
    case Some((x, rest)) =>
      if |rest| >= |b| then ([], b)
      else
        var r := ScanMany(rest, dec);
        ([x] + r.0, r.1)
  }

  /** Each item is recovered from its encoding, whatever follows it. */
  ghost predicate Recovers<T>(xs: seq<T>, enc: T -> Bytes, dec: Decoder<T>) {
    forall x, post :: x in xs ==> dec(enc(x) + post) == Some((x, post))
  }

  /** No proper prefix of an encoding decodes. */
  ghost predicate TornRejected<T>(xs: seq<T>, enc: T -> Bytes, dec: Decoder<T>) {
    forall x, n :: x in xs && 0 <= n < |enc(x)| ==> dec(enc(x)[..n]).None?
  }

  lemma {:induction false} DecodeManyEncoded<T>(xs: seq<T>, post: Bytes, enc: T -> Bytes, dec: Decoder<T>)
    requires Recovers(xs, enc, dec)
    ensures DecodeMany(EncodeMany(xs, enc) + post, |xs|, dec) == Some((xs, post))
    decreases |xs|
  {
    if xs == [] {
      assert [] + post == post;
    } else {
      assert xs[0] in xs;
      Assoc(enc(xs[0]), EncodeMany(xs[1..], enc), post);
      DecodeManyEncoded(xs[1..], post, enc, dec);
      assert xs == [xs[0]] + xs[1..];
    }
  }

  lemma {:induction false} EncodeManyLength<T>(xs: seq<T>, enc: T -> Bytes)
    requires forall x :: x in xs ==> enc(x) != []
    ensures |xs| <= |EncodeMany(xs, enc)|
    ensures forall x :: x in xs ==> |enc(x)| <= |EncodeMany(xs, enc)|
    decreases |xs|
  {
    if xs != [] {
      EncodeManyLength(xs[1..], enc);
      assert forall x :: x in xs <==> x == xs[0] || x in xs[1..];
    }
  }

  lemma {:induction false} EncodeManyConcat<T>(xs: seq<T>, ys: seq<T>, enc: T -> Bytes)
    ensures EncodeMany(xs + ys, enc) == EncodeMany(xs, enc) + EncodeMany(ys, enc)
    decreases |xs|
  {
    if xs == [] {
      assert xs + ys == ys;
    } else {
      assert (xs + ys)[1..] == xs[1..] + ys;
      EncodeManyConcat(xs[1..], ys, enc);
    }
  }

  lemma EncodeManySnoc<T>(xs: seq<T>, i: nat, enc: T -> Bytes)
    requires i < |xs|
    ensures EncodeMany(xs[..i + 1], enc) == EncodeMany(xs[..i], enc) + enc(xs[i])
  {
    assert xs[..i + 1] == xs[..i] + [xs[i]];
    EncodeManyConcat(xs[..i], [xs[i]], enc);
    assert EncodeMany([xs[i]], enc) == enc(xs[i]) + EncodeMany([xs[i]][1..], enc) == enc(xs[i]) + [];
  }

  /** How many of the items lie wholly within the first `n` bytes. */
  function Within<T>(xs: seq<T>, n: nat, enc: T -> Bytes): (r: nat)
    ensures r <= |xs|
    decreases |xs|
  {
    if xs == [] || |enc(xs[0])| > n then 0 else 1 + Within(xs[1..], n - |enc(xs[0])|, enc)
  }

  lemma {:induction false} WithinAll<T>(xs: seq<T>, enc: T -> Bytes)
    ensures Within(xs, |EncodeMany(xs, enc)|, enc) == |xs|
    decreases |xs|
  {
    if xs != [] { WithinAll(xs[1..], enc); }
  }

  /** What counting whole items means: they fit, and the next one does not. */
  lemma {:induction false} WithinMeaning<T>(xs: seq<T>, n: nat, enc: T -> Bytes)
    ensures var w := Within(xs, n, enc);
      && |EncodeMany(xs[..w], enc)| <= n
      && (w < |xs| ==> |EncodeMany(xs[..w + 1], enc)| > n)
    decreases |xs|
  {
    if xs != [] && |enc(xs[0])| <= n {
      var w := Within(xs[1..], n - |enc(xs[0])|, enc);
      WithinMeaning(xs[1..], n - |enc(xs[0])|, enc);
      assert xs[..w + 1][1..] == xs[1..][..w];
      if w < |xs[1..]| { assert xs[..w + 2][1..] == xs[1..][..w + 1]; }
    }
  }

  lemma TakeConcat(a: Bytes, b: Bytes, n: nat)
    requires n <= |a| + |b|
    ensures (a + b)[..n] == if n < |a| then a[..n] else a + b[..n - |a|]
  {
  }

  lemma ConsTake<T>(s: seq<T>, w: nat)
    requires s != [] && w < |s|
    ensures s[..w + 1] == [s[0]] + s[1..][..w]
  {
  }

  lemma ScanStep<T>(e: Bytes, rest: Bytes, x: T, dec: Decoder<T>)
    requires e != [] && dec(e + rest) == Some((x, rest))
    ensures ScanMany(e + rest, dec) == ([x] + ScanMany(rest, dec).0, ScanMany(rest, dec).1)
  {
  }

  /** Cutting a run at any byte keeps exactly the items that lie wholly before the cut. */
  lemma {:induction false} ScanCut<T>(xs: seq<T>, n: nat, enc: T -> Bytes, dec: Decoder<T>)
    requires Recovers(xs, enc, dec) && TornRejected(xs, enc, dec) && dec([]).None?
    requires forall x :: x in xs ==> enc(x) != []
    requires n <= |EncodeMany(xs, enc)|
    ensures ScanMany(EncodeMany(xs, enc)[..n], dec).0 == xs[..Within(xs, n, enc)]
    ensures n == |EncodeMany(xs, enc)| ==> ScanMany(EncodeMany(xs, enc)[..n], dec).1 == []
    decreases |xs|
  {
    if xs != [] {
      assert xs[0] in xs;
      var e, rest := enc(xs[0]), EncodeMany(xs[1..], enc);
      TakeConcat(e, rest, n);
      if n >= |e| {
        ScanStep(e, rest[..n - |e|], xs[0], dec);
        ScanCut(xs[1..], n - |e|, enc, dec);
        ConsTake(xs, Within(xs[1..], n - |e|, enc));
      }
    }
  }

  /** Whatever follows a run of items is read as it would be on its own. */
  lemma {:induction false} ScanThen<T>(xs: seq<T>, tail: Bytes, enc: T -> Bytes, dec: Decoder<T>)
    requires Recovers(xs, enc, dec)
    requires forall x :: x in xs ==> enc(x) != []
    ensures var r, t := ScanMany(EncodeMany(xs, enc) + tail, dec), ScanMany(tail, dec); r == (xs + t.0, t.1)
    decreases |xs|
  {
    if xs == [] {
      assert [] + tail == tail;
      assert [] + ScanMany(tail, dec).0 == ScanMany(tail, dec).0;
    } else {
      assert xs[0] in xs;
      var e, rest := enc(xs[0]), EncodeMany(xs[1..], enc);
      Assoc(e, rest, tail);
      assert dec(e + (rest + tail)) == Some((xs[0], rest + tail));
      ScanThen(xs[1..], tail, enc, dec);
      Assoc([xs[0]], xs[1..], ScanMany(tail, dec).0);
      assert xs == [xs[0]] + xs[1..];
    }
  }

  // --------------------------------------------------------------------------------------
  // Little-endian integers
  // --------------------------------------------------------------------------------------

  /** The low `w` bytes of `n`: wider values are truncated, as a narrowing cast does. */
  function LE(n: nat, w: nat): (r: Bytes)
    ensures |r| == w
  {
    if w == 0 then [] else [n % 256] + LE(n / 256, w - 1)
  }

  function UnLE(b: Bytes): nat {
    if b == [] then 0 else b[0] + 256 * UnLE(b[1..])
  }

  lemma {:induction false} UnLEofLE(n: nat, w: nat)
    requires n < Width(w)
    ensures UnLE(LE(n, w)) == n
  {
    if w > 0 { UnLEofLE(n / 256, w - 1); }
  }

  lemma Read32(n: nat)
    requires n < 0x1_0000_0000
    ensures UnLE(LE(n, 4)) == n
  {
    assert Width(4) == 256 * Width(3) == 256 * 256 * Width(2);
    UnLEofLE(n, 4);
  }

  // --------------------------------------------------------------------------------------
  // Length-prefixed blocks
  // --------------------------------------------------------------------------------------

  function U32At(b: Bytes, i: nat): nat
    requires i + 4 <= |b|
  {
    (b[i] as int) + 0x100 * (b[i + 1] as int) + 0x1_0000 * (b[i + 2] as int) + 0x100_0000 * (b[i + 3] as int)
  }

  lemma U32OfLE(n: nat, post: Bytes)
    requires n < 0x1_0000_0000
    ensures U32At(LE(n, 4) + post, 0) == n
  {
    var l := LE(n, 4);
    assert l == [n % 256] + LE(n / 256, 3);
    assert LE(n / 256, 3) == [n / 256 % 256] + LE(n / 256 / 256, 2);
    assert LE(n / 256 / 256, 2) == [n / 256 / 256 % 256] + LE(n / 256 / 256 / 256, 1);
    assert LE(n / 256 / 256 / 256, 1) == [n / 256 / 256 / 256 % 256] + LE(n / 256 / 256 / 256 / 256, 0);
  }

  function EncodeBlock(x: Bytes): Bytes { LE(|x|, 4) + x }

  /** A 32-bit length, that many bytes, and what follows them. */
  function DecodeBlock(b: Bytes): (r: Option<(Bytes, Bytes)>)
    ensures r.Some? ==> |r.value.1| + 4 <= |b|
  {
    if |b| < 4 then None
    else
      var n := U32At(b, 0);
      if |b[4..]| < n then None else Some((b[4..][..n], b[4..][n..]))
  }

  lemma BlockDecodes(x: Bytes, post: Bytes)
    requires |x| < 0x1_0000_0000
    ensures DecodeBlock(EncodeBlock(x) + post) == Some((x, post))
  {
    U32OfLE(|x|, x + post);
    Assoc(LE(|x|, 4), x, post);
  }

  lemma SliceSlice(b: Bytes, off: nat, n: nat)
    requires off + n <= |b|
    ensures b[off..][..n] == b[off..off + n]
    ensures b[off..][n..] == b[off + n..]
  {
  }

  /** Read the block at `off`, checking every bound before the bytes are used. */
  method ReadBlock(b: Bytes, off: nat) returns (r: Option<(Bytes, nat)>)
    requires off <= |b|
    ensures r.None? <==> DecodeBlock(b[off..]).None?
    ensures r.Some? ==> off + 4 <= r.value.1 <= |b| && DecodeBlock(b[off..]) == Some((r.value.0, b[r.value.1..]))
  {
    if off + 4 > |b| {
      return None;
    }
    SliceSlice(b, off, 4);
    var n := U32At(b, off);
    var o := off + 4;
    if o + n > |b| {
      return None;
    }
    SliceSlice(b, o, n);
    return Some((b[o..o + n], o + n));
  }

  function Prepend<T>(xs: seq<T>, r: Option<(seq<T>, Bytes)>): Option<(seq<T>, Bytes)> {
    match r case None => None case Some((ys, left)) => Some((xs + ys, left))
  }

  lemma PrependNothing<T>(r: Option<(seq<T>, Bytes)>)
    ensures Prepend([], r) == r
  {
    if r.Some? { assert [] + r.value.0 == r.value.0; }
  }
}
