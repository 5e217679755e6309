/** Dotted keys and the paths they stand for. A key is a byte string; splitting it at the
    dots gives its path, a non-empty sequence of segments. */
module Paths {
  import opened Bytes

  type Path = seq<Bytes>

  predicate DotFree(s: Bytes) { DOT !in s }

  /** Position of the first dot, or the length when there is none. */
  function SegmentLength(k: Bytes): (n: nat)
    ensures n <= |k|
  {
    if k == [] || k[0] == DOT then 0 else 1 + SegmentLength(k[1..])
  }

  function Split(k: Bytes): (p: Path)
    ensures |p| >= 1
    decreases |k|
  {
    var n := SegmentLength(k);
    if n == |k| then [k] else [k[..n]] + Split(k[n + 1..])
  }

  lemma {:induction false} SegmentLengthStops(k: Bytes)
    ensures DotFree(k[..SegmentLength(k)])
    ensures SegmentLength(k) < |k| ==> k[SegmentLength(k)] == DOT
    decreases |k|
  {
    if k != [] && k[0] != DOT {
      SegmentLengthStops(k[1..]);
      assert k[..SegmentLength(k)] == [k[0]] + k[1..][..SegmentLength(k[1..])];
    }
  }

  function Join(p: Path): Bytes
    requires |p| >= 1
  {
    if |p| == 1 then p[0] else p[0] + [DOT] + Join(p[1..])
  }

  /** `k` lies strictly below `a`: it continues `a` with a dot. */
  predicate Under(a: Bytes, k: Bytes) {
    |a| < |k| && a == k[..|a|] && k[|a|] == DOT
  }

  lemma {:induction false} SegmentLengthOf(s: Bytes, rest: Bytes)
    requires DotFree(s)
    ensures SegmentLength(s) == |s|
    ensures SegmentLength(s + [DOT] + rest) == |s|
    decreases |s|
  {
    var k := s + [DOT] + rest;
    if s == [] {
      assert k[0] == DOT;
    } else {
      assert k[1..] == s[1..] + [DOT] + rest;
      SegmentLengthOf(s[1..], rest);
    }
  }

  lemma {:induction false} SplitDotFree(s: Bytes)
    requires DotFree(s)
    ensures Split(s) == [s]
  {
    SegmentLengthOf(s, []);
  }

  lemma SplitSegmentFirst(s: Bytes, rest: Bytes)
    requires DotFree(s)
    ensures Split(s + [DOT] + rest) == [s] + Split(rest)
  {
    SegmentLengthOf(s, rest);
    var k := s + [DOT] + rest;
    assert k[..|s|] == s && k[|s| + 1..] == rest;
  }

  /** A key is one segment, or a segment, a dot and a shorter key. */
  lemma FirstDot(k: Bytes) returns (s: Bytes, r: Option<Bytes>)
    ensures DotFree(s)
    ensures r.None? ==> k == s
    ensures r.Some? ==> k == s + [DOT] + r.value && |r.value| < |k|
  {
    var n := SegmentLength(k);
    SegmentLengthStops(k);
    s := k[..n];
    r := if n == |k| then None else Some(k[n + 1..]);
  }

  /** Splitting distributes over a dot. */
  lemma {:induction false} SplitDot(a: Bytes, b: Bytes)
    ensures Split(a + [DOT] + b) == Split(a) + Split(b)
    decreases |a|
  {
    var s, rest := FirstDot(a);
    SplitSegmentFirst(s, b);
    SplitDotFree(s);
    if rest.Some? {
      var r := rest.value;
      SplitDot(r, b);
      assert a + [DOT] + b == s + [DOT] + (r + [DOT] + b);
      SplitSegmentFirst(s, r + [DOT] + b);
      SplitSegmentFirst(s, r);
      assert [s] + (Split(r) + Split(b)) == ([s] + Split(r)) + Split(b);
    }
  }

  lemma {:induction false} SplitSegments(k: Bytes)
    ensures forall s :: s in Split(k) ==> DotFree(s)
    decreases |k|
  {
    var s, rest := FirstDot(k);
    SplitDotFree(s);
    if rest.Some? {
      SplitSegments(rest.value);
      SplitSegmentFirst(s, rest.value);
    }
  }

  lemma JoinCons(s: Bytes, p: Path)
    requires |p| >= 1
    ensures Join([s] + p) == s + [DOT] + Join(p)
  {
    assert ([s] + p)[1..] == p;
  }

  lemma {:induction false} JoinSplit(k: Bytes)
    ensures Join(Split(k)) == k
    decreases |k|
  {
    var s, rest := FirstDot(k);
    SplitDotFree(s);
    if rest.Some? {
      JoinSplit(rest.value);
      SplitSegmentFirst(s, rest.value);
      JoinCons(s, Split(rest.value));
    }
  }

  lemma {:induction false} SplitJoin(p: Path)
    requires |p| >= 1
    requires forall s :: s in p ==> DotFree(s)
    ensures Split(Join(p)) == p
    decreases |p|
  {
    SplitDotFree(p[0]);
    if |p| > 1 {
      SplitJoin(p[1..]);
      SplitDot(p[0], Join(p[1..]));
      assert p == [p[0]] + p[1..];
    }
  }

  lemma SplitInjective(a: Bytes, b: Bytes)
    requires Split(a) == Split(b)
    ensures a == b
  {
    JoinSplit(a);
    JoinSplit(b);
  }

  lemma {:induction false} JoinConcat(p: Path, q: Path)
    requires |p| >= 1 && |q| >= 1
    ensures Join(p + q) == Join(p) + [DOT] + Join(q)
    decreases |p|
  {
    if |p| == 1 {
      assert (p + q)[1..] == q;
    } else {
      assert (p + q)[1..] == p[1..] + q;
      JoinConcat(p[1..], q);
    }
  }

  lemma UnderSplits(a: Bytes, k: Bytes)
    requires Under(a, k)
    ensures k == a + [DOT] + k[|a| + 1..]
    ensures Split(k) == Split(a) + Split(k[|a| + 1..])
  {
    assert k == a + [DOT] + k[|a| + 1..];
    SplitDot(a, k[|a| + 1..]);
  }

  lemma PrefixIsUnder(a: Bytes, k: Bytes)
    requires Split(a) <= Split(k) && a != k
    ensures Under(a, k)
  {
    var q := Split(k)[|Split(a)|..];
    assert Split(k) == Split(a) + q;
    JoinSplit(k);
    JoinSplit(a);
    assert q == [] ==> Split(k) == Split(a);
    JoinConcat(Split(a), q);
  }

  /** The byte test the store uses is the prefix order on paths. */
  lemma UnderIsProperPrefix(a: Bytes, k: Bytes)
    ensures Under(a, k) <==> Split(a) <= Split(k) && a != k
    ensures Under(a, k) ==> k == a + [DOT] + k[|a| + 1..] && Split(k) == Split(a) + Split(k[|a| + 1..])
  {
    if Under(a, k) {
      UnderSplits(a, k);
    } else if Split(a) <= Split(k) && a != k {
      PrefixIsUnder(a, k);
    }
  }

  /** Two prefixes of one path are comparable. */
  lemma ComparablePrefixes(a: Path, b: Path, p: Path)
    requires a <= p && b <= p
    ensures a <= b || b <= a
  {
    if |a| <= |b| {
      assert a == p[..|a|] && b[..|a|] == p[..|a|];
    } else {
      assert b == p[..|b|] && a[..|b|] == p[..|b|];
    }
  }

  /** Among keys, "at or under" is comparability of paths: the one overlap that matters. */
  predicate Related(a: Bytes, b: Bytes) {
    a == b || Under(a, b) || Under(b, a)
  }

  lemma RelatedIffComparable(a: Bytes, b: Bytes)
    ensures Related(a, b) <==> Split(a) <= Split(b) || Split(b) <= Split(a)
  {
    UnderIsProperPrefix(a, b);
    UnderIsProperPrefix(b, a);
  }
}
