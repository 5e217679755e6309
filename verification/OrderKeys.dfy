/** Order keys: byte strings whose lexicographic order is the order an index sorts values in. */
module OrderKeys {
  import opened Bytes
  import opened Json
  import opened FieldSplitter

  const SIGN: nat := 0x8000_0000_0000_0000
  const FRACTION: nat := 0x10_0000_0000_0000

  // --------------------------------------------------------------------------------------
  // Big-endian integers
  // --------------------------------------------------------------------------------------

  /** The low `w` bytes of `n`, most significant first. */
  function BE(n: nat, w: nat): (r: Bytes)
    ensures |r| == w
  {
    if w == 0 then [] else BE(n / 256, w - 1) + [n % 256]
  }

  lemma {:induction false} LessSnoc(x: Bytes, y: Bytes, c: byte, d: byte)
    requires |x| == |y|
    ensures Less(x + [c], y + [d]) <==> Less(x, y) || (x == y && c < d)
    decreases |x|
  {
    if x == [] {
      assert x + [c] == [c] && y + [d] == [d];
      assert [c][1..] == [] && [d][1..] == [];
    } else {
      assert (x + [c])[1..] == x[1..] + [c] && (y + [d])[1..] == y[1..] + [d];
      LessSnoc(x[1..], y[1..], c, d);
      assert x == [x[0]] + x[1..] && y == [y[0]] + y[1..];
    }
  }

  /** Big-endian bytes of one length are ordered as the numbers are. */
  lemma {:induction false} BEOrder(a: nat, b: nat, w: nat)
    requires a < Width(w) && b < Width(w)
    ensures Less(BE(a, w), BE(b, w)) <==> a < b
    ensures BE(a, w) == BE(b, w) <==> a == b
  {
    if w > 0 {
      BEOrder(a / 256, b / 256, w - 1);
      LessSnoc(BE(a / 256, w - 1), BE(b / 256, w - 1), a % 256, b % 256);
      var x, y := BE(a, w), BE(b, w);
      assert x[..w - 1] == BE(a / 256, w - 1) && y[..w - 1] == BE(b / 256, w - 1);
      assert x[w - 1] == a % 256 && y[w - 1] == b % 256;
    }
  }

  lemma EightBytes()
    ensures Width(8) == 0x1_0000_0000_0000_0000
  {
    assert Width(4) == 256 * Width(3) == 256 * (256 * Width(2));
    assert Width(8) == 256 * Width(7) == 256 * (256 * Width(6));
    assert Width(6) == 256 * Width(5) == 256 * (256 * Width(4));
  }

  // --------------------------------------------------------------------------------------
  // Binary64 patterns
  // --------------------------------------------------------------------------------------

  /** All bits flipped for a negative number, the sign bit set for any other. */
  function Sortable(bits: Pattern): Pattern {
    if bits >= SIGN then 0xFFFF_FFFF_FFFF_FFFF - bits else bits + SIGN
  }

  predicate Negative(bits: Pattern) { bits >= SIGN }

  function Magnitude(bits: Pattern): nat { if Negative(bits) then bits - SIGN else bits }

  /** The totalOrder of IEEE 754-2008, section 5.10, on patterns that are not NaN: negatives
      first, by falling magnitude, then the others by rising magnitude; -0 comes before +0. */
  predicate TotalOrder(a: Pattern, b: Pattern) {
    if Negative(a) then (if Negative(b) then Magnitude(a) > Magnitude(b) else true)
    else !Negative(b) && Magnitude(a) < Magnitude(b)
  }

  function Pow2(n: nat): (r: nat)
    ensures r >= 1
  {
    if n == 0 then 1 else 2 * Pow2(n - 1)
  }

  /** A magnitude in units of 2^-1074: the exponent field scales the fraction, which has a hidden
      leading one unless the exponent is 0. */
  function Units(m: nat): nat {
    var e, f := m / FRACTION, m % FRACTION;
    if e == 0 then f else (FRACTION + f) * Pow2(e - 1)
  }

  function Value(bits: Pattern): int {
    var units: int := Units(Magnitude(bits));
    if Negative(bits) then -units else units
  }

  lemma Scaled(a: nat, b: nat, p: nat)
    requires a < b && p >= 1
    ensures a * p < b * p
  {
  }

  lemma UnitsStep(m: nat)
    ensures Units(m) < Units(m + 1)
  {
    var e, f := m / FRACTION, m % FRACTION;
    if f + 1 < FRACTION {
      assert (m + 1) / FRACTION == e && (m + 1) % FRACTION == f + 1;
      if e > 0 { Scaled(FRACTION + f, FRACTION + f + 1, Pow2(e - 1)); }
    } else {
      assert m == e * FRACTION + f && m + 1 == (e + 1) * FRACTION;
      assert (m + 1) / FRACTION == e + 1 && (m + 1) % FRACTION == 0;
      if e > 0 {
        Scaled(FRACTION + f, 2 * FRACTION, Pow2(e - 1));
        assert FRACTION * Pow2(e) == 2 * FRACTION * Pow2(e - 1);
      }
    }
  }

  lemma {:induction false} UnitsMonotone(a: nat, b: nat)
    requires a < b
    ensures Units(a) < Units(b)
    decreases b - a
  {
    UnitsStep(b - 1);
    if a < b - 1 { UnitsMonotone(a, b - 1); }
  }

  /** On values, the total order is the numeric order, except that it tells the two zeros apart. */
  lemma TotalOrderOnValues(a: Pattern, b: Pattern)
    ensures TotalOrder(a, b) <==> Value(a) < Value(b) || (a == SIGN && b == 0)
  {
    var x, y := Magnitude(a), Magnitude(b);
    if x < y { UnitsMonotone(x, y); }
    if y < x { UnitsMonotone(y, x); }
    if x > 0 { UnitsMonotone(0, x); }
    if y > 0 { UnitsMonotone(0, y); }
  }

  // --------------------------------------------------------------------------------------
  // Order keys
  // --------------------------------------------------------------------------------------

  function Rank(v: Json): byte {
    match v
    case Null => 0
    case Bool(b) => if b then 2 else 1
    case Num(_) => 3
    case Str(_) => 4
    case _ => 5
  }

  function OrderKey(v: Json): (r: Bytes)
    ensures r != [] && r[0] == Rank(v)
  {
    match v
    case Num(n) => [3] + BE(Sortable(n.bits), 8)
    case Str(s) => [4] + s
    case Null => [0]
    case Bool(b) => [Rank(v)]
    case _ => [5] + Print(v)
  }

  /** Only scalars are indexed. */
  predicate Indexable(v: Json) { !v.Obj? && !v.Arr? && !v.NotJson? }

  /** The order of an index: null, false, true, numbers, strings; within a type by value. */
  predicate Before(v: Json, w: Json) {
    || Rank(v) < Rank(w)
    || (v.Num? && w.Num? && TotalOrder(v.n.bits, w.n.bits))
    || (v.Str? && w.Str? && Less(v.text, w.text))
  }

  predicate Alike(v: Json, w: Json) {
    Rank(v) == Rank(w) && (v.Num? && w.Num? ==> v.n.bits == w.n.bits) && (v.Str? && w.Str? ==> v.text == w.text)
  }

  /** Comparing order keys byte by byte compares the values, and never mixes types. */
  lemma OrderKeysCompare(v: Json, w: Json)
    requires Indexable(v) && Indexable(w)
    ensures Less(OrderKey(v), OrderKey(w)) <==> Before(v, w)
    ensures OrderKey(v) == OrderKey(w) <==> Alike(v, w)
  {
    if Rank(v) == Rank(w) {
      var a, b := OrderKey(v), OrderKey(w);
      assert Less(a, b) <==> Less(a[1..], b[1..]);
      assert a == [a[0]] + a[1..] && b == [b[0]] + b[1..];
      if v.Num? {
        EightBytes();
        BEOrder(Sortable(v.n.bits), Sortable(w.n.bits), 8);
      }
    }
  }
}
