/** Byte strings, their lexicographic order (the order of a BTreeMap over byte keys), and
    the ordered enumeration of a finite set of keys. */
module Bytes {

  datatype Option<+T> = None | Some(value: T)

  type byte = b: int | 0 <= b < 256
  type Bytes = seq<byte>

  const DOT: byte := 0x2E

  /** UTF-8 text never contains the byte 0xFF. */
  predicate IsText(s: Bytes) {
    forall i :: 0 <= i < |s| ==> s[i] != 0xFF
  }

  /** Lexicographic order on byte strings. */
  predicate Less(a: Bytes, b: Bytes)
    decreases |a|
  {
    if a == [] then b != []
    else if b == [] then false
    else a[0] < b[0] || (a[0] == b[0] && Less(a[1..], b[1..]))
  }

  lemma {:induction false} LessTotal(a: Bytes, b: Bytes)
    ensures Less(a, b) || a == b || Less(b, a)
    ensures !(Less(a, b) && Less(b, a))
    ensures !Less(a, a)
    decreases |a|
  {
    if a != [] && b != [] && a[0] == b[0] {
      LessTotal(a[1..], b[1..]);
      assert a == [a[0]] + a[1..] && b == [b[0]] + b[1..];
    }
    if a != [] {
      LessTotal(a[1..], a[1..]);
    }
  }

  lemma {:induction false} LessTransitive(a: Bytes, b: Bytes, c: Bytes)
    requires Less(a, b) && Less(b, c)
    ensures Less(a, c)
    decreases |a|
  {
    if a != [] && a[0] == b[0] && b[0] == c[0] {
      LessTransitive(a[1..], b[1..], c[1..]);
    }
  }

  /** A proper prefix comes before everything that extends it. */
  lemma {:induction false} PrefixLess(p: Bytes, k: Bytes)
    requires p <= k && p != k
    ensures Less(p, k)
    decreases |p|
  {
    if p != [] {
      PrefixLess(p[1..], k[1..]);
    }
  }

  /** The order only looks at what follows a common prefix. */
  lemma {:induction false} LessCommonPrefix(p: Bytes, a: Bytes, b: Bytes)
    ensures Less(p + a, p + b) == Less(a, b)
    decreases |p|
  {
    if p == [] {
      assert p + a == a && p + b == b;
    } else {
      assert (p + a)[1..] == p[1..] + a && (p + b)[1..] == p[1..] + b;
      LessCommonPrefix(p[1..], a, b);
    }
  }

  // --------------------------------------------------------------------------------------
  // Ordered enumeration of a set of keys
  // --------------------------------------------------------------------------------------

  predicate StrictlySorted(s: seq<Bytes>) {
    forall i, j :: 0 <= i < j < |s| ==> Less(s[i], s[j])
  }

  predicate IsLeast(x: Bytes, s: set<Bytes>) {
    x in s && forall y :: y in s ==> y == x || Less(x, y)
  }

  lemma LeastUnique(s: set<Bytes>)
    ensures forall x, y :: IsLeast(x, s) && IsLeast(y, s) ==> x == y
  {
    forall x, y | IsLeast(x, s) && IsLeast(y, s) ensures x == y {
      LessTotal(x, y);
    }
  }

  lemma {:induction false} LeastExists(s: set<Bytes>) returns (x: Bytes)
    requires s != {}
    ensures IsLeast(x, s)
    decreases |s|
  {
    x :| x in s;
    if s != {x} {
      var rest := s - {x};
      var y := LeastExists(rest);
      LessTotal(x, y);
      forall z | z in s && z != (if Less(x, y) then x else y)
        ensures Less(if Less(x, y) then x else y, z)
      {
        if Less(x, y) && z != y { LessTransitive(x, y, z); }
      }
      x := if Less(x, y) then x else y;
    }
  }

  /** The keys of a set in ascending order: how a BTreeMap iterates. */
  function Sorted(s: set<Bytes>): (r: seq<Bytes>)
    ensures StrictlySorted(r)
    ensures forall x :: x in r <==> x in s
    decreases |s|
  {
    if s == {} then []
    else
      assert exists x :: IsLeast(x, s) by { var x := LeastExists(s); }
      LeastUnique(s);
      var x :| IsLeast(x, s);
      var rest := Sorted(s - {x});
      assert forall i :: 0 <= i < |rest| ==> Less(x, rest[i]) by {
        assert forall i :: 0 <= i < |rest| ==> rest[i] in rest;
      }
      [x] + rest
  }

  lemma SameHead(a: seq<Bytes>, b: seq<Bytes>)
    requires a != [] && b != [] && StrictlySorted(a) && StrictlySorted(b)
    requires forall x :: x in a <==> x in b
    ensures a[0] == b[0]
  {
    var i :| 0 <= i < |b| && b[i] == a[0] by { assert a[0] in b; }
    var j :| 0 <= j < |a| && a[j] == b[0] by { assert b[0] in a; }
    if i > 0 && j > 0 {
      LessTotal(a[0], b[0]);
    }
  }

  /** A strictly ascending sequence is determined by the set of its elements. */
  lemma {:induction false} SortedUnique(a: seq<Bytes>, b: seq<Bytes>)
    requires StrictlySorted(a) && StrictlySorted(b)
    requires forall x :: x in a <==> x in b
    ensures a == b
    decreases |a|
  {
    if a == [] {
      assert forall i :: 0 <= i < |b| ==> b[i] in b;
    } else {
      assert b != [] by { assert a[0] in b; }
      SameHead(a, b);
      forall x ensures x in a[1..] <==> x in b[1..] {
        LessTotal(a[0], a[0]);
        assert x in a <==> x == a[0] || x in a[1..];
        assert x in b <==> x == b[0] || x in b[1..];
      }
      SortedUnique(a[1..], b[1..]);
      assert a == [a[0]] + a[1..] && b == [b[0]] + b[1..];
    }
  }

  // --------------------------------------------------------------------------------------
  // Concatenation
  // --------------------------------------------------------------------------------------

  lemma Assoc<T>(a: seq<T>, b: seq<T>, c: seq<T>)
    ensures (a + b) + c == a + (b + c)
  {
  }

  /** Pieces pushed one after another form one appended block. */
  lemma Pushed3<T>(x: seq<T>, a: seq<T>, b: seq<T>, c: seq<T>)
    ensures x + a + b + c == x + (a + (b + c))
  {
    Assoc(x, a, b);
    Assoc(x, a + b, c);
    Assoc(a, b, c);
  }

  lemma Pushed5<T>(x: seq<T>, a: seq<T>, b: seq<T>, c: seq<T>, d: seq<T>, e: seq<T>)
    ensures x + a + b + c + d + e == x + (a + (b + (c + (d + e))))
  {
    Pushed3(x, a, b, c);
    Assoc(x, a + (b + c), d);
    Assoc(x, a + (b + c) + d, e);
    Assoc(a + (b + c), d, e);
    Assoc(a, b + c, d + e);
    Assoc(b, c, d + e);
  }

  /** The number of values that `w` bytes can hold. */
  function Width(w: nat): nat {
    if w == 0 then 1 else 256 * Width(w - 1)
  }
}
