/** What the flat store does to its map, operation by operation, and what each operation means
    for the nested tree the map pretends to be. */
module StoreSpec {
  import opened Bytes
  import opened Paths
  import opened Json

  type Tree = map<Bytes, Json>

  // --------------------------------------------------------------------------------------
  // Operations on the flat map
  // --------------------------------------------------------------------------------------

  /** Length of the first proper dotted prefix of `k`, searched from `i`, that is a key. */
  function AncestorFrom(keys: set<Bytes>, k: Bytes, i: nat): (r: Option<nat>)
    requires i <= |k|
    ensures r.Some? ==> i <= r.value < |k| && Under(k[..r.value], k) && k[..r.value] in keys
    ensures r.None? ==> forall a :: a in keys && Under(a, k) ==> |a| < i
    decreases |k| - i
  {
    if i == |k| then None
    else if k[i] == DOT && k[..i] in keys then Some(i)
    else AncestorFrom(keys, k, i + 1)
  }

  /** Drop `k` and everything below it. */
  function Prune(m: Tree, k: Bytes): Tree {
    map x | x in m && x != k && !Under(k, x) :: m[x]
  }

  predicate Occupied(m: Tree, k: Bytes) {
    k in m || exists x :: x in m && Under(k, x)
  }

  function SetFn(m: Tree, k: Bytes, v: Json): Tree {
    match AncestorFrom(m.Keys, k, 0)
    case None => Prune(m, k)[k := v]
    case Some(i) =>
      var a := k[..i];
      if m[a].Obj? then Prune(m, a)[a := Obj(InsertAt(m[a].fields, Split(k[i + 1..]), v))]
      else Prune(m - {a}, k)[k := v]
  }

  /** Remove the node for `k` from inside the object stored at its ancestor `a`. */
  function RemoveInside(m: Tree, a: Bytes, k: Bytes): Option<Tree>
    requires a in m && Under(a, k)
  {
    if !m[a].Obj? then None
    else match RemoveAt(m[a].fields, Split(k[|a| + 1..]))
      case None => None
      case Some(fs) => Some(m[a := Obj(fs)])
  }

  function DeleteFn(m: Tree, k: Bytes): (Tree, bool) {
    if Occupied(m, k) then (Prune(m, k), true)
    else match AncestorFrom(m.Keys, k, 0)
      case None => (m, false)
      case Some(i) =>
        match RemoveInside(m, k[..i], k)
        case None => (m, false)
        case Some(m') => (m', true)
  }

  // --------------------------------------------------------------------------------------
  // Rebuilding a branch from the keys below it, and reading
  // --------------------------------------------------------------------------------------

  predicate InRange(x: Bytes, lo: Bytes, hi: Bytes) {
    !Less(x, lo) && Less(x, hi)
  }

  /** The half-open byte range the store scans for the keys below `k`, in order. */
  function DescendantKeys(keys: set<Bytes>, k: Bytes): (r: seq<Bytes>)
    ensures StrictlySorted(r)
    ensures forall x :: x in r <==> x in keys && InRange(x, k + [DOT], k + [DOT, 0xFF])
  {
    Sorted(set x | x in keys && InRange(x, k + [DOT], k + [DOT, 0xFF]))
  }

  lemma {:induction false} BetweenPrefix(p: Bytes, x: Bytes)
    requires !Less(x, p) && Less(x, p + [0xFF])
    ensures p <= x
    decreases |p|
  {
    if p != [] {
      assert (p + [0xFF])[1..] == p[1..] + [0xFF];
      BetweenPrefix(p[1..], x[1..]);
      assert p == [p[0]] + p[1..] && x == [x[0]] + x[1..];
    }
  }

  lemma InRangeBelow(k: Bytes, x: Bytes)
    ensures InRange(x, k + [DOT], k + [DOT, 0xFF]) ==> |k| + 1 <= |x| && x[..|k|] == k && x[|k|] == DOT
    ensures Under(k, x) && IsText(x) ==> InRange(x, k + [DOT], k + [DOT, 0xFF])
  {
    var p := k + [DOT];
    assert k + [DOT, 0xFF] == p + [0xFF];
    if InRange(x, p, p + [0xFF]) {
      BetweenPrefix(p, x);
      assert x[..|k|] == p[..|k|];
    }
    if Under(k, x) && IsText(x) {
      var r := x[|p|..];
      assert x == p + r && p == p + [];
      LessCommonPrefix(p, r, []);
      LessCommonPrefix(p, r, [0xFF]);
      assert r != [] ==> r[0] in x;
    }
  }

  /** The segment of `x` that starts at position `n`. */
  function SegmentAt(x: Bytes, n: nat): Bytes
    requires n <= |x|
  {
    x[n..][..SegmentLength(x[n..])]
  }

  /** Segments directly below a path of length `n - 1`, an immediate repetition dropped. */
  function ChildSegments(keys: seq<Bytes>, n: nat, last: Option<Bytes>): seq<Bytes>
    requires forall x :: x in keys ==> n <= |x|
    decreases |keys|
  {
    if keys == [] then []
    else
      var seg := SegmentAt(keys[0], n);
      if last == Some(seg) then ChildSegments(keys[1..], n, last)
      else [seg] + ChildSegments(keys[1..], n, Some(seg))
  }

  lemma {:induction false} ChildSegmentsOf(keys: seq<Bytes>, n: nat, last: Option<Bytes>)
    requires forall x :: x in keys ==> n <= |x|
    ensures forall s :: s in ChildSegments(keys, n, last) ==> exists x :: x in keys && s == SegmentAt(x, n)
    ensures forall x :: x in keys ==> SegmentAt(x, n) in ChildSegments(keys, n, last) || last == Some(SegmentAt(x, n))
    decreases |keys|
  {
    if keys != [] {
      assert keys[0] in keys;
      assert forall x :: x in keys <==> x == keys[0] || x in keys[1..];
      ChildSegmentsOf(keys[1..], n, Some(SegmentAt(keys[0], n)));
    }
  }

  function ResolveNode(m: Tree, path: Bytes, bound: nat): Option<Json>
    requires forall x :: x in m ==> |x| <= bound
    decreases if |path| <= bound then bound - |path| else 0, 1, 0
  {
    if path in m then (if m[path].NotJson? then None else Some(m[path]))
    else
      var keys := DescendantKeys(m.Keys, path);
      assert forall x :: x in keys ==> |path| + 1 <= |x| by {
        forall x | x in keys ensures |path| + 1 <= |x| { InRangeBelow(path, x); }
      }
      var segs := ChildSegments(keys, |path| + 1, None);
      if segs == [] then None
      else
        assert forall s :: s in segs ==> |path| + 1 + |s| <= bound by {
          ChildSegmentsOf(keys, |path| + 1, None);
        }
        match ResolveChildren(m, path, segs, NoField, bound)
        case None => None
        case Some(fs) => Some(Obj(fs))
  }

  function ResolveChildren(m: Tree, path: Bytes, segs: seq<Bytes>, done: Fields, bound: nat): Option<Fields>
    requires forall x :: x in m ==> |x| <= bound
    requires forall s :: s in segs ==> |path| + 1 + |s| <= bound
    decreases if |path| <= bound then bound - |path| else 0, 0, |segs|
  {
    if segs == [] then Some(done)
    else
      assert segs[0] in segs;
      match ResolveNode(m, path + [DOT] + segs[0], bound)
      case None => None
      case Some(v) => ResolveChildren(m, path, segs[1..], InsertField(done, segs[0], v), bound)
  }

  function Longest(keys: seq<Bytes>): (n: nat)
    ensures forall x :: x in keys ==> |x| <= n
  {
    if keys == [] then 0
    else
      var r := Longest(keys[1..]);
      assert forall x :: x in keys ==> x == keys[0] || x in keys[1..];
      if |keys[0]| > r then |keys[0]| else r
  }

  /** The node at `path`: an exact entry, or an object assembled from the children. */
  function Resolve(m: Tree, path: Bytes): Option<Json> {
    ResolveNode(m, path, Longest(Sorted(m.Keys)))
  }

  function GetFn(m: Tree, k: Bytes): (Tree, Option<Json>) {
    if k in m then (m, Some(m[k]))
    else match AncestorFrom(m.Keys, k, 0)
      case Some(i) => (m, if m[k[..i]].NotJson? then None else Descend(m[k[..i]], Split(k[i + 1..])))
      case None =>
        match Resolve(m, k)
        case None => (m, None)
        case Some(v) => (Prune(m, k)[k := v], Some(v))
  }

  // --------------------------------------------------------------------------------------
  // The invariant
  // --------------------------------------------------------------------------------------

  /** No key is a dotted ancestor of another. */
  ghost predicate PrefixFree(keys: set<Bytes>) {
    forall a, b {:trigger Under(a, b)} :: a in keys && b in keys ==> !Under(a, b)
  }

  /** Keys are UTF-8 text: no byte is 0xFF; and no key is empty. */
  predicate KeyOk(k: Bytes) { k != [] && IsText(k) }

  ghost predicate Consistent(m: Tree) {
    && PrefixFree(m.Keys)
    && (forall k :: k in m ==> KeyOk(k))
    && (forall k :: k in m ==> WellFormed(m[k]))
  }

  // --------------------------------------------------------------------------------------
  // The view
  // --------------------------------------------------------------------------------------

  predicate Owns(k: Bytes, p: Path) { Split(k) <= p }

  /** The leaf the store shows at path `p`. */
  ghost function View(m: Tree, p: Path): Option<Json> {
    if exists k :: k in m && Owns(k, p) then
      var k :| k in m && Owns(k, p);
      LeafAt(m[k], p[|Split(k)|..])
    else None
  }

  lemma OwnerUnique(m: Tree, a: Bytes, b: Bytes, p: Path)
    requires PrefixFree(m.Keys) && a in m && b in m && Owns(a, p) && Owns(b, p)
    ensures a == b
  {
    ComparablePrefixes(Split(a), Split(b), p);
    RelatedIffComparable(a, b);
  }

  lemma ViewAt(m: Tree, k: Bytes, p: Path)
    requires PrefixFree(m.Keys) && k in m && Owns(k, p)
    ensures View(m, p) == LeafAt(m[k], p[|Split(k)|..])
  {
    var j :| j in m && Owns(j, p) && View(m, p) == LeafAt(m[j], p[|Split(j)|..]);
    OwnerUnique(m, j, k, p);
  }

  lemma ViewNone(m: Tree, p: Path)
    requires forall k :: k in m ==> !Owns(k, p)
    ensures View(m, p).None?
  {
  }

  /** If two maps agree on the entries that own `p`, they show the same leaf there. */
  lemma ViewSame(m: Tree, m': Tree, p: Path)
    requires PrefixFree(m.Keys) && PrefixFree(m'.Keys)
    requires forall k :: Owns(k, p) ==> (k in m <==> k in m')
    requires forall k :: k in m && Owns(k, p) ==> m'[k] == m[k]
    ensures View(m', p) == View(m, p)
  {
    if k :| k in m && Owns(k, p) {
      ViewAt(m, k, p);
      ViewAt(m', k, p);
    }
  }

  /** Two stores that show the same leaf at every path. */
  ghost predicate SameView(a: Tree, b: Tree) {
    forall p :: View(a, p) == View(b, p)
  }
}
