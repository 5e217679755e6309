/** What a listing of the whole store shows: exactly the leaves of the view, each under its
    dotted path and printed. */
module ListingView {
  import opened Bytes
  import opened Paths
  import opened Json
  import opened FieldSplitter
  import opened Enumerate
  import opened StoreSpec
  import opened StoreView

  /** The bytes a store keeps for its values. */
  function Stored(m: Tree): ByteTree {
    map k | k in m :: Print(m[k])
  }

  /** No object in the document looks like an encrypted envelope. */
  predicate EnvelopeFree(v: Json) {
    v.Obj? ==> !IsEnvelope(Print(v)) && EnvelopeFreeFields(v.fields)
  }

  predicate EnvelopeFreeFields(fs: Fields) {
    fs.Field? ==> EnvelopeFree(fs.value) && EnvelopeFreeFields(fs.rest)
  }

  predicate Listable(v: Json) { WellFormed(v) && Printable(v) && EnvelopeFree(v) }

  predicate ListableFields(fs: Fields) {
    WellFormedFields(fs) && PrintableFields(fs) && EnvelopeFreeFields(fs)
  }

  /** `r` is the row of the leaf of `v` at `q`, when `v` stands at the path `base`. */
  predicate LeafRow(v: Json, base: Path, q: Path, r: Row)
    requires base != []
  {
    LeafAt(v, q).Some? && r == Row(Join(base + q), Print(LeafAt(v, q).value))
  }

  lemma NotAnObject(v: Json)
    requires Printable(v) && !v.Obj?
    ensures !StartsObject(Print(v))
  {
  }

  // --------------------------------------------------------------------------------------
  // The leaves of a document, in document order
  // --------------------------------------------------------------------------------------

  function Prefixed(base: Path, ps: seq<Path>): (r: seq<Path>)
    ensures |r| == |ps| && forall i :: 0 <= i < |ps| ==> r[i] == base + ps[i]
  {
    seq(|ps|, i requires 0 <= i < |ps| => base + ps[i])
  }

  function LeafPaths(v: Json): seq<Path> {
    if v.Obj? then FieldPaths(v.fields) else [[]]
  }

  function FieldPaths(fs: Fields): seq<Path> {
    match fs
    case NoField => []
    case Field(n, v, rest) => Prefixed([n], LeafPaths(v)) + FieldPaths(rest)
  }

  predicate Distinct(ps: seq<Path>) {
    forall i, j :: 0 <= i < j < |ps| ==> ps[i] != ps[j]
  }

  lemma PrefixedExact(base: Path, ps: seq<Path>, q: Path)
    ensures q in Prefixed(base, ps) <==> base <= q && q[|base|..] in ps
  {
    if q in Prefixed(base, ps) {
      var i :| 0 <= i < |ps| && Prefixed(base, ps)[i] == q;
      assert q[|base|..] == ps[i];
    }
    if base <= q && q[|base|..] in ps {
      var i :| 0 <= i < |ps| && ps[i] == q[|base|..];
      assert Prefixed(base, ps)[i] == q;
    }
  }

  lemma PrefixedDistinct(base: Path, ps: seq<Path>)
    requires Distinct(ps)
    ensures Distinct(Prefixed(base, ps))
  {
    var r := Prefixed(base, ps);
    forall i, j | 0 <= i < j < |r| ensures r[i] != r[j] {
      assert r[i][|base|..] == ps[i] && r[j][|base|..] == ps[j];
    }
  }

  lemma DistinctBoth(a: seq<Path>, b: seq<Path>)
    requires Distinct(a) && Distinct(b) && forall p :: p in a ==> p !in b
    ensures Distinct(a + b)
  {
    forall i, j | 0 <= i < j < |a + b| ensures (a + b)[i] != (a + b)[j] {
      if i < |a| <= j { assert a[i] in a && b[j - |a|] in b; }
    }
  }

  /** Each leaf of a document is listed once. */
  lemma {:induction false} LeafPathsExact(v: Json)
    requires WellFormed(v)
    ensures Distinct(LeafPaths(v))
    ensures forall q :: q in LeafPaths(v) <==> LeafAt(v, q).Some?
    decreases v, 1
  {
    if v.Obj? { FieldPathsExact(v.fields); }
  }

  lemma {:induction false} FieldPathsExact(fs: Fields)
    requires WellFormedFields(fs)
    ensures Distinct(FieldPaths(fs))
    ensures forall q :: q in FieldPaths(fs) <==> LeafAt(Obj(fs), q).Some?
    decreases fs, 0
  {
    if fs.Field? {
      var a, b := Prefixed([fs.name], LeafPaths(fs.value)), FieldPaths(fs.rest);
      LeafPathsExact(fs.value);
      FieldPathsExact(fs.rest);
      PrefixedDistinct([fs.name], LeafPaths(fs.value));
      forall q ensures q in a <==> q != [] && q[0] == fs.name && LeafAt(fs.value, q[1..]).Some? {
        PrefixedExact([fs.name], LeafPaths(fs.value), q);
      }
      DistinctBoth(a, b);
    }
  }

  // --------------------------------------------------------------------------------------
  // The rows of a document, in the same order
  // --------------------------------------------------------------------------------------

  /** Row by row, these are the leaves of `v` at these paths. */
  ghost predicate Matches(v: Json, base: Path, ps: seq<Path>, rows: seq<Row>)
    requires base != []
  {
    |ps| == |rows| && forall i :: 0 <= i < |ps| ==> LeafRow(v, base, ps[i], rows[i])
  }

  lemma FirstFieldRow(fs: Fields, base: Path, q: Path, r: Row)
    requires base != [] && fs.Field? && LeafRow(fs.value, base + [fs.name], q, r)
    ensures LeafRow(Obj(fs), base, [fs.name] + q, r)
  {
    assert ([fs.name] + q)[1..] == q;
    assert base + ([fs.name] + q) == base + [fs.name] + q;
  }

  /** The rows of an object are those of its first field and those of the others. */
  lemma ObjectMatches(fs: Fields, base: Path, rows: seq<Row>, others: seq<Row>)
    requires base != [] && fs.Field? && WellFormedFields(fs)
    requires Matches(fs.value, base + [fs.name], LeafPaths(fs.value), rows)
    requires Matches(Obj(fs.rest), base, FieldPaths(fs.rest), others)
    ensures Matches(Obj(fs), base, FieldPaths(fs), rows + others)
  {
    var first := LeafPaths(fs.value);
    forall i | 0 <= i < |first| ensures LeafRow(Obj(fs), base, [fs.name] + first[i], rows[i]) {
      FirstFieldRow(fs, base, first[i], rows[i]);
    }
    forall i | 0 <= i < |FieldPaths(fs.rest)| ensures LeafRow(Obj(fs), base, FieldPaths(fs.rest)[i], others[i]) {
      assert LeafRow(Obj(fs.rest), base, FieldPaths(fs.rest)[i], others[i]);
    }
  }

  lemma {:induction false} LeafRowsMatch(base: Path, v: Json)
    requires base != [] && Listable(v)
    ensures Matches(v, base, LeafPaths(v), LeafRows(Join(base), Print(v), []))
    decreases v, 1
  {
    if v.Obj? {
      ObjectSplit(v.fields);
      MemberRowsMatch(base, v.fields, |Print(v)|);
    } else {
      NotAnObject(v);
      assert base + [] == base;
    }
  }

  lemma {:induction false} MemberRowsMatch(base: Path, fs: Fields, bound: nat)
    requires base != [] && ListableFields(fs)
    requires forall m :: m in MembersOf(fs) ==> |m.text| < bound
    ensures Matches(Obj(fs), base, FieldPaths(fs), MemberRows(Join(base), MembersOf(fs), [], bound))
    decreases fs, 0
  {
    if fs.Field? {
      var n, ms := fs.name, MembersOf(fs);
      assert ms[0] == Member(n, Print(fs.value)) && ms[1..] == MembersOf(fs.rest);
      JoinConcat(base, [n]);
      LeafRowsMatch(base + [n], fs.value);
      MemberRowsMatch(base, fs.rest, bound);
      ObjectMatches(fs, base, LeafRows(Join(base + [n]), Print(fs.value), []),
        MemberRows(Join(base), MembersOf(fs.rest), [], bound));
    }
  }

  // --------------------------------------------------------------------------------------
  // The whole store
  // --------------------------------------------------------------------------------------

  /** `r` is the row of the leaf the store shows at `p`. */
  ghost predicate ShownAt(m: Tree, p: Path, r: Row) {
    p != [] && View(m, p).Some? && r == Row(Join(p), Print(View(m, p).value))
  }

  function StorePaths(m: Tree, keys: seq<Bytes>): seq<Path>
    requires forall k :: k in keys ==> k in m
  {
    if keys == [] then []
    else assert keys[0] in keys; Prefixed(Split(keys[0]), LeafPaths(m[keys[0]])) + StorePaths(m, keys[1..])
  }

  /** Row by row, these are the leaves the store shows at these paths. */
  ghost predicate AllShown(m: Tree, ps: seq<Path>, rows: seq<Row>) {
    |ps| == |rows| && forall i :: 0 <= i < |ps| ==> ShownAt(m, ps[i], rows[i])
  }

  lemma ShownBoth(m: Tree, ps: seq<Path>, rows: seq<Row>, qs: seq<Path>, more: seq<Row>)
    requires AllShown(m, ps, rows) && AllShown(m, qs, more)
    ensures AllShown(m, ps + qs, rows + more)
  {
    forall i | |ps| <= i < |ps + qs| ensures ShownAt(m, (ps + qs)[i], (rows + more)[i]) {
      assert ShownAt(m, qs[i - |ps|], more[i - |ps|]);
    }
  }

  lemma EntryRows(m: Tree, k: Bytes)
    requires Consistent(m) && k in m && Listable(m[k])
    ensures AllShown(m, Prefixed(Split(k), LeafPaths(m[k])), LeafRows(k, Print(m[k]), []))
  {
    var ps, rows := Prefixed(Split(k), LeafPaths(m[k])), LeafRows(k, Print(m[k]), []);
    JoinSplit(k);
    LeafRowsMatch(Split(k), m[k]);
    forall i | 0 <= i < |ps| ensures ShownAt(m, ps[i], rows[i]) {
      assert LeafRow(m[k], Split(k), LeafPaths(m[k])[i], rows[i]);
      ViewBelow(m, k, LeafPaths(m[k])[i]);
    }
  }

  lemma EntryPaths(m: Tree, k: Bytes)
    requires Consistent(m) && k in m
    ensures var ps := Prefixed(Split(k), LeafPaths(m[k]));
      Distinct(ps) && forall p :: p in ps <==> Owns(k, p) && View(m, p).Some?
  {
    LeafPathsExact(m[k]);
    PrefixedDistinct(Split(k), LeafPaths(m[k]));
    forall p ensures p in Prefixed(Split(k), LeafPaths(m[k])) <==> Owns(k, p) && View(m, p).Some? {
      PrefixedExact(Split(k), LeafPaths(m[k]), p);
      if Owns(k, p) { ViewAt(m, k, p); }
    }
  }

  lemma {:induction false} StoreRows(m: Tree, keys: seq<Bytes>)
    requires Consistent(m) && forall k :: k in keys ==> k in m && Listable(m[k])
    ensures AllShown(m, StorePaths(m, keys), RowsOf(Stored(m), keys, []))
    decreases |keys|
  {
    if keys != [] {
      var k := keys[0];
      assert k in keys;
      EntryRows(m, k);
      StoreRows(m, keys[1..]);
      ShownBoth(m, Prefixed(Split(k), LeafPaths(m[k])), LeafRows(k, Print(m[k]), []),
        StorePaths(m, keys[1..]), RowsOf(Stored(m), keys[1..], []));
    }
  }

  lemma {:induction false} StorePathsExact(m: Tree, keys: seq<Bytes>)
    requires Consistent(m) && StrictlySorted(keys) && forall k :: k in keys ==> k in m
    ensures Distinct(StorePaths(m, keys))
    ensures forall p :: p in StorePaths(m, keys) <==> View(m, p).Some? && exists k :: k in keys && Owns(k, p)
    decreases |keys|
  {
    if keys != [] {
      var k, a, b := keys[0], Prefixed(Split(keys[0]), LeafPaths(m[keys[0]])), StorePaths(m, keys[1..]);
      assert k in keys && forall x :: x in keys <==> x == k || x in keys[1..];
      EntryPaths(m, k);
      StorePathsExact(m, keys[1..]);
      forall p | p in a ensures p !in b {
        if x :| x in keys[1..] && Owns(x, p) {
          OwnerUnique(m, x, k, p);
          LessTotal(k, k);
        }
      }
      DistinctBoth(a, b);
    }
  }

  /** A listing of the whole store has exactly one row for each leaf of the view: row by row the leaf at
      a path of its own, and no leaf is left over. */
  lemma AllShowsView(m: Tree) returns (paths: seq<Path>)
    requires Consistent(m) && forall k :: k in m ==> Listable(m[k]) && !IsRaw(k)
    ensures AllShown(m, paths, All(Stored(m), [])) && Distinct(paths)
    ensures forall p :: p in paths <==> View(m, p).Some?
  {
    var b := Stored(m);
    var range := RangeKeys(b.Keys, [], []);
    assert All(b, []) == RowsOf(b, range, []);
    forall k ensures k in range <==> k in m { BoundsArePrefix(k, [], []); }
    paths := StorePaths(m, range);
    StoreRows(m, range);
    StorePathsExact(m, range);
  }
}
