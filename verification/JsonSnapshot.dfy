/** The JSON snapshot: the store written as one nested document, and read back by walking it. */
module JsonSnapshot {
  import opened Bytes
  import opened Paths
  import opened Json
  import opened StoreSpec
  import opened FlatStore
  import opened Recovery

  // --------------------------------------------------------------------------------------
  // The view with empty objects
  // --------------------------------------------------------------------------------------

  /** The leaf at a path, where an empty object is a leaf too. */
  function FullLeafAt(v: Json, q: Path): Option<Json>
    decreases |q|
  {
    if q == [] then (if v.Obj? && v.fields.Field? then None else Some(v))
    else if !v.Obj? then None
    else match Lookup(v.fields, q[0])
      case None => None
      case Some(c) => FullLeafAt(c, q[1..])
  }

  /** The leaf, or empty object, the store shows at a path. */
  ghost function FullView(m: Tree, p: Path): Option<Json> {
    if exists k :: k in m && Owns(k, p) then
      var k :| k in m && Owns(k, p);
      FullLeafAt(m[k], p[|Split(k)|..])
    else None
  }

  lemma FullViewAt(m: Tree, k: Bytes, p: Path)
    requires PrefixFree(m.Keys) && k in m && Owns(k, p)
    ensures FullView(m, p) == FullLeafAt(m[k], p[|Split(k)|..])
  {
    var j :| j in m && Owns(j, p) && FullView(m, p) == FullLeafAt(m[j], p[|Split(j)|..]);
    OwnerUnique(m, j, k, p);
  }

  /** The node at a path, through objects. */
  function NodeAt(v: Json, q: Path): Option<Json>
    decreases |q|
  {
    if q == [] then Some(v)
    else if !v.Obj? then None
    else match Lookup(v.fields, q[0])
      case None => None
      case Some(c) => NodeAt(c, q[1..])
  }

  lemma {:induction false} LeafBelowNode(v: Json, q: Path, r: Path)
    requires NodeAt(v, q).Some?
    ensures FullLeafAt(v, q + r) == FullLeafAt(NodeAt(v, q).value, r)
    decreases |q|
  {
    if q == [] {
      assert q + r == r;
    } else {
      assert (q + r)[1..] == q[1..] + r;
      LeafBelowNode(Lookup(v.fields, q[0]).value, q[1..], r);
    }
  }

  // --------------------------------------------------------------------------------------
  // Writing
  // --------------------------------------------------------------------------------------

  /** Insert the values one after another, each at the path of its key. */
  function Document(m: Tree, keys: seq<Bytes>): Fields
    requires forall k :: k in keys ==> k in m
    decreases |keys|
  {
    if keys == [] then NoField
    else
      var init, k := keys[..|keys| - 1], keys[|keys| - 1];
      InsertAt(Document(m, init), Split(k), m[k])
  }

  lemma DocumentSnoc(m: Tree, keys: seq<Bytes>, i: nat)
    requires i < |keys| && forall k :: k in keys ==> k in m
    ensures Document(m, keys[..i + 1]) == InsertAt(Document(m, keys[..i]), Split(keys[i]), m[keys[i]])
  {
    assert keys[..i + 1][..i] == keys[..i];
  }

  lemma InsertedFields(fs: Fields, q: Path, x: Json)
    requires |q| >= 1 && !x.NotJson?
    ensures InsertAt(fs, q, x).Field?
  {
  }

  lemma {:induction false} InsertAtFullLeaf(fs: Fields, q: Path, x: Json, p: Path)
    requires |q| >= 1 && !x.NotJson?
    ensures FullLeafAt(Obj(InsertAt(fs, q, x)), p) ==
      if q <= p then FullLeafAt(x, p[|q|..]) else if p <= q then None else FullLeafAt(Obj(fs), p)
    decreases |q|
  {
    InsertedFields(fs, q, x);
    if p != [] {
      var child := ChildFields(fs, q[0]);
      LookupInsert(fs, q[0], if |q| == 1 then x else Obj(InsertAt(child, q[1..], x)), p[0]);
      if p[0] == q[0] {
        assert q == [q[0]] + q[1..] && p == [p[0]] + p[1..];
        if |q| > 1 {
          InsertAtFullLeaf(child, q[1..], x, p[1..]);
          assert q <= p ==> p[|q|..] == p[1..][|q[1..]|..];
        }
      }
    }
  }

  /** The document shows what the store shows: since no key is an ancestor of another, no
      insertion overwrites an earlier one. */
  lemma {:induction false} DocumentLeaves(m: Tree, keys: seq<Bytes>, p: Path)
    requires PrefixFree(m.Keys) && p != [] && (forall k :: k in keys ==> k in m && !m[k].NotJson?)
    requires forall i, j :: 0 <= i < j < |keys| ==> keys[i] != keys[j]
    ensures forall k :: k in keys && Owns(k, p) ==>
      FullLeafAt(Obj(Document(m, keys)), p) == FullLeafAt(m[k], p[|Split(k)|..])
    ensures (forall k :: k in keys ==> !Owns(k, p)) ==> FullLeafAt(Obj(Document(m, keys)), p).None?
    decreases |keys|
  {
    if keys != [] {
      var init, last := keys[..|keys| - 1], keys[|keys| - 1];
      assert last in keys && forall k :: k in keys <==> k in init || k == last;
      DocumentLeaves(m, init, p);
      InsertAtFullLeaf(Document(m, init), Split(last), m[last], p);
      if k :| k in init && Owns(k, p) {
        var i :| 0 <= i < |init| && init[i] == k;
        assert k == keys[i] && k != last;
        RelatedIffComparable(k, last);
        if Split(last) <= p { ComparablePrefixes(Split(k), Split(last), p); }
        assert p <= Split(last) ==> Split(k) <= Split(last);
        forall j | j in init && Owns(j, p) ensures j == k { OwnerUnique(m, j, k, p); }
      }
    }
  }

  lemma DocumentShows(m: Tree, p: Path)
    requires PrefixFree(m.Keys) && p != [] && (forall k :: k in m ==> !m[k].NotJson?)
    ensures FullLeafAt(Obj(Document(m, Sorted(m.Keys))), p) == FullView(m, p)
  {
    var keys := Sorted(m.Keys);
    forall i, j | 0 <= i < j < |keys| ensures keys[i] != keys[j] { LessTotal(keys[i], keys[j]); }
    DocumentLeaves(m, keys, p);
    if k :| k in m && Owns(k, p) {
      FullViewAt(m, k, p);
    }
  }

  // --------------------------------------------------------------------------------------
  // Names
  // --------------------------------------------------------------------------------------

  predicate DotFreeNames(v: Json) {
    v.Obj? ==> DotFreeFields(v.fields)
  }

  predicate DotFreeFields(fs: Fields) {
    fs.Field? ==> DotFree(fs.name) && DotFreeNames(fs.value) && DotFreeFields(fs.rest)
  }

  /** No field at the top has an empty name. */
  predicate TopNamed(fs: Fields) {
    Lookup(fs, []).None?
  }

  lemma {:induction false} DotFreeLookup(fs: Fields, n: Bytes)
    requires DotFreeFields(fs)
    ensures Lookup(fs, n).Some? ==> DotFree(n) && DotFreeNames(Lookup(fs, n).value)
  {
    if fs.Field? && fs.name != n { DotFreeLookup(fs.rest, n); }
  }

  lemma {:induction false} DotFreeInsertField(fs: Fields, n: Bytes, v: Json)
    requires DotFreeFields(fs) && DotFree(n) && DotFreeNames(v)
    ensures DotFreeFields(InsertField(fs, n, v))
  {
    if fs.Field? { DotFreeInsertField(fs.rest, n, v); }
  }

  lemma {:induction false} DotFreeInsertAt(fs: Fields, q: Path, x: Json)
    requires |q| >= 1 && DotFreeFields(fs) && DotFreeNames(x) && forall s :: s in q ==> DotFree(s)
    ensures DotFreeFields(InsertAt(fs, q, x))
    decreases |q|
  {
    DotFreeLookup(fs, q[0]);
    if |q| > 1 {
      DotFreeInsertAt(ChildFields(fs, q[0]), q[1..], x);
      DotFreeInsertField(fs, q[0], Obj(InsertAt(ChildFields(fs, q[0]), q[1..], x)));
    } else if !x.NotJson? {
      DotFreeInsertField(fs, q[0], x);
    }
  }

  /** A key that does not start with a dot; its first segment is not empty. */
  predicate Named(k: Bytes) { k != [] && k[0] != DOT }

  lemma FirstSegment(k: Bytes)
    requires Named(k)
    ensures Split(k)[0] != []
  {
    var n := SegmentLength(k);
    assert n >= 1;
  }

  lemma InsertAtLookup(fs: Fields, q: Path, x: Json, n: Bytes)
    requires |q| >= 1 && n != q[0]
    ensures Lookup(InsertAt(fs, q, x), n) == Lookup(fs, n)
  {
    LookupInsert(fs, q[0], if |q| == 1 then x else Obj(InsertAt(ChildFields(fs, q[0]), q[1..], x)), n);
  }

  lemma {:induction false} DocumentNames(m: Tree, keys: seq<Bytes>)
    requires forall k :: k in keys ==> k in m && Named(k) && DotFreeNames(m[k]) && WellFormed(m[k])
    ensures var d := Document(m, keys); DotFreeFields(d) && TopNamed(d) && WellFormedFields(d)
    decreases |keys|
  {
    if keys != [] {
      var init, k := keys[..|keys| - 1], keys[|keys| - 1];
      assert k in keys;
      DocumentNames(m, init);
      SplitSegments(k);
      DotFreeInsertAt(Document(m, init), Split(k), m[k]);
      InsertAtWellFormed(Document(m, init), Split(k), m[k]);
      FirstSegment(k);
      InsertAtLookup(Document(m, init), Split(k), m[k], []);
    }
  }

  // --------------------------------------------------------------------------------------
  // Reading
  // --------------------------------------------------------------------------------------

  datatype KeyRow = KeyRow(key: Bytes, value: Json)

  /** "__enc" */
  const ENC: Bytes := [0x5F, 0x5F, 0x65, 0x6E, 0x63]

  /** An object whose `__enc` field is the integer 1. */
  predicate EnvelopeValue(v: Json) {
    v.Obj? && match Lookup(v.fields, ENC) case Some(Num(n)) => n.text == [0x31] case _ => false
  }

  /** Walking goes into non-empty objects that are not envelopes. */
  predicate Walkable(v: Json) { v.Obj? && v.fields.Field? && !EnvelopeValue(v) }

  function Extend(path: Bytes, name: Bytes): Bytes {
    if path == [] then name else path + [DOT] + name
  }

  function Walk(v: Json, path: Bytes): seq<KeyRow>
    decreases v, 1
  {
    if Walkable(v) then WalkFields(v.fields, path)
    else if path != [] || !v.Obj? then [KeyRow(path, v)]
    else []
  }

  function WalkFields(fs: Fields, path: Bytes): seq<KeyRow>
    decreases fs, 0
  {
    match fs
    case NoField => []
    case Field(n, v, rest) => Walk(v, Extend(path, n)) + WalkFields(rest, path)
  }

  function BasePath(path: Bytes): Path {
    if path == [] then [] else Split(path)
  }

  lemma ExtendSplits(path: Bytes, n: Bytes)
    requires DotFree(n) && (path == [] ==> n != [])
    ensures Extend(path, n) != [] && Split(Extend(path, n)) == BasePath(path) + [n]
  {
    SplitDotFree(n);
    if path != [] { SplitDot(path, n); } else { assert [] + [n] == [n]; }
  }

  /** `r` is the row of a node of `v`, which stands at `base`. */
  predicate RowOf(v: Json, base: Path, r: KeyRow) {
    r.key != [] && base <= Split(r.key) && NodeAt(v, Split(r.key)[|base|..]) == Some(r.value)
  }

  lemma RowThroughField(fs: Fields, base: Path, n: Bytes, v: Json, r: KeyRow)
    requires Lookup(fs, n) == Some(v) && RowOf(v, base + [n], r)
    ensures RowOf(Obj(fs), base, r) && Split(r.key)[|base|..] != [] && Split(r.key)[|base|] == n
  {
    var q := Split(r.key)[|base|..];
    assert (base + [n])[|base|] == n;
    assert Split(r.key)[|base + [n]|..] == q[1..];
  }

  lemma {:induction false} WalkSound(v: Json, path: Bytes, r: KeyRow)
    requires DotFreeNames(v) && WellFormed(v) && (path == [] ==> v.Obj? && TopNamed(v.fields))
    requires r in Walk(v, path)
    ensures RowOf(v, BasePath(path), r)
    decreases v, 1
  {
    if Walkable(v) {
      WalkFieldsSound(v.fields, path, r);
    } else {
      assert Split(path)[|Split(path)|..] == [];
    }
  }

  lemma {:induction false} WalkFieldsSound(fs: Fields, path: Bytes, r: KeyRow)
    requires DotFreeFields(fs) && WellFormedFields(fs) && (path == [] ==> TopNamed(fs))
    requires r in WalkFields(fs, path)
    ensures RowOf(Obj(fs), BasePath(path), r) && |Split(r.key)| > |BasePath(path)|
    decreases fs, 0
  {
    var base := BasePath(path);
    ExtendSplits(path, fs.name);
    if r in Walk(fs.value, Extend(path, fs.name)) {
      WalkSound(fs.value, Extend(path, fs.name), r);
      RowThroughField(fs, base, fs.name, fs.value, r);
    } else {
      WalkFieldsSound(fs.rest, path, r);
      var q := Split(r.key)[|base|..];
      assert Lookup(fs.rest, q[0]).Some? && q[0] != fs.name;
    }
  }

  /** No row lies at or below another. */
  ghost predicate Antichain(rows: seq<KeyRow>) {
    forall i, j :: 0 <= i < |rows| && 0 <= j < |rows| && i != j ==> !(Split(rows[i].key) <= Split(rows[j].key))
  }

  lemma AntichainConcat(a: seq<KeyRow>, b: seq<KeyRow>)
    requires Antichain(a) && Antichain(b)
    requires forall x, y :: x in a && y in b ==> !(Split(x.key) <= Split(y.key)) && !(Split(y.key) <= Split(x.key))
    ensures Antichain(a + b)
  {
    var c := a + b;
    forall i, j | 0 <= i < |c| && 0 <= j < |c| && i != j ensures !(Split(c[i].key) <= Split(c[j].key)) {
      assert i < |a| ==> c[i] in a;
      assert i >= |a| ==> c[i] == b[i - |a|] && c[i] in b;
      assert j < |a| ==> c[j] in a;
      assert j >= |a| ==> c[j] == b[j - |a|] && c[j] in b;
    }
  }

  lemma {:induction false} WalkAntichain(v: Json, path: Bytes)
    requires DotFreeNames(v) && WellFormed(v) && (path == [] ==> v.Obj? && TopNamed(v.fields))
    ensures Antichain(Walk(v, path))
    decreases v, 1
  {
    if Walkable(v) { WalkFieldsAntichain(v.fields, path); }
  }

  lemma {:induction false} WalkFieldsAntichain(fs: Fields, path: Bytes)
    requires DotFreeFields(fs) && WellFormedFields(fs) && (path == [] ==> TopNamed(fs))
    ensures Antichain(WalkFields(fs, path))
    decreases fs, 0
  {
    if fs.Field? {
      var base := BasePath(path);
      var a, b := Walk(fs.value, Extend(path, fs.name)), WalkFields(fs.rest, path);
      ExtendSplits(path, fs.name);
      WalkAntichain(fs.value, Extend(path, fs.name));
      WalkFieldsAntichain(fs.rest, path);
      forall x, y | x in a && y in b ensures !(Split(x.key) <= Split(y.key)) && !(Split(y.key) <= Split(x.key)) {
        WalkSound(fs.value, Extend(path, fs.name), x);
        RowThroughField(fs, base, fs.name, fs.value, x);
        WalkFieldsSound(fs.rest, path, y);
        assert Split(y.key)[|base|..][0] == Split(y.key)[|base|];
      }
      AntichainConcat(a, b);
    }
  }

  /** Every leaf, and every empty object below the top, lies at or below some row. */
  lemma {:induction false} WalkComplete(v: Json, path: Bytes, q: Path)
    requires DotFreeNames(v) && WellFormed(v) && (path == [] ==> v.Obj? && TopNamed(v.fields))
    requires FullLeafAt(v, q).Some? && BasePath(path) + q != [] && (path == [] ==> !EnvelopeValue(v))
    ensures exists r :: r in Walk(v, path) && Split(r.key) <= BasePath(path) + q
    decreases v, 1
  {
    if Walkable(v) {
      WalkFieldsComplete(v.fields, path, q);
    } else {
      assert path != [] && KeyRow(path, v) in Walk(v, path);
    }
  }

  lemma {:induction false} WalkFieldsComplete(fs: Fields, path: Bytes, q: Path)
    requires DotFreeFields(fs) && WellFormedFields(fs) && (path == [] ==> TopNamed(fs))
    requires fs.Field? && FullLeafAt(Obj(fs), q).Some?
    ensures exists r :: r in WalkFields(fs, path) && Split(r.key) <= BasePath(path) + q
    decreases fs, 0
  {
    var base, n := BasePath(path), fs.name;
    if q[0] == n {
      ExtendSplits(path, n);
      assert base + q == (base + [n]) + q[1..];
      WalkComplete(fs.value, Extend(path, n), q[1..]);
      var r :| r in Walk(fs.value, Extend(path, n)) && Split(r.key) <= base + q;
      assert r in WalkFields(fs, path);
    } else {
      assert Lookup(fs.rest, q[0]).Some?;
      WalkFieldsComplete(fs.rest, path, q);
      var r :| r in WalkFields(fs.rest, path) && Split(r.key) <= base + q;
      assert r in WalkFields(fs, path);
    }
  }

  // --------------------------------------------------------------------------------------
  // The round trip
  // --------------------------------------------------------------------------------------

  /** The rows are set one after another. */
  function LoadRows(rows: seq<KeyRow>): Tree
    decreases |rows|
  {
    if rows == [] then map[]
    else
      var last := rows[|rows| - 1];
      SetFn(LoadRows(rows[..|rows| - 1]), last.key, last.value)
  }

  function LoadDocument(doc: Json): Tree {
    LoadRows(Walk(doc, []))
  }

  function WriteDocument(m: Tree): Json {
    Obj(Document(m, Sorted(m.Keys)))
  }

  /** The rows as a map. */
  function RowMap(rows: seq<KeyRow>): Tree
    decreases |rows|
  {
    if rows == [] then map[]
    else
      var last := rows[|rows| - 1];
      RowMap(rows[..|rows| - 1])[last.key := last.value]
  }

  lemma {:induction false} RowIndex(rows: seq<KeyRow>, k: Bytes) returns (i: nat)
    requires k in RowMap(rows)
    ensures i < |rows| && rows[i].key == k
    decreases |rows|
  {
    i := |rows| - 1;
    if rows[i].key != k {
      i := RowIndex(rows[..i], k);
    }
  }

  lemma InitAntichain(rows: seq<KeyRow>)
    requires Antichain(rows) && rows != []
    ensures Antichain(rows[..|rows| - 1])
    ensures forall i :: 0 <= i < |rows| - 1 ==> rows[i].key != rows[|rows| - 1].key
  {
    forall i | 0 <= i < |rows| - 1 ensures rows[i].key != rows[|rows| - 1].key {
      assert !(Split(rows[i].key) <= Split(rows[|rows| - 1].key));
    }
  }

  lemma {:induction false} RowValue(rows: seq<KeyRow>, i: nat)
    requires Antichain(rows) && i < |rows|
    ensures rows[i].key in RowMap(rows) && RowMap(rows)[rows[i].key] == rows[i].value
    decreases |rows|
  {
    if i < |rows| - 1 {
      InitAntichain(rows);
      RowValue(rows[..|rows| - 1], i);
    }
  }

  lemma RowApart(rows: seq<KeyRow>, k: Bytes)
    requires Antichain(rows) && rows != [] && k in RowMap(rows[..|rows| - 1])
    ensures var last := rows[|rows| - 1].key; k != last && !Under(k, last) && !Under(last, k)
  {
    var n := |rows| - 1;
    var i := RowIndex(rows[..n], k);
    assert rows[i].key == k;
    RelatedIffComparable(k, rows[n].key);
  }

  /** Setting the rows of an antichain is plain insertion. */
  lemma {:induction false} LoadRowsInserts(rows: seq<KeyRow>)
    requires Antichain(rows)
    ensures LoadRows(rows) == RowMap(rows)
    decreases |rows|
  {
    if rows != [] {
      var init, last := rows[..|rows| - 1], rows[|rows| - 1];
      InitAntichain(rows);
      LoadRowsInserts(init);
      forall x | x in RowMap(init) ensures x != last.key && !Under(x, last.key) && !Under(last.key, x) {
        RowApart(rows, x);
      }
      SetIsInsert(RowMap(init), last.key, last.value);
    }
  }

  lemma LoadRowsNext(rows: seq<KeyRow>, i: nat)
    requires i < |rows|
    ensures LoadRows(rows[..i + 1]) == SetFn(LoadRows(rows[..i]), rows[i].key, rows[i].value)
  {
    assert rows[..i + 1][..i] == rows[..i];
  }

  lemma LoadedRows(rows: seq<KeyRow>)
    requires Antichain(rows)
    ensures var m := LoadRows(rows);
      && PrefixFree(m.Keys)
      && (forall k :: k in m ==> exists r :: r in rows && r.key == k)
      && (forall r :: r in rows ==> r.key in m && m[r.key] == r.value)
  {
    LoadRowsInserts(rows);
    var m := LoadRows(rows);
    forall a, b | a in m && b in m ensures !Under(a, b) {
      var i := RowIndex(rows, a);
      var j := RowIndex(rows, b);
      UnderIsProperPrefix(a, b);
    }
    forall k | k in m ensures exists r :: r in rows && r.key == k {
      var i := RowIndex(rows, k);
      assert rows[i] in rows;
    }
    forall r | r in rows ensures r.key in m && m[r.key] == r.value {
      var i :| 0 <= i < |rows| && rows[i] == r;
      RowValue(rows, i);
    }
  }

  lemma LoadedOwner(fs: Fields, p: Path)
    requires DotFreeFields(fs) && TopNamed(fs) && WellFormedFields(fs) && !EnvelopeValue(Obj(fs))
    requires p != [] && FullLeafAt(Obj(fs), p).Some?
    ensures exists k :: k in LoadDocument(Obj(fs)) && Owns(k, p)
  {
    var rows := Walk(Obj(fs), []);
    WalkAntichain(Obj(fs), []);
    LoadedRows(rows);
    assert BasePath([]) + p == p;
    WalkComplete(Obj(fs), [], p);
    var r :| r in rows && Split(r.key) <= p;
    assert r.key in LoadDocument(Obj(fs)) && Owns(r.key, p);
  }

  lemma LoadedNode(fs: Fields, k: Bytes)
    requires DotFreeFields(fs) && TopNamed(fs) && WellFormedFields(fs) && k in LoadDocument(Obj(fs))
    ensures PrefixFree(LoadDocument(Obj(fs)).Keys)
    ensures NodeAt(Obj(fs), Split(k)) == Some(LoadDocument(Obj(fs))[k])
  {
    var rows := Walk(Obj(fs), []);
    WalkAntichain(Obj(fs), []);
    LoadedRows(rows);
    var r :| r in rows && r.key == k;
    WalkSound(Obj(fs), [], r);
    assert Split(k)[|BasePath([])|..] == Split(k);
  }

  lemma NodeShows(m: Tree, doc: Json, k: Bytes, p: Path)
    requires PrefixFree(m.Keys) && k in m && Owns(k, p) && NodeAt(doc, Split(k)) == Some(m[k])
    ensures FullView(m, p) == FullLeafAt(doc, p)
  {
    var rest := p[|Split(k)|..];
    assert p == Split(k) + rest;
    LeafBelowNode(doc, Split(k), rest);
    FullViewAt(m, k, p);
  }

  lemma LoadedEntry(fs: Fields, k: Bytes, p: Path)
    requires DotFreeFields(fs) && TopNamed(fs) && WellFormedFields(fs)
    requires k in LoadDocument(Obj(fs)) && Owns(k, p)
    ensures FullView(LoadDocument(Obj(fs)), p) == FullLeafAt(Obj(fs), p)
  {
    LoadedNode(fs, k);
    NodeShows(LoadDocument(Obj(fs)), Obj(fs), k, p);
  }

  /** A loaded document shows the leaves, and the empty objects, of the document. */
  lemma LoadedShows(fs: Fields, p: Path)
    requires DotFreeFields(fs) && TopNamed(fs) && WellFormedFields(fs) && !EnvelopeValue(Obj(fs))
    requires p != []
    ensures FullView(LoadDocument(Obj(fs)), p) == FullLeafAt(Obj(fs), p)
  {
    if FullLeafAt(Obj(fs), p).Some? { LoadedOwner(fs, p); }
    if k :| k in LoadDocument(Obj(fs)) && Owns(k, p) {
      LoadedEntry(fs, k, p);
    }
  }

  ghost predicate Writable(m: Tree) {
    PrefixFree(m.Keys) && forall k :: k in m ==> Named(k) && DotFreeNames(m[k]) && WellFormed(m[k])
  }

  /** The one stored entry that makes the whole document look like an envelope. */
  predicate LooksEncrypted(m: Tree) {
    ENC in m && match m[ENC] case Num(n) => n.text == [0x31] case _ => false
  }

  lemma DocumentEnvelope(m: Tree)
    requires Writable(m)
    ensures EnvelopeValue(WriteDocument(m)) <==> LooksEncrypted(m)
  {
    var keys := Sorted(m.Keys);
    DocumentShows(m, [ENC]);
    SplitDotFree(ENC);
    var doc := WriteDocument(m);
    assert FullLeafAt(doc, [ENC]) ==
      match Lookup(doc.fields, ENC) { case None => None case Some(c) => FullLeafAt(c, [ENC][1..]) };
    forall k | k in m && Owns(k, [ENC]) ensures k == ENC {
      assert Split(k) == [ENC];
      SplitInjective(k, ENC);
    }
    if ENC in m {
      FullViewAt(m, ENC, [ENC]);
      assert FullView(m, [ENC]) == FullLeafAt(m[ENC], [ENC][|Split(ENC)|..]);
    }
  }

  lemma LostDocument(m: Tree)
    requires Writable(m) && LooksEncrypted(m) && EnvelopeValue(WriteDocument(m))
    ensures FullView(LoadDocument(WriteDocument(m)), [ENC]) != FullView(m, [ENC])
  {
    assert Walk(WriteDocument(m), []) == [] && LoadDocument(WriteDocument(m)) == map[];
    SplitDotFree(ENC);
    FullViewAt(m, ENC, [ENC]);
  }

  /** The same nested tree, empty objects included. */
  ghost predicate SameFullView(a: Tree, b: Tree) {
    forall p :: p != [] ==> FullView(a, p) == FullView(b, p)
  }

  /** Loading the document a store was written as shows the same nested tree exactly when the store does
      not hold the integer 1 under the key `__enc`. */
  lemma DocumentRoundTrip(m: Tree)
    requires Writable(m)
    ensures SameFullView(LoadDocument(WriteDocument(m)), m) <==> !LooksEncrypted(m)
  {
    var doc := WriteDocument(m);
    DocumentNames(m, Sorted(m.Keys));
    DocumentEnvelope(m);
    if LooksEncrypted(m) {
      LostDocument(m);
    } else {
      forall p | p != [] ensures FullView(LoadDocument(doc), p) == FullView(m, p) {
        DocumentShows(m, p);
        LoadedShows(doc.fields, p);
      }
    }
  }

  // --------------------------------------------------------------------------------------
  // The parser's nesting limit
  // --------------------------------------------------------------------------------------

  /** How many arrays and objects lie inside one another. */
  function Nesting(v: Json): nat {
    match v
    case Arr(items) => 1 + NestingItems(items)
    case Obj(fs) => 1 + NestingFields(fs)
    case _ => 0
  }

  function NestingItems(items: Items): nat {
    if items.NoItem? then 0
    else
      var rest := NestingItems(items.tail);
      if Nesting(items.head) > rest then Nesting(items.head) else rest
  }

  function NestingFields(fs: Fields): nat {
    if fs.NoField? then 0
    else
      var rest := NestingFields(fs.rest);
      if Nesting(fs.value) > rest then Nesting(fs.value) else rest
  }

  /** The parser refuses anything nested deeper than this. */
  const NESTING_LIMIT: nat := 127

  /** All leaves of a value, with what they contain, stay within `n` levels. */
  ghost predicate LeavesWithin(v: Json, n: int) {
    forall q :: FullLeafAt(v, q).Some? ==> |q| + Nesting(FullLeafAt(v, q).value) <= n
  }

  lemma FullFieldsLeaf(fs: Fields, q: Path)
    requires fs.Field? && WellFormedFields(fs)
    ensures q == [] ==> FullLeafAt(Obj(fs), q).None?
    ensures q != [] && q[0] == fs.name ==> FullLeafAt(Obj(fs), q) == FullLeafAt(fs.value, q[1..])
    ensures q != [] && q[0] == fs.name ==> FullLeafAt(Obj(fs.rest), q).None?
    ensures q != [] && q[0] != fs.name ==> FullLeafAt(Obj(fs), q) == FullLeafAt(Obj(fs.rest), q)
  {
  }

  lemma {:induction false} NestingOfLeaves(v: Json, n: int)
    requires WellFormed(v)
    ensures Nesting(v) <= n <==> LeavesWithin(v, n)
    decreases v, 1
  {
    if v.Obj? && v.fields.Field? {
      NestingOfFields(v.fields, n);
    } else {
      assert FullLeafAt(v, []) == Some(v);
    }
  }

  lemma {:induction false} NestingOfFields(fs: Fields, n: int)
    requires fs.Field? && WellFormedFields(fs)
    ensures 1 + NestingFields(fs) <= n <==> LeavesWithin(Obj(fs), n)
    decreases fs, 0
  {
    NestingOfLeaves(fs.value, n - 1);
    if fs.rest.Field? { NestingOfFields(fs.rest, n); }
    if LeavesWithin(Obj(fs), n) {
      forall q | FullLeafAt(fs.value, q).Some? ensures |q| + Nesting(FullLeafAt(fs.value, q).value) <= n - 1 {
        FullFieldsLeaf(fs, [fs.name] + q);
        assert ([fs.name] + q)[1..] == q;
      }
      forall q | fs.rest.Field? && FullLeafAt(Obj(fs.rest), q).Some?
        ensures |q| + Nesting(FullLeafAt(Obj(fs.rest), q).value) <= n
      {
        FullFieldsLeaf(fs, q);
      }
    } else {
      var q :| FullLeafAt(Obj(fs), q).Some? && |q| + Nesting(FullLeafAt(Obj(fs), q).value) > n;
      FullFieldsLeaf(fs, q);
      assert q[0] == fs.name ==> |q| == 1 + |q[1..]|;
    }
  }

  lemma EntryWithin(m: Tree, doc: Json, k: Bytes, n: nat)
    requires Writable(m) && k in m && LeavesWithin(doc, n)
    requires forall p :: p != [] ==> FullLeafAt(doc, p) == FullView(m, p)
    ensures |Split(k)| + Nesting(m[k]) <= n
  {
    NestingOfLeaves(m[k], n - |Split(k)|);
    forall q | FullLeafAt(m[k], q).Some? ensures |q| + Nesting(FullLeafAt(m[k], q).value) <= n - |Split(k)| {
      var p := Split(k) + q;
      FullViewAt(m, k, p);
      assert p[|Split(k)|..] == q && FullLeafAt(doc, p) == FullLeafAt(m[k], q);
    }
  }

  /** A leaf beyond `n` levels belongs to an entry beyond them. */
  lemma DeepEntryAt(m: Tree, p: Path, n: nat) returns (k: Bytes)
    requires Writable(m) && FullView(m, p).Some? && |p| + Nesting(FullView(m, p).value) > n
    ensures k in m && |Split(k)| + Nesting(m[k]) > n
  {
    k :| k in m && Owns(k, p);
    FullViewAt(m, k, p);
    NestingOfLeaves(m[k], n - |Split(k)|);
    assert |p| == |Split(k)| + |p[|Split(k)|..]|;
  }

  /** The document stays within `n` levels exactly when each key's segments and the levels of its value
      together do. */
  lemma DocumentNesting(m: Tree, n: nat)
    requires Writable(m) && n >= 1
    ensures Nesting(WriteDocument(m)) <= n <==> forall k :: k in m ==> |Split(k)| + Nesting(m[k]) <= n
  {
    var doc := WriteDocument(m);
    DocumentNames(m, Sorted(m.Keys));
    NestingOfLeaves(doc, n);
    forall p | p != [] ensures FullLeafAt(doc, p) == FullView(m, p) { DocumentShows(m, p); }
    if LeavesWithin(doc, n) {
      forall k | k in m ensures |Split(k)| + Nesting(m[k]) <= n { EntryWithin(m, doc, k, n); }
    } else {
      var p :| FullLeafAt(doc, p).Some? && |p| + Nesting(FullLeafAt(doc, p).value) > n;
      assert FullView(m, p) == FullLeafAt(doc, p);
      var k := DeepEntryAt(m, p, n);
    }
  }

  // --------------------------------------------------------------------------------------
  // From store to bytes and back
  // --------------------------------------------------------------------------------------

  /** Loading a file: it must parse, and is then walked. */
  function LoadJsonFile(b: Bytes, parse: Bytes -> Option<Json>): Option<Tree> {
    match parse(b) case None => None case Some(doc) => Some(LoadDocument(doc))
  }

  const ONE: Json := Num(Number([0x31], 0x3FF0_0000_0000_0000))

  // --------------------------------------------------------------------------------------
  // The loops
  // --------------------------------------------------------------------------------------

  /** Insert every entry at its path; a value that does not parse is an error. */
  method WriteJsonSnapshot(m: Tree) returns (doc: Option<Json>)
    ensures doc.None? <==> exists k :: k in m && m[k].NotJson?
    ensures doc.Some? ==> doc.value == WriteDocument(m)
  {
    var root, keys := NoField, Sorted(m.Keys);
    for i := 0 to |keys|
      invariant root == Document(m, keys[..i])
      invariant forall j :: 0 <= j < i ==> keys[j] in m && !m[keys[j]].NotJson?
    {
      assert keys[i] in keys;
      DocumentSnoc(m, keys, i);
      if m[keys[i]].NotJson? {
        return None;
      }
      root := InsertInto(root, Split(keys[i]), m[keys[i]]);
    }
    assert keys[..|keys|] == keys;
    forall k | k in m ensures !m[k].NotJson? {
      assert k in keys;
    }
    doc := Some(Obj(root));
  }

  /** The walk extends one shared path and cuts it back. */
  class Walker {
    var path: Bytes
    var out: seq<KeyRow>

    constructor ()
      ensures path == [] && out == []
    {
      path, out := [], [];
    }

    method Visit(node: Json)
      modifies this
      ensures path == old(path) && out == old(out) + Walk(node, path)
      decreases node, 1
    {
      if Walkable(node) {
        VisitFields(node.fields);
        return;
      }
      if path != [] || !node.Obj? {
        out := out + [KeyRow(path, node)];
      }
    }

    method VisitFields(fs: Fields)
      modifies this
      ensures path == old(path) && out == old(out) + WalkFields(fs, path)
      decreases fs, 0
    {
      match fs
      case NoField =>
      case Field(k, v, rest) =>
        var baseLength := |path|;
        if path != [] {
          path := path + [DOT];
        }
        path := path + k;
        Visit(v);
        path := path[..baseLength];
        VisitFields(rest);
    }
  }

  method LoadParsed(doc: Json) returns (store: Store)
    requires forall r :: r in Walk(doc, []) ==> IsText(r.key)
    ensures fresh(store) && store.Synced() && store.tree == LoadDocument(doc)
  {
    var w := new Walker();
    w.Visit(doc);
    var rows := w.out;
    assert [] + Walk(doc, []) == Walk(doc, []);
    store := new Store();
    for i := 0 to |rows|
      invariant store.Synced() && fresh(store)
      invariant store.tree == LoadRows(rows[..i])
    {
      assert rows[i] in rows;
      LoadRowsNext(rows, i);
      store.Set(rows[i].key, rows[i].value);
    }
    assert rows[..|rows|] == rows;
  }

  /** Parse a file, walk the document and set its rows one by one. */
  method LoadJsonSnapshot(raw: Bytes, parse: Bytes -> Option<Json>) returns (store: Store?)
    requires parse(raw).Some? ==> forall r :: r in Walk(parse(raw).value, []) ==> IsText(r.key)
    ensures store == null <==> LoadJsonFile(raw, parse).None?
    ensures store != null ==> fresh(store) && store.Synced() && LoadJsonFile(raw, parse) == Some(store.tree)
  {
    var doc := parse(raw);
    if doc.None? {
      return null;
    }
    store := LoadParsed(doc.value);
  }
}
