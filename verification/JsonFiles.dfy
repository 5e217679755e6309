/** A store written as one JSON file and loaded again: exactly which stores a reader finds unchanged. */
module JsonFiles {
  import opened Bytes
  import opened Paths
  import opened Json
  import opened FieldSplitter
  import opened StoreSpec
  import opened JsonSnapshot
  import opened Plain
  import opened Stored

  // --------------------------------------------------------------------------------------
  // What a reader finds
  // --------------------------------------------------------------------------------------

  /** A sealed object is found as a whole, at its own path; otherwise leaves and empty objects are. */
  function FullShownLeaf(v: Json, q: Path): Option<Json> {
    if !Sealed(v) then FullLeafAt(v, q) else if q == [] then Some(v) else None
  }

  ghost function FullShown(m: Tree, p: Path): Option<Json> {
    if exists k :: k in m && Owns(k, p) then
      var k :| k in m && Owns(k, p);
      FullShownLeaf(m[k], p[|Split(k)|..])
    else None
  }

  ghost predicate SameFullShown(a: Tree, b: Tree) {
    forall p :: FullShown(a, p) == FullShown(b, p)
  }

  lemma FullShownAt(m: Tree, k: Bytes, p: Path)
    requires PrefixFree(m.Keys) && k in m && Owns(k, p)
    ensures FullShown(m, p) == FullShownLeaf(m[k], p[|Split(k)|..])
    ensures !Sealed(m[k]) ==> FullShown(m, p) == FullView(m, p)
  {
    var j :| j in m && Owns(j, p) && FullShown(m, p) == FullShownLeaf(m[j], p[|Split(j)|..]);
    OwnerUnique(m, j, k, p);
    FullViewAt(m, k, p);
  }

  /** A sealed object is stored at this path. */
  ghost predicate SealedEntry(m: Tree, p: Path) {
    exists k :: k in m && Split(k) == p && Sealed(m[k])
  }

  lemma SealedHasFields(v: Json)
    requires Sealed(v)
    ensures v.fields.Field?
  {
    if IsEnvelope(Print(v)) { EnvelopeField(v.fields); }
  }

  lemma {:induction false} FullLeafIsBare(v: Json, q: Path)
    ensures FullLeafAt(v, q).Some? && FullLeafAt(v, q).value.Obj? ==> FullLeafAt(v, q).value.fields.NoField?
    decreases |q|
  {
    if q != [] && v.Obj? && Lookup(v.fields, q[0]).Some? {
      FullLeafIsBare(Lookup(v.fields, q[0]).value, q[1..]);
    }
  }

  /** A sealed object that is found at a path is stored there. */
  lemma FoundSealed(m: Tree, p: Path, v: Json)
    requires PrefixFree(m.Keys) && Sealed(v) && FullShown(m, p) == Some(v)
    ensures SealedEntry(m, p)
  {
    var k :| k in m && Owns(k, p);
    FullShownAt(m, k, p);
    SealedHasFields(v);
    FullLeafIsBare(m[k], p[|Split(k)|..]);
  }

  lemma SealedFound(m: Tree, k: Bytes)
    requires PrefixFree(m.Keys) && k in m && Sealed(m[k])
    ensures FullShown(m, Split(k)) == Some(m[k])
  {
    FullShownAt(m, k, Split(k));
  }

  /** The same sealed objects under the same keys hide the same paths. */
  lemma SealedAlike(a: Tree, b: Tree, p: Path)
    requires PrefixFree(a.Keys) && PrefixFree(b.Keys) && (forall k :: k in a && k in b ==> a[k] == b[k])
    requires forall q :: SealedEntry(a, q) ==> SealedEntry(b, q)
    requires exists k :: k in a && Owns(k, p) && Sealed(a[k])
    ensures FullShown(a, p) == FullShown(b, p)
  {
    var k :| k in a && Owns(k, p) && Sealed(a[k]);
    assert SealedEntry(a, Split(k));
    var j :| j in b && Split(j) == Split(k) && Sealed(b[j]);
    SplitInjective(j, k);
    FullShownAt(a, k, p);
    FullShownAt(b, k, p);
  }

  lemma OpenAlike(m: Tree, p: Path)
    requires PrefixFree(m.Keys) && !exists k :: k in m && Owns(k, p) && Sealed(m[k])
    ensures FullShown(m, p) == FullView(m, p)
  {
    if k :| k in m && Owns(k, p) { FullShownAt(m, k, p); }
  }

  ghost predicate SameSealed(a: Tree, b: Tree) {
    forall p :: SealedEntry(a, p) <==> SealedEntry(b, p)
  }

  /** Two stores with the same content are found the same exactly when their sealed objects are stored at the
      same paths. */
  lemma SealedDecides(a: Tree, b: Tree)
    requires PrefixFree(a.Keys) && PrefixFree(b.Keys) && (forall k :: k in a && k in b ==> a[k] == b[k])
    requires SameFullView(a, b)
    ensures SameFullShown(a, b) <==> SameSealed(a, b)
  {
    if SameSealed(a, b) {
      forall p ensures FullShown(a, p) == FullShown(b, p) {
        if exists k :: k in a && Owns(k, p) && Sealed(a[k]) {
          SealedAlike(a, b, p);
        } else if exists k :: k in b && Owns(k, p) && Sealed(b[k]) {
          SealedAlike(b, a, p);
        } else if p != [] {
          OpenAlike(a, p);
          OpenAlike(b, p);
        }
      }
    }
    if SameFullShown(a, b) {
      forall p ensures SealedEntry(a, p) <==> SealedEntry(b, p) {
        if k :| k in a && Split(k) == p && Sealed(a[k]) { SealedFound(a, k); FoundSealed(b, p, a[k]); }
        if k :| k in b && Split(k) == p && Sealed(b[k]) { SealedFound(b, k); FoundSealed(a, p, b[k]); }
      }
    }
  }

  // --------------------------------------------------------------------------------------
  // The nodes a walk stops at
  // --------------------------------------------------------------------------------------

  /** The walk goes through every node above this one. */
  predicate Reached(v: Json, q: Path)
    decreases |q|
  {
    q == [] || (Walkable(v) && match Lookup(v.fields, q[0]) case None => false case Some(c) => Reached(c, q[1..]))
  }

  predicate ReachedBelow(fs: Fields, q: Path) {
    q != [] && match Lookup(fs, q[0]) case None => false case Some(c) => Reached(c, q[1..])
  }

  /** Every row is the value the walk stops at. */
  lemma {:induction false} RowReached(v: Json, path: Bytes, r: KeyRow)
    requires DotFreeNames(v) && WellFormed(v) && (path == [] ==> v.Obj? && TopNamed(v.fields))
    requires r in Walk(v, path)
    ensures RowOf(v, BasePath(path), r) && Reached(v, Split(r.key)[|BasePath(path)|..]) && !Walkable(r.value)
    decreases v, 1
  {
    WalkSound(v, path, r);
    if Walkable(v) {
      FieldRowReached(v.fields, path, r);
    } else {
      assert Split(path)[|Split(path)|..] == [];
    }
  }

  lemma {:induction false} FieldRowReached(fs: Fields, path: Bytes, r: KeyRow)
    requires DotFreeFields(fs) && WellFormedFields(fs) && (path == [] ==> TopNamed(fs))
    requires r in WalkFields(fs, path)
    ensures RowOf(Obj(fs), BasePath(path), r) && ReachedBelow(fs, Split(r.key)[|BasePath(path)|..])
    ensures !Walkable(r.value)
    decreases fs, 0
  {
    WalkFieldsSound(fs, path, r);
    ExtendSplits(path, fs.name);
    var base := BasePath(path);
    var q := Split(r.key)[|base|..];
    if r in Walk(fs.value, Extend(path, fs.name)) {
      RowReached(fs.value, Extend(path, fs.name), r);
      RowThroughField(fs, base, fs.name, fs.value, r);
      assert Split(r.key)[|base + [fs.name]|..] == q[1..];
    } else {
      FieldRowReached(fs.rest, path, r);
      assert Lookup(fs.rest, q[0]).Some? && q[0] != fs.name;
    }
  }

  /** Every node the walk stops at is a row. */
  lemma {:induction false} ReachedIsRow(v: Json, path: Bytes, q: Path)
    requires DotFreeNames(v) && WellFormed(v) && (path == [] ==> v.Obj? && TopNamed(v.fields) && q != [])
    requires Reached(v, q) && NodeAt(v, q).Some? && !Walkable(NodeAt(v, q).value)
    ensures exists r :: r in Walk(v, path) && Split(r.key) == BasePath(path) + q && r.value == NodeAt(v, q).value
    decreases v, 1
  {
    if q == [] {
      assert KeyRow(path, v) in Walk(v, path) && Split(path) + [] == Split(path);
    } else {
      ReachedFieldIsRow(v.fields, path, q);
    }
  }

  lemma {:induction false} ReachedFieldIsRow(fs: Fields, path: Bytes, q: Path)
    requires DotFreeFields(fs) && WellFormedFields(fs) && (path == [] ==> TopNamed(fs))
    requires ReachedBelow(fs, q) && NodeAt(Obj(fs), q).Some? && !Walkable(NodeAt(Obj(fs), q).value)
    ensures var n := NodeAt(Obj(fs), q).value;
      exists r :: r in WalkFields(fs, path) && Split(r.key) == BasePath(path) + q && r.value == n
    decreases fs, 0
  {
    var base, n := BasePath(path), fs.name;
    if q[0] == n {
      ExtendSplits(path, n);
      assert base + q == (base + [n]) + q[1..];
      ReachedIsRow(fs.value, Extend(path, n), q[1..]);
      var r :| r in Walk(fs.value, Extend(path, n)) && Split(r.key) == base + q && r.value == NodeAt(Obj(fs), q).value;
      assert r in WalkFields(fs, path);
    } else {
      assert Lookup(fs.rest, q[0]).Some?;
      ReachedFieldIsRow(fs.rest, path, q);
      var r :| r in WalkFields(fs.rest, path) && Split(r.key) == base + q && r.value == NodeAt(Obj(fs), q).value;
      assert r in WalkFields(fs, path);
    }
  }

  /** A node the walk stops at because it is an envelope, and whose text the store takes for one too. */
  predicate SealedNode(doc: Json, p: Path) {
    p != [] && Reached(doc, p) && match NodeAt(doc, p) case None => false case Some(n) => EnvelopeValue(n) && Sealed(n)
  }

  /** The sealed entries of a loaded store are the sealed envelopes the walk of the document stops at. */
  lemma LoadedSealed(fs: Fields, p: Path)
    requires DotFreeFields(fs) && TopNamed(fs) && WellFormedFields(fs)
    ensures SealedEntry(LoadDocument(Obj(fs)), p) <==> SealedNode(Obj(fs), p)
  {
    var m, rows := LoadDocument(Obj(fs)), Walk(Obj(fs), []);
    WalkAntichain(Obj(fs), []);
    LoadedRows(rows);
    if k :| k in m && Split(k) == p && Sealed(m[k]) {
      var r :| r in rows && r.key == k;
      RowReached(Obj(fs), [], r);
      SealedHasFields(m[k]);
      assert Split(k)[|BasePath([])|..] == Split(k);
    }
    if SealedNode(Obj(fs), p) {
      ReachedIsRow(Obj(fs), [], p);
      var r :| r in rows && Split(r.key) == BasePath([]) + p && r.value == NodeAt(Obj(fs), p).value;
      assert BasePath([]) + p == p && r.key in m;
    }
  }

  // --------------------------------------------------------------------------------------
  // The nodes of the written document
  // --------------------------------------------------------------------------------------

  lemma {:induction false} InsertAtNode(fs: Fields, q: Path, x: Json, p: Path)
    requires |q| >= 1 && !x.NotJson?
    ensures NodeAt(Obj(InsertAt(fs, q, x)), q) == Some(x)
    ensures !(q <= p) && !(p <= q) ==> NodeAt(Obj(InsertAt(fs, q, x)), p) == NodeAt(Obj(fs), p)
    decreases |q|
  {
    var child := ChildFields(fs, q[0]);
    var inner := if |q| == 1 then x else Obj(InsertAt(child, q[1..], x));
    LookupInsert(fs, q[0], inner, q[0]);
    if |q| > 1 { InsertAtNode(child, q[1..], x, if p == [] then p else p[1..]); }
    if p != [] {
      LookupInsert(fs, q[0], inner, p[0]);
      assert q == [q[0]] + q[1..] && p == [p[0]] + p[1..];
    }
  }

  /** Every stored value stands in the document at the path of its key. */
  lemma {:induction false} DocumentNode(m: Tree, keys: seq<Bytes>, k: Bytes)
    requires PrefixFree(m.Keys) && (forall k :: k in keys ==> k in m && !m[k].NotJson?) && k in keys
    requires forall i, j :: 0 <= i < j < |keys| ==> keys[i] != keys[j]
    ensures NodeAt(Obj(Document(m, keys)), Split(k)) == Some(m[k])
    decreases |keys|
  {
    var init, last := keys[..|keys| - 1], keys[|keys| - 1];
    InsertAtNode(Document(m, init), Split(last), m[last], Split(k));
    if k != last {
      DocumentNode(m, init, k);
      assert last in keys;
      RelatedIffComparable(k, last);
    }
  }

  lemma WrittenNode(m: Tree, k: Bytes)
    requires Writable(m) && k in m
    ensures NodeAt(WriteDocument(m), Split(k)) == Some(m[k])
  {
    var keys := Sorted(m.Keys);
    forall i, j | 0 <= i < j < |keys| ensures keys[i] != keys[j] { LessTotal(keys[i], keys[j]); }
    DocumentNode(m, keys, k);
  }

  // --------------------------------------------------------------------------------------
  // The round trip
  // --------------------------------------------------------------------------------------

  /** The walk of the written document stops at sealed envelopes exactly where sealed objects are stored. */
  ghost predicate EnvelopesKept(m: Tree) {
    forall p :: SealedNode(WriteDocument(m), p) <==> SealedEntry(m, p)
  }

  lemma DocumentSealed(m: Tree)
    requires Writable(m) && !LooksEncrypted(m)
    ensures var l := LoadDocument(WriteDocument(m));
      && PrefixFree(l.Keys) && (forall k :: k in l && k in m ==> l[k] == m[k])
      && (SameSealed(l, m) <==> EnvelopesKept(m))
  {
    var doc := WriteDocument(m);
    var l := LoadDocument(doc);
    DocumentNames(m, Sorted(m.Keys));
    WalkAntichain(doc, []);
    LoadedRows(Walk(doc, []));
    forall k | k in l && k in m ensures l[k] == m[k] {
      LoadedNode(doc.fields, k);
      WrittenNode(m, k);
    }
    forall p ensures SealedEntry(l, p) <==> SealedNode(doc, p) { LoadedSealed(doc.fields, p); }
  }

  lemma LostEnvelope(m: Tree)
    requires Writable(m) && LooksEncrypted(m)
    ensures !SameFullShown(LoadDocument(WriteDocument(m)), m)
  {
    DocumentEnvelope(m);
    assert Walk(WriteDocument(m), []) == [] && LoadDocument(WriteDocument(m)) == map[];
    assert Owns(ENC, Split(ENC));
    FullShownAt(m, ENC, Split(ENC));
    assert FullShown(m, Split(ENC)) != FullShown(map[], Split(ENC));
  }

  /** Loading the document a store was written as, a reader finds the same exactly when the document is not
      itself taken for an envelope and the envelopes in it are the sealed entries of the store. */
  lemma DocumentFound(m: Tree)
    requires Writable(m)
    ensures SameFullShown(LoadDocument(WriteDocument(m)), m) <==> !LooksEncrypted(m) && EnvelopesKept(m)
  {
    if LooksEncrypted(m) {
      LostEnvelope(m);
    } else {
      DocumentRoundTrip(m);
      DocumentSealed(m);
      SealedDecides(LoadDocument(WriteDocument(m)), m);
    }
  }

  /** The parser reads the printed document back, unless it is nested too deep. */
  ghost predicate ParserReads(doc: Json, show: Json -> Bytes, parse: Bytes -> Option<Json>) {
    parse(show(doc)) == if Nesting(doc) <= NESTING_LIMIT then Some(doc) else None
  }

  /** Writing a store as one JSON file and loading it, a reader finds the same leaves, empty objects and sealed
      objects, exactly when the store does not hold the integer 1 under the key `__enc`, the envelopes in the
      document are the sealed entries of the store, and no key has more segments than its value leaves levels. */
  lemma JsonRoundTrip(m: Tree, show: Json -> Bytes, parse: Bytes -> Option<Json>)
    requires Writable(m) && ParserReads(WriteDocument(m), show, parse)
    ensures var loaded := LoadJsonFile(show(WriteDocument(m)), parse);
      (loaded.Some? && SameFullShown(loaded.value, m)) <==>
        !LooksEncrypted(m) && EnvelopesKept(m) && forall k :: k in m ==> |Split(k)| + Nesting(m[k]) <= NESTING_LIMIT
  {
    DocumentFound(m);
    DocumentNesting(m, NESTING_LIMIT);
  }

  /** No segment of a key and no field is named `__enc`. */
  ghost predicate EncFreeStore(m: Tree) {
    forall k :: k in m ==> ENC !in Split(k) && EncFree(m[k])
  }

  lemma {:induction false} EncFreeLookup(fs: Fields, n: Bytes)
    requires EncFreeFields(fs) && Lookup(fs, n).Some?
    ensures n != ENC && EncFree(Lookup(fs, n).value)
  {
    if fs.name != n { EncFreeLookup(fs.rest, n); }
  }

  lemma {:induction false} EncFreeLeaf(v: Json, q: Path)
    requires EncFree(v) && FullLeafAt(v, q).Some?
    ensures ENC !in q
    decreases |q|
  {
    if q != [] {
      EncFreeLookup(v.fields, q[0]);
      EncFreeLeaf(Lookup(v.fields, q[0]).value, q[1..]);
      assert q == [q[0]] + q[1..];
    }
  }

  lemma EncFreeShown(m: Tree, p: Path)
    requires Writable(m) && EncFreeStore(m) && FullView(m, p).Some?
    ensures ENC !in p
  {
    var k :| k in m && Owns(k, p);
    FullViewAt(m, k, p);
    EncFreeLeaf(m[k], p[|Split(k)|..]);
    assert p == Split(k) + p[|Split(k)|..];
  }

  lemma EnvelopeLeaf(doc: Json, p: Path)
    requires NodeAt(doc, p).Some? && EnvelopeValue(NodeAt(doc, p).value)
    ensures FullLeafAt(doc, p + [ENC]).Some?
  {
    var n := NodeAt(doc, p).value;
    LeafBelowNode(doc, p, [ENC]);
    assert FullLeafAt(n, [ENC]) == FullLeafAt(Lookup(n.fields, ENC).value, [ENC][1..]);
  }

  /** Such a store's document has no envelope in it. */
  lemma EncFreeNode(m: Tree, p: Path)
    requires Writable(m) && EncFreeStore(m)
    ensures !SealedNode(WriteDocument(m), p)
  {
    if SealedNode(WriteDocument(m), p) {
      EnvelopeLeaf(WriteDocument(m), p);
      DocumentShows(m, p + [ENC]);
      assert (p + [ENC])[|p|] == ENC;
      EncFreeShown(m, p + [ENC]);
      assert false;
    }
  }

  lemma EncFreeKept(m: Tree)
    requires Writable(m) && EncFreeStore(m) && forall k :: k in m ==> Nesting(m[k]) <= NESTING_LIMIT
    ensures !LooksEncrypted(m) && EnvelopesKept(m)
  {
    SplitDotFree(ENC);
    assert ENC in [ENC];
    forall k | k in m ensures !Sealed(m[k]) {
      if m[k].Obj? && IsEnvelope(Print(m[k])) {
        assert EncFreeFields(m[k].fields);
        EnvelopeField(m[k].fields);
      }
    }
    forall p ensures !SealedNode(WriteDocument(m), p) { EncFreeNode(m, p); }
  }

  /** Without the name `__enc` anywhere, only the number of levels decides. */
  lemma EncFreeRoundTrip(m: Tree, show: Json -> Bytes, parse: Bytes -> Option<Json>)
    requires Writable(m) && EncFreeStore(m) && ParserReads(WriteDocument(m), show, parse)
    ensures var loaded := LoadJsonFile(show(WriteDocument(m)), parse);
      (loaded.Some? && SameFullShown(loaded.value, m)) <==>
        forall k :: k in m ==> |Split(k)| + Nesting(m[k]) <= NESTING_LIMIT
  {
    JsonRoundTrip(m, show, parse);
    if forall k :: k in m ==> |Split(k)| + Nesting(m[k]) <= NESTING_LIMIT { EncFreeKept(m); }
  }

  // --------------------------------------------------------------------------------------
  // Stores that survive and stores that do not
  // --------------------------------------------------------------------------------------

  /** A path of `n` one-letter segments. */
  function DeepPath(n: nat): (p: Path)
    ensures |p| == n && forall s :: s in p ==> s == [0x61]
  {
    seq(n, _ => [0x61])
  }

  lemma OneEntry(k: Bytes, v: Json)
    requires Named(k) && (v == Null || v == ONE)
    ensures Writable(map[k := v])
    ensures LooksEncrypted(map[k := v]) <==> k == ENC && v == ONE
  {
  }

  lemma SurvivingEntry(show: Json -> Bytes, parse: Bytes -> Option<Json>)
    requires forall doc :: ParserReads(doc, show, parse)
    ensures var m: Tree := map[[0x61] := Null];
      var r := LoadJsonFile(show(WriteDocument(m)), parse); r.Some? && SameFullShown(r.value, m)
  {
    var k: Bytes := [0x61];
    OneEntry(k, Null);
    SplitDotFree(k);
    assert [k][0] != ENC;
    assert EncFreeStore(map[k := Null]);
    assert ParserReads(WriteDocument(map[k := Null]), show, parse);
    EncFreeRoundTrip(map[k := Null], show, parse);
  }

  lemma EnvelopeEntry(show: Json -> Bytes, parse: Bytes -> Option<Json>)
    requires forall doc :: ParserReads(doc, show, parse)
    ensures var m: Tree := map[ENC := ONE];
      var r := LoadJsonFile(show(WriteDocument(m)), parse); r.None? || !SameFullShown(r.value, m)
  {
    OneEntry(ENC, ONE);
    assert ParserReads(WriteDocument(map[ENC := ONE]), show, parse);
    JsonRoundTrip(map[ENC := ONE], show, parse);
  }

  lemma SortedOne(k: Bytes)
    ensures Sorted({k}) == [k]
  {
    var s := Sorted({k});
    assert k in s;
    if |s| >= 2 {
      assert s[0] in s && s[1] in s && Less(s[0], s[1]);
      LessTotal(k, k);
    }
  }

  /** The key `a.__enc`. */
  const INNER: Bytes := [0x61, DOT] + ENC

  lemma InnerDocument()
    ensures Named(INNER) && INNER != ENC
    ensures WriteDocument(map[INNER := ONE]) == Obj(Field([0x61], Obj(Field(ENC, ONE, NoField)), NoField))
  {
    var m: Tree := map[INNER := ONE];
    var a: Bytes := [0x61];
    assert INNER == a + [DOT] + ENC;
    SplitDot(a, ENC);
    SplitDotFree(a);
    SplitDotFree(ENC);
    assert Split(INNER) == [a, ENC] && [a, ENC][1..] == [ENC];
    assert m.Keys == {INNER};
    SortedOne(INNER);
    assert Document(m, [INNER]) == InsertAt(Document(m, []), [a, ENC], ONE);
    assert InsertAt(NoField, [ENC], ONE) == Field(ENC, ONE, NoField);
  }

  lemma InnerSealed()
    ensures var doc := Obj(Field([0x61], Obj(Field(ENC, ONE, NoField)), NoField)); SealedNode(doc, [[0x61]])
  {
    var v := Obj(Field(ENC, ONE, NoField));
    var doc, p := Obj(Field([0x61], v, NoField)), [[0x61]];
    EnvelopeText(NoField);
    assert p[1..] == [] && Lookup(doc.fields, [0x61]) == Some(v);
    assert !EnvelopeValue(doc) && Reached(v, []) && NodeAt(doc, p) == NodeAt(v, []);
  }

  lemma InnerEntry(show: Json -> Bytes, parse: Bytes -> Option<Json>)
    requires forall doc :: ParserReads(doc, show, parse)
    ensures var m: Tree := map[INNER := ONE];
      var r := LoadJsonFile(show(WriteDocument(m)), parse); r.None? || !SameFullShown(r.value, m)
  {
    var m: Tree := map[INNER := ONE];
    InnerDocument();
    InnerSealed();
    OneEntry(INNER, ONE);
    assert ParserReads(WriteDocument(m), show, parse);
    assert !SealedEntry(m, [[0x61]]);
    assert SealedNode(WriteDocument(m), [[0x61]]);
    JsonRoundTrip(m, show, parse);
  }

  lemma {:induction false} DeepKey(n: nat)
    requires n >= 1
    ensures |Join(DeepPath(n))| == 2 * n - 1 && Join(DeepPath(n))[0] == 0x61
    decreases n
  {
    assert DeepPath(n)[0] in DeepPath(n);
    if n > 1 {
      DeepKey(n - 1);
      assert DeepPath(n)[1..] == DeepPath(n - 1);
    }
  }

  lemma DeepEntry(show: Json -> Bytes, parse: Bytes -> Option<Json>)
    requires forall doc :: ParserReads(doc, show, parse)
    ensures var m: Tree := map[Join(DeepPath(130)) := Null];
      |Join(DeepPath(130))| == 259 && LoadJsonFile(show(WriteDocument(m)), parse).None?
  {
    var k := Join(DeepPath(130));
    var m: Tree := map[k := Null];
    DeepKey(130);
    SplitJoin(DeepPath(130));
    OneEntry(k, Null);
    assert ParserReads(WriteDocument(m), show, parse);
    assert |Split(k)| == 130 && k in m;
    DocumentNesting(m, NESTING_LIMIT);
  }

  /** One store that survives and three that do not: the integer 1 under `__enc`, which loses the whole file;
      the same under `a.__enc`, whose branch becomes an envelope; and a key of 130 one-letter segments, far
      below the length limit for keys. */
  lemma JsonFileWitnesses(show: Json -> Bytes, parse: Bytes -> Option<Json>)
    requires forall doc :: ParserReads(doc, show, parse)
    ensures var m: Tree := map[[0x61] := Null];
      var r := LoadJsonFile(show(WriteDocument(m)), parse); r.Some? && SameFullShown(r.value, m)
    ensures var m: Tree := map[ENC := ONE];
      var r := LoadJsonFile(show(WriteDocument(m)), parse); r.None? || !SameFullShown(r.value, m)
    ensures var m: Tree := map[INNER := ONE];
      var r := LoadJsonFile(show(WriteDocument(m)), parse); r.None? || !SameFullShown(r.value, m)
    ensures var m: Tree := map[Join(DeepPath(130)) := Null];
      |Join(DeepPath(130))| == 259 && LoadJsonFile(show(WriteDocument(m)), parse).None?
  {
    SurvivingEntry(show, parse);
    EnvelopeEntry(show, parse);
    InnerEntry(show, parse);
    DeepEntry(show, parse);
  }
}
