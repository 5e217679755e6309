/** A store with a secondary index kept beside it: when the incrementally updated index equals
    one rebuilt from the store. */
module IndexedStores {
  import opened Bytes
  import opened Paths
  import opened Json
  import opened StoreSpec
  import opened StoreView
  import opened Effects
  import opened FlatStore
  import opened OrderKeys
  import opened SecondaryIndices

  type Contents = map<Bytes, Bytes>

  function At(c: Contents, x: Bytes): Option<Bytes> { if x in c then Some(c[x]) else None }

  /** The order key a stored entry is indexed under. */
  function Indexed(m: Tree, x: Bytes, path: Bytes): Option<Bytes> {
    if x in m then IndexedKey(Some(m[x]), path) else None
  }

  /** The index holds exactly what one built from the store would hold. */
  ghost predicate Agrees(c: Contents, m: Tree, path: Bytes) {
    forall x :: At(c, x) == Indexed(m, x, path)
  }

  /** The stored entry a key belongs to: itself, or its stored dotted ancestor. */
  function LeafOf(m: Tree, k: Bytes): (r: Option<Bytes>)
    ensures r.Some? ==> r.value in m && (r.value == k || Under(r.value, k))
    ensures r.None? ==> forall a :: a in m ==> a != k && !Under(a, k)
  {
    if k in m then Some(k)
    else match AncestorFrom(m.Keys, k, 0)
      case None => None
      case Some(i) => Some(k[..i])
  }

  // --------------------------------------------------------------------------------------
  // What operations do to entries
  // --------------------------------------------------------------------------------------

  /** Entries a set removes without telling the index: those below its key, and a scalar or array
      that its key turns into a branch. */
  predicate Overwritten(m: Tree, k: Bytes, x: Bytes) {
    x in m && (Under(k, x) || (Under(x, k) && !m[x].Obj?))
  }

  lemma NoneBelow(m: Tree, a: Bytes)
    requires PrefixFree(m.Keys) && a in m
    ensures Prune(m, a) == m - {a}
  {
  }

  lemma SoleAncestor(m: Tree, a: Bytes, k: Bytes)
    requires a in m && k !in m && Under(a, k) && forall x :: x in m && x != a ==> !Under(x, k)
    ensures LeafOf(m, k) == Some(a)
  {
    var r := AncestorFrom(m.Keys, k, 0);
    if r.Some? { assert k[..r.value] == a; }
  }

  lemma SetEntries(m: Tree, k: Bytes, v: Json)
    requires PrefixFree(m.Keys)
    ensures var m' := SetFn(m, k, v);
      var t := LeafOf(m', k);
      && t.Some?
      && (forall x :: x in m' && x != t.value ==> x in m && m'[x] == m[x])
      && (forall x :: x in m && x !in m' <==> Overwritten(m, k, x))
  {
    var m' := SetFn(m, k, v);
    match AncestorFrom(m.Keys, k, 0)
    case None =>
    case Some(i) =>
      var a := k[..i];
      OnlyAncestor(m, a, k);
      if m[a].Obj? {
        NoneBelow(m, a);
        assert k !in m;
        SoleAncestor(m', a, k);
      }
  }

  lemma DeleteEntries(m: Tree, k: Bytes)
    requires PrefixFree(m.Keys)
    ensures var (m', removed) := DeleteFn(m, k);
      && k !in m' && (!removed ==> m' == m)
      && (forall x :: x in m' && !(LeafOf(m', k) == Some(x)) ==> x in m && m'[x] == m[x])
      && (forall x :: x in m && x !in m' <==> x in m && (x == k || Under(k, x)))
  {
    if !Occupied(m, k) {
      match AncestorFrom(m.Keys, k, 0)
      case None =>
      case Some(i) =>
        OnlyAncestor(m, k[..i], k);
        var edit := RemoveInside(m, k[..i], k);
        if edit.Some? { SoleAncestor(edit.value, k[..i], k); }
    }
  }

  // --------------------------------------------------------------------------------------
  // One operation
  // --------------------------------------------------------------------------------------

  /** A key's entry indexed again after an operation, or forgotten when it has none. */
  function Touched(c: Contents, m: Tree, k: Bytes, path: Bytes): Contents {
    match LeafOf(m, k)
    case Some(leaf) => Reindexed(c, leaf, Indexed(m, leaf, path))
    case None => c - {k}
  }

  /** After a set the index is right exactly when nothing that was indexed was overwritten. */
  lemma SetKeepsIndex(c: Contents, m: Tree, k: Bytes, v: Json, path: Bytes)
    requires PrefixFree(m.Keys) && Agrees(c, m, path)
    ensures Agrees(Touched(c, SetFn(m, k, v), k, path), SetFn(m, k, v), path) <==>
      forall x :: Overwritten(m, k, x) ==> Indexed(m, x, path).None?
  {
    SetEntries(m, k, v);
    var m' := SetFn(m, k, v);
    var t := LeafOf(m', k).value;
    var c' := Touched(c, m', k, path);
    forall x ensures (At(c', x) == Indexed(m', x, path)) <==> (Overwritten(m, k, x) ==> Indexed(m, x, path).None?) {
      assert At(c, x) == Indexed(m, x, path);
      if x != t { assert At(c', x) == At(c, x); }
    }
  }

  /** After a delete the index is right. */
  lemma DeleteKeepsIndex(c: Contents, m: Tree, k: Bytes, path: Bytes, below: set<Bytes>)
    requires PrefixFree(m.Keys) && Agrees(c, m, path)
    requires forall x :: x in below <==> x in m && Under(k, x)
    ensures var (m', removed) := DeleteFn(m, k);
      Agrees(if removed then Touched(c - below, m', k, path) else c, m', path)
  {
    DeleteEntries(m, k);
    var (m', removed) := DeleteFn(m, k);
    if removed {
      var c' := Touched(c - below, m', k, path);
      forall x ensures At(c', x) == Indexed(m', x, path) {
        assert At(c, x) == Indexed(m, x, path);
      }
    }
  }

  lemma FoldKeepsIndex(c: Contents, m: Tree, k: Bytes, v: Json, path: Bytes)
    requires Agrees(c, m, path) && k !in m
    ensures Agrees(c, Prune(m, k)[k := v], path) <==>
      IndexedKey(Some(v), path).None? && forall x :: x in m && Under(k, x) ==> Indexed(m, x, path).None?
  {
    var m' := Prune(m, k)[k := v];
    assert At(c, k) == None && Indexed(m', k, path) == IndexedKey(Some(v), path);
    forall x | x != k
      ensures (At(c, x) == Indexed(m', x, path)) <==> (x in m && Under(k, x) ==> Indexed(m, x, path).None?)
    {
      assert At(c, x) == Indexed(m, x, path);
    }
  }

  /** A read leaves the index right exactly when it folds no branch, or folds one in which
      nothing was indexed into an entry that is not. */
  lemma GetKeepsIndex(c: Contents, m: Tree, k: Bytes, path: Bytes)
    requires Consistent(m) && KeyOk(k) && Agrees(c, m, path)
    ensures Agrees(c, GetFn(m, k).0, path) <==>
      k in m || LeafOf(m, k).Some? || !Occupied(m, k)
      || (IndexedKey(GetFn(m, k).1, path).None? && forall x :: x in m && Under(k, x) ==> Indexed(m, x, path).None?)
  {
    if k !in m && LeafOf(m, k).None? {
      ResolveSucceeds(m, k, Longest(Sorted(m.Keys)));
      if Occupied(m, k) { FoldKeepsIndex(c, m, k, GetFn(m, k).1.value, path); }
    }
  }

  const A: Bytes := [0x61]
  const AB: Bytes := [0x61, DOT, 0x62]
  const T: Bytes := [0x74]
  const DOC: Json := Obj(Field(T, Null, NoField))

  lemma WitnessIndexed()
    ensures Consistent(map[AB := DOC]) && Under(A, AB)
    ensures Indexed(map[AB := DOC], AB, T) == Some([0]) && Agrees(map[AB := [0]], map[AB := DOC], T)
  {
    var m: Tree := map[AB := DOC];
    assert IsText(AB) && m.Keys == {AB};
    SplitDotFree(T);
    assert [T][1..] == [];
    assert Descend(DOC, [T]) == Descend(Null, []) == Some(Null);
  }

  /** With one document `{"t": null}` under `a.b` and an index on `t`, neither writing `a` nor reading it
      leaves the index right. */
  lemma StaleIndex(v: Json)
    ensures var m: Tree := map[AB := DOC];
      && Agrees(map[AB := [0]], m, T)
      && !Agrees(Touched(map[AB := [0]], SetFn(m, A, v), A, T), SetFn(m, A, v), T)
      && !Agrees(map[AB := [0]], GetFn(m, A).0, T)
  {
    var m: Tree := map[AB := DOC];
    WitnessIndexed();
    SetKeepsIndex(map[AB := [0]], m, A, v, T);
    assert Overwritten(m, A, AB);
    assert LeafOf(m, A).None? && Occupied(m, A);
    GetKeepsIndex(map[AB := [0]], m, A, T);
  }

  // --------------------------------------------------------------------------------------
  // Batches
  // --------------------------------------------------------------------------------------

  /** The entry of some touched key. */
  ghost predicate Covered(m: Tree, touched: set<Bytes>, x: Bytes) {
    x in m && exists t :: t in touched && (t == x || Under(x, t))
  }

  /** Midway through a batch: the index is right about every stored entry except those of touched keys,
      among which is every removed key that is stored again. About keys that are no longer stored it may
      be wrong. */
  ghost predicate Pending(c: Contents, m: Tree, touched: set<Bytes>, removed: set<Bytes>, path: Bytes) {
    && (forall x :: x in m && !Covered(m, touched, x) ==> At(c, x) == Indexed(m, x, path))
    && (forall x :: x in removed && x in m ==> Covered(m, touched, x))
  }

  lemma PendingSet(c: Contents, m: Tree, touched: set<Bytes>, removed: set<Bytes>, k: Bytes, v: Json, path: Bytes)
    requires PrefixFree(m.Keys) && Pending(c, m, touched, removed, path)
    ensures Pending(c, SetFn(m, k, v), touched + {k}, removed, path)
  {
    SetEntries(m, k, v);
    var m' := SetFn(m, k, v);
    var t := LeafOf(m', k).value;
    assert k in touched + {k};
    forall x | x in m' && Covered(m, touched, x) ensures Covered(m', touched + {k}, x) {
      var u :| u in touched && (u == x || Under(x, u));
      assert u in touched + {k};
    }
    assert Covered(m', touched + {k}, t);
  }

  lemma PendingDelete(c: Contents, m: Tree, touched: set<Bytes>, removed: set<Bytes>, k: Bytes, path: Bytes,
                      below: set<Bytes>)
    requires PrefixFree(m.Keys) && Pending(c, m, touched, removed, path)
    requires forall x :: x in below <==> x in m && Under(k, x)
    ensures Pending(c, DeleteFn(m, k).0, touched + {k}, removed + {k} + below, path)
  {
    DeleteEntries(m, k);
    var m' := DeleteFn(m, k).0;
    assert k in touched + {k};
    forall x | x in m' && Covered(m, touched, x) ensures Covered(m', touched + {k}, x) {
      var u :| u in touched && (u == x || Under(x, u));
      assert u in touched + {k};
    }
    forall x | LeafOf(m', k) == Some(x) ensures Covered(m', touched + {k}, x) {
    }
  }

  /** Every key that the index still lists and the store no longer holds has been deleted, or was touched
      and has no entry. */
  ghost predicate AllForgotten(c: Contents, m: Tree, touched: set<Bytes>, removed: set<Bytes>) {
    forall x :: x in c && x !in m ==> x in removed || (x in touched && LeafOf(m, x).None?)
  }

  /** Forgetting the removed and the missing entries and reading the touched ones again makes the index
      right exactly when no other key has gone from the store. */
  lemma Settles(c: Contents, c': Contents, m: Tree, touched: set<Bytes>, removed: set<Bytes>, path: Bytes)
    requires PrefixFree(m.Keys) && Pending(c, m, touched, removed, path)
    requires forall x :: Covered(m, touched, x) ==> At(c', x) == Indexed(m, x, path)
    requires forall x :: !Covered(m, touched, x) ==>
      At(c', x) == if x in removed || (x in touched && LeafOf(m, x).None?) then None else At(c, x)
    ensures Agrees(c', m, path) <==> AllForgotten(c, m, touched, removed)
  {
    if Agrees(c', m, path) {
      forall x | x in c && x !in m ensures x in removed || (x in touched && LeafOf(m, x).None?) {
        assert At(c', x) == Indexed(m, x, path);
      }
    }
  }

  /** The keys a batch deletes: each deleted key with what lies below it at that moment. */
  function RemovedBy(m: Tree, ops: seq<Op>): set<Bytes>
    decreases |ops|
  {
    if ops == [] then {}
    else
      (if ops[0].Del? then {ops[0].key} + (set x | x in m && Under(ops[0].key, x)) else {})
      + RemovedBy(Apply(m, ops[0]), ops[1..])
  }

  predicate HasClear(ops: seq<Op>) {
    exists i :: 0 <= i < |ops| && ops[i].Clear?
  }

  /** What the index lists before the closing pass of a batch: what it listed at first, unless cleared. */
  function Listed(c: Contents, ops: seq<Op>): Contents {
    if HasClear(ops) then map[] else c
  }

  lemma RestOf(ops: seq<Op>, i: nat)
    requires i < |ops|
    ensures ops[i..] != [] && ops[i..][0] == ops[i] && ops[i..][1..] == ops[i + 1..] && ops[i] in ops
    ensures HasClear(ops[i..]) <==> ops[i].Clear? || HasClear(ops[i + 1..])
    ensures forall x :: x in OpKeys(ops[i..]) <==> (!ops[i].Clear? && x == ops[i].key) || x in OpKeys(ops[i + 1..])
  {
    var a, b := ops[i..], ops[i + 1..];
    assert forall j :: 0 <= j < |b| ==> b[j] == a[j + 1];
    if HasClear(a) {
      var j :| 0 <= j < |a| && a[j].Clear?;
      if j > 0 { assert b[j - 1].Clear?; }
    }
    if HasClear(b) {
      var j :| 0 <= j < |b| && b[j].Clear?;
      assert a[j + 1].Clear?;
    }
    if ops[i].Clear? { assert a[0].Clear?; }
    forall x ensures x in OpKeys(a) <==> (!ops[i].Clear? && x == ops[i].key) || x in OpKeys(b) {
      if x in OpKeys(a) {
        var j :| 0 <= j < |a| && !a[j].Clear? && a[j].key == x;
        if j > 0 { assert b[j - 1].key == x; }
      }
      if !ops[i].Clear? && x == ops[i].key { assert a[0].key == x; }
      if x in OpKeys(b) {
        var j :| 0 <= j < |b| && !b[j].Clear? && b[j].key == x;
        assert a[j + 1].key == x;
      }
    }
  }

  lemma LeafCovered(m: Tree, touched: set<Bytes>, x: Bytes)
    requires PrefixFree(m.Keys)
    ensures Covered(m, touched, x) <==> exists t :: t in touched && LeafOf(m, t) == Some(x)
  {
    if Covered(m, touched, x) {
      var t :| t in touched && (t == x || Under(x, t));
      if t != x {
        OnlyAncestor(m, x, t);
        assert t !in m;
        SoleAncestor(m, x, t);
      }
      assert LeafOf(m, t) == Some(x);
    }
  }

  // --------------------------------------------------------------------------------------
  // The engine's index bookkeeping
  // --------------------------------------------------------------------------------------

  /** Some entries indexed afresh, the others as they were. */
  ghost predicate Reread(c: Contents, c': Contents, m: Tree, done: set<Bytes>, path: Bytes) {
    forall x :: At(c', x) == if x in done then Indexed(m, x, path) else At(c, x)
  }

  lemma RereadOne(c: Contents, c': Contents, m: Tree, done: set<Bytes>, k: Bytes, path: Bytes)
    requires Reread(c, c', m, done, path) && k in m
    ensures Reread(c, Reindexed(c', k, IndexedKey(Some(m[k]), path)), m, done + {k}, path)
  {
    var c'' := Reindexed(c', k, IndexedKey(Some(m[k]), path));
    forall x ensures At(c'', x) == if x in done + {k} then Indexed(m, x, path) else At(c, x) {
      assert At(c', x) == if x in done then Indexed(m, x, path) else At(c, x);
    }
  }

  /** Index some entries of a store again. */
  method ReadEntries(index: SecondaryIndex, m: Tree, leaves: set<Bytes>)
    requires index.Valid() && leaves <= m.Keys
    modifies index
    ensures index.Valid() && Reread(old(index.Contents()), index.Contents(), m, leaves, index.path)
  {
    var keys := Sorted(leaves);
    ghost var done: set<Bytes> := {};
    for i := 0 to |keys|
      invariant index.Valid()
      invariant forall k :: k in done <==> k in keys[..i]
      invariant Reread(old(index.Contents()), index.Contents(), m, done, index.path)
    {
      assert keys[i] in keys && keys[..i + 1] == keys[..i] + [keys[i]];
      RereadOne(old(index.Contents()), index.Contents(), m, done, keys[i], index.path);
      index.InsertParsedKey(keys[i], Some(m[keys[i]]));
      done := done + {keys[i]};
    }
    assert keys[..|keys|] == keys && done == leaves;
  }

  lemma SameContents(a: Contents, b: Contents)
    requires forall x :: At(a, x) == At(b, x)
    ensures a == b
  {
    forall x ensures x in a <==> x in b { assert At(a, x) == At(b, x); }
    forall x | x in a ensures a[x] == b[x] { assert At(a, x) == At(b, x); }
  }

  /** Each key once, by rising order key. */
  ghost predicate ByOrderKey(keys: seq<Bytes>, m: Tree, path: Bytes) {
    && (forall i :: 0 <= i < |keys| ==> Indexed(m, keys[i], path).Some?)
    && (forall i, j :: 0 <= i < j < |keys| ==> keys[i] != keys[j])
    && (forall i, j :: 0 <= i < j < |keys| ==> !Less(Indexed(m, keys[j], path).value, Indexed(m, keys[i], path).value))
  }

  class IndexedStore {
    const store: Store
    const index: SecondaryIndex

    ghost predicate Valid()
      reads this, store, index
    {
      store.Synced() && Consistent(store.tree) && index.Valid()
    }

    ghost predicate Right()
      reads this, store, index
    {
      Agrees(index.Contents(), store.tree, index.path)
    }

    /** Create an index: every entry of the store is read once. */
    constructor (store: Store, path: Bytes)
      requires store.Synced() && Consistent(store.tree)
      ensures Valid() && Right() && fresh(index) && this.store == store && index.path == path
    {
      var idx := new SecondaryIndex(path);
      ReadEntries(idx, store.tree, store.tree.Keys);
      this.store, this.index := store, idx;
    }

    method ResolveIndexLeaf(key: Bytes) returns (r: Option<Bytes>)
      requires store.Synced()
      ensures r == LeafOf(store.tree, key)
    {
      if key in store.hash {
        return Some(key);
      }
      var found := store.AncestorLeaf(key);
      r := if found.None? then None else Some(key[..found.value]);
    }

    method IndexTouch(key: Bytes)
      requires Valid()
      modifies index
      ensures Valid() && index.Contents() == Touched(old(index.Contents()), store.tree, key, index.path)
    {
      var leaf := ResolveIndexLeaf(key);
      if leaf.Some? {
        index.InsertParsedKey(leaf.value, Some(store.tree[leaf.value]));
      } else {
        index.RemoveKey(key);
      }
    }

    /** The index stays right exactly when nothing that was indexed is overwritten. */
    method Set(key: Bytes, value: Json)
      requires Valid() && Right() && KeyOk(key) && WellFormed(value)
      modifies store, index
      ensures Valid() && store.tree == SetFn(old(store.tree), key, value)
      ensures Right() <==>
        forall x :: Overwritten(old(store.tree), key, x) ==> Indexed(old(store.tree), x, index.path).None?
    {
      SetKeepsIndex(index.Contents(), store.tree, key, value, index.path);
      store.Set(key, value);
      IndexTouch(key);
    }

    method Delete(key: Bytes) returns (removed: bool)
      requires Valid() && Right()
      modifies store, index
      ensures Valid() && Right() && (store.tree, removed) == DeleteFn(old(store.tree), key)
    {
      ghost var c, m := index.Contents(), store.tree;
      var below := Descendants(key);
      DeleteKeepsIndex(c, m, key, index.path, below);
      var _, any := store.Delete(key);
      removed := any;
      if any {
        RemoveAll(below);
        IndexTouch(key);
      }
    }

    method Descendants(key: Bytes) returns (below: set<Bytes>)
      requires store.Synced()
      ensures forall x :: x in below <==> x in store.tree && Under(key, x)
    {
      RangeIsBelow(store.tree.Keys, key);
      var keys := DescendantKeys(store.tree.Keys, key);
      below := set x | x in keys;
    }

    method RemoveAll(keys: set<Bytes>)
      requires index.Valid()
      modifies index
      ensures index.Valid() && index.Contents() == old(index.Contents()) - keys
    {
      var todo := Sorted(keys);
      for i := 0 to |todo|
        invariant index.Valid()
        invariant forall x :: At(index.Contents(), x) == if x in todo[..i] then None else old(At(index.Contents(), x))
      {
        assert todo[..i + 1] == todo[..i] + [todo[i]];
        index.RemoveKey(todo[i]);
      }
      assert todo[..|todo|] == todo;
      SameContents(index.Contents(), old(index.Contents()) - keys);
    }

    method Clear()
      modifies store, index
      ensures Valid() && Right() && store.tree == map[]
    {
      store.Clear();
      index.Clear();
    }

    /** The answer a scan of all documents would give: every entry whose value at the path has the
        order key asked for, each once. */
    method IndexLookup(value: Json) returns (keys: seq<Bytes>)
      requires Valid() && Right() && !value.NotJson?
      ensures forall k :: k in keys <==> Indexed(store.tree, k, index.path) == Some(OrderKey(value))
      ensures forall i, j :: 0 <= i < j < |keys| ==> keys[i] != keys[j]
    {
      keys := index.Lookup(value);
      forall k ensures k in keys <==> Indexed(store.tree, k, index.path) == Some(OrderKey(value)) {
        assert At(index.Contents(), k) == Indexed(store.tree, k, index.path);
      }
    }

    /** A range query: the first `limit` of all entries whose order key lies in the interval,
        sorted by order key. */
    method IndexRange(gte: Option<Json>, lt: Option<Json>, limit: nat) returns (out: seq<Bytes>, ghost full: seq<Bytes>)
      requires Valid() && Right()
      requires Bound(gte).Some? && Bound(lt).Some? ==> !Less(Bound(lt).value, Bound(gte).value)
      ensures out == First(full, limit)
      ensures forall k :: k in full <==> var e := Indexed(store.tree, k, index.path);
        e.Some? && Between(e.value, Bound(gte), Bound(lt))
      ensures ByOrderKey(full, store.tree, index.path)
    {
      var bounds := KeysBetween(index.tree.Keys, Bound(gte), Bound(lt));
      out := index.Range(gte, lt, limit);
      full := Flat(index.tree, bounds);
      FlatLists(index.tree, index.reverse, bounds);
      forall k
        ensures k in full <==>
          var e := Indexed(store.tree, k, index.path); e.Some? && Between(e.value, Bound(gte), Bound(lt))
      {
        assert At(index.Contents(), k) == Indexed(store.tree, k, index.path);
        if k in index.reverse { assert Placed(index.tree, k, index.reverse[k].0, index.reverse[k].1); }
      }
      forall i | 0 <= i < |full| ensures Indexed(store.tree, full[i], index.path) == Some(index.reverse[full[i]].0) {
        assert full[i] in full;
        assert At(index.Contents(), full[i]) == Indexed(store.tree, full[i], index.path);
      }
      forall i, j | 0 <= i < j < |full| ensures !Less(index.reverse[full[j]].0, index.reverse[full[i]].0) {
        LessTotal(index.reverse[full[i]].0, index.reverse[full[j]].0);
      }
    }

    /** A batch reads its touched entries again only once, at the end. The index is right afterwards exactly
        when every key that it listed and that the store no longer holds was deleted in the batch, or was
        touched and has no entry. */
    method Batch(ops: seq<Op>)
      requires Valid() && Right() && forall op :: op in ops ==> OpOk(op)
      modifies store, index
      ensures Valid() && store.tree == ApplyAll(old(store.tree), ops)
      ensures Right() <==>
        AllForgotten(Listed(old(index.Contents()), ops), store.tree, OpKeys(ops), RemovedBy(old(store.tree), ops))
    {
      var touched, removed: set<Bytes> := {}, {};
      ghost var m, c := store.tree, index.Contents();
      assert ops[0..] == ops;
      for i := 0 to |ops|
        invariant Valid()
        invariant ApplyAll(store.tree, ops[i..]) == ApplyAll(m, ops)
        invariant Listed(index.Contents(), ops[i..]) == Listed(c, ops)
        invariant forall x :: x in touched || x in OpKeys(ops[i..]) <==> x in OpKeys(ops)
        invariant forall x :: x in removed || x in RemovedBy(store.tree, ops[i..]) <==> x in RemovedBy(m, ops)
        invariant Pending(index.Contents(), store.tree, touched, removed, index.path)
      {
        RestOf(ops, i);
        touched, removed := ApplyTracked(ops[i], touched, removed);
      }
      assert touched == OpKeys(ops) && removed == RemovedBy(m, ops);
      Resolve(touched, removed);
    }

    method ApplyTracked(op: Op, touched: set<Bytes>, removed: set<Bytes>)
      returns (touched': set<Bytes>, removed': set<Bytes>)
      requires Valid() && OpOk(op)
      requires Pending(index.Contents(), store.tree, touched, removed, index.path)
      modifies store, index
      ensures Valid() && store.tree == Apply(old(store.tree), op)
      ensures index.Contents() == if op.Clear? then map[] else old(index.Contents())
      ensures touched' == touched + if op.Clear? then {} else {op.key}
      ensures forall x :: x in removed' <==>
        x in removed || (op.Del? && (x == op.key || (x in old(store.tree) && Under(op.key, x))))
      ensures Pending(index.Contents(), store.tree, touched', removed', index.path)
    {
      touched', removed' := touched, removed;
      ghost var c, m := index.Contents(), store.tree;
      match op {
        case Set(k, v) =>
          PendingSet(c, m, touched, removed, k, v, index.path);
          store.Set(k, v);
          touched' := touched + {k};
        case Del(k) =>
          var below := Descendants(k);
          PendingDelete(c, m, touched, removed, k, index.path, below);
          removed' := removed + {k} + below;
          var _, _ := store.Delete(k);
          touched' := touched + {k};
        case Clear =>
          store.Clear();
          index.Clear();
      }
    }

    method Resolve(touched: set<Bytes>, removed: set<Bytes>)
      requires Valid() && Pending(index.Contents(), store.tree, touched, removed, index.path)
      modifies index
      ensures Valid() && (Right() <==> AllForgotten(old(index.Contents()), store.tree, touched, removed))
    {
      ghost var c, m := index.Contents(), store.tree;
      RemoveAll(removed);
      var leaves, missing := Classify(touched);
      RemoveAll(missing);
      ReadEntries(index, store.tree, leaves);
      forall x ensures x in leaves <==> Covered(m, touched, x) { LeafCovered(m, touched, x); }
      Settles(c, index.Contents(), m, touched, removed, index.path);
    }

    method Classify(touched: set<Bytes>) returns (leaves: set<Bytes>, missing: set<Bytes>)
      requires store.Synced()
      ensures forall x :: x in leaves <==> exists t :: t in touched && LeafOf(store.tree, t) == Some(x)
      ensures forall x :: x in missing <==> x in touched && LeafOf(store.tree, x).None?
    {
      leaves, missing := {}, {};
      var keys := Sorted(touched);
      for i := 0 to |keys|
        invariant forall x :: x in leaves <==> exists t :: t in keys[..i] && LeafOf(store.tree, t) == Some(x)
        invariant forall x :: x in missing <==> x in keys[..i] && LeafOf(store.tree, x).None?
      {
        assert keys[..i + 1] == keys[..i] + [keys[i]];
        var leaf := ResolveIndexLeaf(keys[i]);
        if leaf.Some? {
          leaves := leaves + {leaf.value};
        } else {
          missing := missing + {keys[i]};
        }
      }
      assert keys[..|keys|] == keys;
    }
  }
}
