/** A secondary index: buckets of document keys by order key, and for each document the bucket
    and position it sits at. */
module SecondaryIndices {
  import opened Bytes
  import opened Paths
  import opened Json
  import opened OrderKeys

  type Buckets = map<Bytes, seq<Bytes>>
  type Positions = map<Bytes, (Bytes, nat)>

  /** The order key a document is indexed under, if any. */
  function IndexedKey(root: Option<Json>, path: Bytes): Option<Bytes> {
    if root.None? || root.value.NotJson? then None
    else match Descend(root.value, Split(path))
      case None => None
      case Some(target) => if Indexable(target) then Some(OrderKey(target)) else None
  }

  /** Follow a path from a document: field names through objects, decimal positions in arrays. */
  method ExtractPath(root: Json, path: Bytes) returns (r: Option<Json>)
    ensures r == Descend(root, Split(path))
  {
    var cur, parts := root, Split(path);
    for i := 0 to |parts|
      invariant Descend(root, parts) == Descend(cur, parts[i..])
    {
      assert parts[i..][1..] == parts[i + 1..];
      match cur {
        case Obj(fs) =>
          var child := Lookup(fs, parts[i]);
          if child.None? { return None; }
          cur := child.value;
        case Arr(items) =>
          var index := ParseIndex(parts[i]);
          if index.None? { return None; }
          var child := Nth(items, index.value);
          if child.None? { return None; }
          cur := child.value;
        case _ => return None;
      }
    }
    return Some(cur);
  }

  // --------------------------------------------------------------------------------------
  // The invariant
  // --------------------------------------------------------------------------------------

  predicate Placed(tree: Buckets, k: Bytes, e: Bytes, i: nat) {
    e in tree && i < |tree[e]| && tree[e][i] == k
  }

  /** Buckets and positions are inverse to each other, and no bucket is empty. */
  ghost predicate Linked(tree: Buckets, reverse: Positions) {
    && (forall e :: e in tree ==> tree[e] != [])
    && (forall e, i :: e in tree && 0 <= i < |tree[e]| ==>
        tree[e][i] in reverse && reverse[tree[e][i]] == (e, i))
    && (forall k :: k in reverse ==> Placed(tree, k, reverse[k].0, reverse[k].1))
  }

  /** No key occurs twice, in one bucket or in two. */
  lemma NoDuplicates(tree: Buckets, reverse: Positions)
    requires Linked(tree, reverse)
    ensures forall e, i, f, j :: e in tree && f in tree && 0 <= i < |tree[e]| && 0 <= j < |tree[f]| ==>
      tree[e][i] == tree[f][j] ==> e == f && i == j
  {
    forall e, i, f, j | e in tree && f in tree && 0 <= i < |tree[e]| && 0 <= j < |tree[f]| && tree[e][i] == tree[f][j]
      ensures e == f && i == j
    {
      assert reverse[tree[e][i]] == (e, i) && reverse[tree[f][j]] == (f, j);
    }
  }

  function SwapOut(bucket: seq<Bytes>, i: nat): seq<Bytes>
    requires i < |bucket|
  {
    bucket[i := bucket[|bucket| - 1]][..|bucket| - 1]
  }

  /** Which documents are indexed, and under which order key. */
  function Entries(reverse: Positions): map<Bytes, Bytes> {
    map k | k in reverse :: reverse[k].0
  }

  predicate PlacedAt(tree: Buckets, k: Bytes, at: (Bytes, nat)) { Placed(tree, k, at.0, at.1) }

  /** The document swapped into the hole moves to its position. */
  function PositionsWithout(tree: Buckets, reverse: Positions, key: Bytes, e: Bytes, i: nat): Positions
    requires e in tree && i < |tree[e]|
  {
    var b := SwapOut(tree[e], i);
    if i < |b| then (reverse - {key})[b[i] := (e, i)] else reverse - {key}
  }

  function BucketsWithout(tree: Buckets, e: Bytes, i: nat): Buckets
    requires e in tree && i < |tree[e]|
  {
    var b := SwapOut(tree[e], i);
    if b == [] then tree - {e} else tree[e := b]
  }

  lemma StillPlaced(tree: Buckets, reverse: Positions, key: Bytes, k: Bytes)
    requires Linked(tree, reverse) && key in reverse && k in reverse && k != key
    ensures Placed(tree, key, reverse[key].0, reverse[key].1) && Placed(tree, k, reverse[k].0, reverse[k].1)
    ensures var (e, i) := reverse[key];
      var (f, j) := reverse[k];
      var b := SwapOut(tree[e], i);
      if f != e then true else if i < |b| && b[i] == k then true else j < |b| && b[j] == k
    ensures var (e, i) := reverse[key]; reverse[k].0 == e ==> SwapOut(tree[e], i) != []
  {
    assert Placed(tree, key, reverse[key].0, reverse[key].1) && Placed(tree, k, reverse[k].0, reverse[k].1);
  }

  lemma RemovalLinked(tree: Buckets, reverse: Positions, key: Bytes)
    requires Linked(tree, reverse) && key in reverse
    ensures PlacedAt(tree, key, reverse[key])
    ensures var (e, i) := reverse[key];
      var reverse' := PositionsWithout(tree, reverse, key, e, i);
      Linked(BucketsWithout(tree, e, i), reverse')
  {
    var (e, i) := reverse[key];
    assert Placed(tree, key, e, i);
    var bucket, b := tree[e], SwapOut(tree[e], i);
    var last := |bucket| - 1;
    var tree', reverse' := BucketsWithout(tree, e, i), PositionsWithout(tree, reverse, key, e, i);
    assert reverse[bucket[last]] == (e, last);
    assert bucket[last] == key <==> i == last;
    forall f, j | f in tree' && 0 <= j < |tree'[f]| ensures tree'[f][j] in reverse' && reverse'[tree'[f][j]] == (f, j) {
      if f == e {
        assert b[j] == if j == i then bucket[last] else bucket[j];
        assert reverse[bucket[j]] == (e, j);
      } else {
        assert reverse[tree[f][j]] == (f, j);
      }
    }
    forall k | k in reverse' ensures Placed(tree', k, reverse'[k].0, reverse'[k].1) {
      StillPlaced(tree, reverse, key, k);
    }
  }

  lemma RemovalEntries(tree: Buckets, reverse: Positions, key: Bytes)
    requires Linked(tree, reverse) && key in reverse && PlacedAt(tree, key, reverse[key])
    ensures var (e, i) := reverse[key];
      Entries(PositionsWithout(tree, reverse, key, e, i)) == Entries(reverse) - {key}
  {
    var (e, i) := reverse[key];
    var bucket := tree[e];
    assert reverse[bucket[|bucket| - 1]] == (e, |bucket| - 1);
  }

  method SwapRemove(tree: Buckets, reverse: Positions, key: Bytes) returns (t: Buckets, r: Positions)
    requires key in reverse && PlacedAt(tree, key, reverse[key])
    ensures t == BucketsWithout(tree, reverse[key].0, reverse[key].1)
    ensures r == PositionsWithout(tree, reverse, key, reverse[key].0, reverse[key].1)
  {
    var (encoded, position) := reverse[key];
    r := reverse - {key};
    var bucket := tree[encoded];
    if bucket[position] != key {
      assert false;
    }
    bucket := SwapOut(bucket, position);
    if position < |bucket| {
      r := r[bucket[position] := (encoded, position)];
    }
    t := if bucket == [] then tree - {encoded} else tree[encoded := bucket];
  }

  /** Take a document out of the index. Its recorded position is always right, so the linear search
      for it cannot be reached. */
  method TakeOut(tree: Buckets, reverse: Positions, key: Bytes) returns (t: Buckets, r: Positions)
    requires Linked(tree, reverse) && key in reverse
    ensures Linked(t, r) && Entries(r) == Entries(reverse) - {key}
  {
    RemovalLinked(tree, reverse, key);
    RemovalEntries(tree, reverse, key);
    t, r := SwapRemove(tree, reverse, key);
  }

  /** A document's order key replaced, or forgotten. */
  function Reindexed(contents: map<Bytes, Bytes>, key: Bytes, e: Option<Bytes>): map<Bytes, Bytes> {
    match e
    case None => contents - {key}
    case Some(k) => contents[key := k]
  }

  function BucketOf(tree: Buckets, e: Bytes): seq<Bytes> {
    if e in tree then tree[e] else []
  }

  lemma InsertionLinked(tree: Buckets, reverse: Positions, key: Bytes, e: Bytes)
    requires Linked(tree, reverse) && key !in reverse
    ensures var bucket := BucketOf(tree, e);
      Linked(tree[e := bucket + [key]], reverse[key := (e, |bucket|)])
  {
    var bucket := BucketOf(tree, e);
    var tree', reverse' := tree[e := bucket + [key]], reverse[key := (e, |bucket|)];
    forall f, j | f in tree' && 0 <= j < |tree'[f]| ensures tree'[f][j] in reverse' && reverse'[tree'[f][j]] == (f, j) {
      if f != e || j < |bucket| {
        assert reverse[tree[f][j]] == (f, j);
      }
    }
    forall k | k in reverse' ensures Placed(tree', k, reverse'[k].0, reverse'[k].1) {
      if k != key { assert Placed(tree, k, reverse[k].0, reverse[k].1); }
    }
  }

  lemma InsertionEntries(reverse: Positions, key: Bytes, e: Bytes, i: nat)
    ensures Entries(reverse[key := (e, i)]) == Entries(reverse)[key := e]
  {
  }

  // --------------------------------------------------------------------------------------
  // Ranges
  // --------------------------------------------------------------------------------------

  function Bound(v: Option<Json>): Option<Bytes> {
    if v.None? || v.value.NotJson? then None else Some(OrderKey(v.value))
  }

  function First(keys: seq<Bytes>, limit: nat): seq<Bytes> {
    if 0 < limit < |keys| then keys[..limit] else keys
  }

  /** The buckets of some order keys, one after another. */
  function Flat(tree: Buckets, keys: seq<Bytes>): seq<Bytes>
    requires forall e :: e in keys ==> e in tree
  {
    if keys == [] then [] else assert keys[0] in keys; tree[keys[0]] + Flat(tree, keys[1..])
  }

  predicate Between(e: Bytes, lo: Option<Bytes>, hi: Option<Bytes>) {
    (lo.Some? ==> !Less(e, lo.value)) && (hi.Some? ==> Less(e, hi.value))
  }

  function KeysBetween(keys: set<Bytes>, lo: Option<Bytes>, hi: Option<Bytes>): (r: seq<Bytes>)
    ensures StrictlySorted(r)
    ensures forall e :: e in r <==> e in keys && Between(e, lo, hi)
  {
    Sorted(set e | e in keys && Between(e, lo, hi))
  }

  /** Push the keys of one bucket until the limit is reached. */
  method PushAll(before: seq<Bytes>, keys: seq<Bytes>, limit: nat) returns (out: seq<Bytes>, full: bool)
    requires limit == 0 || |before| < limit
    ensures !full ==> out == before + keys && (limit == 0 || |out| < limit)
    ensures full ==> limit > 0 && |before + keys| >= limit && out == (before + keys)[..limit]
  {
    out := before;
    for j := 0 to |keys|
      invariant out == before + keys[..j]
      invariant limit == 0 || |out| < limit
    {
      assert keys[..j + 1] == keys[..j] + [keys[j]];
      out := out + [keys[j]];
      if limit > 0 && |out| >= limit {
        assert out == (before + keys)[..limit];
        return out, true;
      }
    }
    assert keys[..|keys|] == keys;
    full := false;
  }

  method Collect(tree: Buckets, bounds: seq<Bytes>, limit: nat) returns (out: seq<Bytes>)
    requires forall e :: e in bounds ==> e in tree
    ensures out == First(Flat(tree, bounds), limit)
  {
    out := [];
    ghost var all := Flat(tree, bounds);
    assert bounds[0..] == bounds && out + all == all;
    for i := 0 to |bounds|
      invariant out + Flat(tree, bounds[i..]) == all
      invariant limit == 0 || |out| < limit
    {
      assert bounds[i] in bounds && bounds[i..][1..] == bounds[i + 1..];
      var full;
      ghost var before, rest := out, Flat(tree, bounds[i + 1..]);
      out, full := PushAll(out, tree[bounds[i]], limit);
      Assoc(before, tree[bounds[i]], rest);
      if full {
        assert (before + tree[bounds[i]]) + rest == all;
        return;
      }
    }
    assert out + [] == out;
  }

  // --------------------------------------------------------------------------------------
  // The index
  // --------------------------------------------------------------------------------------

  class SecondaryIndex {
    const path: Bytes
    var tree: Buckets
    var reverse: Positions

    ghost predicate Valid()
      reads this
    {
      Linked(tree, reverse)
    }

    ghost function Contents(): map<Bytes, Bytes>
      reads this
    {
      Entries(reverse)
    }

    constructor (path: Bytes)
      ensures Valid() && Contents() == map[] && this.path == path
    {
      this.path, tree, reverse := path, map[], map[];
    }

    method Clear()
      modifies this
      ensures Valid() && Contents() == map[]
    {
      tree, reverse := map[], map[];
    }

    /** Forget a document. */
    method RemoveKey(key: Bytes)
      requires Valid()
      modifies this
      ensures Valid() && Contents() == old(Contents()) - {key}
    {
      if key !in reverse {
        return;
      }
      var t, r := TakeOut(tree, reverse, key);
      tree, reverse := t, r;
    }

    method InsertParsedKey(key: Bytes, root: Option<Json>)
      requires Valid()
      modifies this
      ensures Valid() && Contents() == Reindexed(old(Contents()), key, IndexedKey(root, path))
    {
      RemoveKey(key);
      if root.None? || root.value.NotJson? {
        return;
      }
      var target := ExtractPath(root.value, path);
      if target.None? || !Indexable(target.value) {
        return;
      }
      Push(key, OrderKey(target.value));
    }

    /** Append a document to its bucket. */
    method Push(key: Bytes, encoded: Bytes)
      requires Valid() && key !in reverse
      modifies this
      ensures Valid() && Contents() == old(Contents())[key := encoded]
    {
      InsertionLinked(tree, reverse, key, encoded);
      InsertionEntries(reverse, key, encoded, |BucketOf(tree, encoded)|);
      var bucket := BucketOf(tree, encoded);
      var t, r := tree[encoded := bucket + [key]], reverse[key := (encoded, |bucket|)];
      tree, reverse := t, r;
    }

    /** The documents with exactly the order key of the value, each once. */
    method Lookup(value: Json) returns (keys: seq<Bytes>)
      requires Valid()
      ensures forall k :: k in keys <==> !value.NotJson? && k in Contents() && Contents()[k] == OrderKey(value)
      ensures forall i, j :: 0 <= i < j < |keys| ==> keys[i] != keys[j]
    {
      if value.NotJson? {
        return [];
      }
      NoDuplicates(tree, reverse);
      keys := if OrderKey(value) in tree then tree[OrderKey(value)] else [];
      forall k | k in Contents() && Contents()[k] == OrderKey(value) ensures k in keys {
        assert Placed(tree, k, reverse[k].0, reverse[k].1);
      }
    }

    /** The documents whose order key lies in a half-open interval, in order, at most `limit` of
        them unless that is 0. A bound that is not JSON is no bound. */
    method Range(gte: Option<Json>, lt: Option<Json>, limit: nat) returns (out: seq<Bytes>)
      requires Bound(gte).Some? && Bound(lt).Some? ==> !Less(Bound(lt).value, Bound(gte).value)
      ensures out == First(Flat(tree, KeysBetween(tree.Keys, Bound(gte), Bound(lt))), limit)
    {
      out := Collect(tree, KeysBetween(tree.Keys, Bound(gte), Bound(lt)), limit);
    }
  }

  // --------------------------------------------------------------------------------------
  // What a range lists
  // --------------------------------------------------------------------------------------

  lemma BucketLists(tree: Buckets, reverse: Positions, e: Bytes)
    requires Linked(tree, reverse) && e in tree
    ensures forall k :: k in tree[e] <==> k in reverse && reverse[k].0 == e
    ensures forall i :: 0 <= i < |tree[e]| ==> reverse[tree[e][i]].0 == e
  {
    forall k | k in reverse && reverse[k].0 == e ensures k in tree[e] {
      assert Placed(tree, k, e, reverse[k].1);
    }
  }

  /** A range lists exactly the documents indexed in the interval, each once, by rising order key. */
  lemma {:induction false} FlatLists(tree: Buckets, reverse: Positions, keys: seq<Bytes>)
    requires Linked(tree, reverse) && StrictlySorted(keys) && forall e :: e in keys ==> e in tree
    ensures var out := Flat(tree, keys);
      && (forall k :: k in out <==> k in reverse && reverse[k].0 in keys)
      && (forall i, j :: 0 <= i < j < |out| ==>
          out[i] != out[j] && (reverse[out[i]].0 == reverse[out[j]].0 || Less(reverse[out[i]].0, reverse[out[j]].0)))
    decreases |keys|
  {
    if keys != [] {
      var e, rest := keys[0], Flat(tree, keys[1..]);
      assert e in keys;
      FlatLists(tree, reverse, keys[1..]);
      NoDuplicates(tree, reverse);
      BucketLists(tree, reverse, e);
      var out := tree[e] + rest;
      forall k ensures k in out <==> k in reverse && reverse[k].0 in keys {
        assert k in out <==> k in tree[e] || k in rest;
      }
      forall i, j | 0 <= i < j < |out|
        ensures out[i] != out[j]
        ensures reverse[out[i]].0 == reverse[out[j]].0 || Less(reverse[out[i]].0, reverse[out[j]].0)
      {
        if i < |tree[e]| <= j {
          assert out[j] in rest && out[i] in tree[e];
          LessTotal(e, e);
        } else if i >= |tree[e]| {
          assert out[i] == rest[i - |tree[e]|] && out[j] == rest[j - |tree[e]|];
        }
      }
    }
  }
}
