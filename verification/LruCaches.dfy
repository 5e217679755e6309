/** The read cache: a recency list of heap nodes, a map to them, and an index from every dotted
    prefix to the cached keys at or below it. */
module LruCaches {
  import opened Bytes
  import opened Paths
  import opened Json

  // --------------------------------------------------------------------------------------
  // The prefix index
  // --------------------------------------------------------------------------------------

  predicate Covers(p: Bytes, k: Bytes) { p == k || Under(p, k) }

  /** The key made of the first `i` segments. */
  function PrefixKey(k: Bytes, i: nat): Bytes
    requires 1 <= i <= |Split(k)|
  {
    Join(Split(k)[..i])
  }

  function PrefixesUpTo(k: Bytes, i: nat): set<Bytes>
    requires 1 <= i <= |Split(k)| + 1
  {
    set j | 1 <= j < i :: PrefixKey(k, j)
  }

  lemma PrefixSegments(k: Bytes, i: nat)
    requires 1 <= i <= |Split(k)|
    ensures Split(PrefixKey(k, i)) == Split(k)[..i]
  {
    SplitSegments(k);
    SplitJoin(Split(k)[..i]);
  }

  lemma PrefixCovers(k: Bytes, j: nat)
    requires 1 <= j <= |Split(k)|
    ensures Covers(PrefixKey(k, j), k)
  {
    PrefixSegments(k, j);
    UnderIsProperPrefix(PrefixKey(k, j), k);
  }

  lemma CoverIsPrefix(p: Bytes, k: Bytes)
    requires Covers(p, k)
    ensures |Split(p)| <= |Split(k)| && p == PrefixKey(k, |Split(p)|)
  {
    UnderIsProperPrefix(p, k);
    JoinSplit(p);
    assert Split(k)[..|Split(p)|] == Split(p);
  }

  /** The prefixes made of whole segments are exactly the key and its dotted ancestors. */
  lemma PrefixesCover(k: Bytes, p: Bytes)
    ensures p in PrefixesUpTo(k, |Split(k)| + 1) <==> Covers(p, k)
  {
    if p in PrefixesUpTo(k, |Split(k)| + 1) {
      var j :| 1 <= j <= |Split(k)| && p == PrefixKey(k, j);
      PrefixCovers(k, j);
    }
    if Covers(p, k) {
      CoverIsPrefix(p, k);
    }
  }

  lemma PrefixesStep(k: Bytes, i: nat)
    requires 1 <= i <= |Split(k)|
    ensures PrefixesUpTo(k, i + 1) == PrefixesUpTo(k, i) + {PrefixKey(k, i)}
  {
  }

  type Groups = map<Bytes, set<Bytes>>

  function MembersOf(index: Groups, p: Bytes): set<Bytes> {
    if p in index then index[p] else {}
  }

  ghost predicate Counted(index: Groups, keyCount: map<Bytes, nat>) {
    && keyCount.Keys == index.Keys
    && forall p :: p in index ==> index[p] != {} && keyCount[p] == |index[p]|
  }

  /** The key has joined the groups of some prefixes. */
  ghost predicate Joined(was: Groups, now: Groups, ps: set<Bytes>, key: Bytes) {
    forall p :: MembersOf(now, p) == MembersOf(was, p) + if p in ps then {key} else {}
  }

  /** The key has left the groups of some prefixes. */
  ghost predicate Left(was: Groups, now: Groups, ps: set<Bytes>, key: Bytes) {
    forall p :: MembersOf(now, p) == MembersOf(was, p) - if p in ps then {key} else {}
  }

  lemma JoinedStep(was: Groups, mid: Groups, now: Groups, ps: set<Bytes>, q: Bytes, key: Bytes)
    requires Joined(was, mid, ps, key) && Joined(mid, now, {q}, key)
    ensures Joined(was, now, ps + {q}, key)
  {
  }

  lemma LeftStep(was: Groups, mid: Groups, now: Groups, ps: set<Bytes>, q: Bytes, key: Bytes)
    requires Left(was, mid, ps, key) && Left(mid, now, {q}, key)
    ensures Left(was, now, ps + {q}, key)
  {
  }

  /** The keys at or below a prefix. */
  function AtOrBelow(keys: set<Bytes>, p: Bytes): set<Bytes> {
    set k | k in keys && Covers(p, k)
  }

  /** The groups of a set of keys. */
  ghost predicate GroupsOf(index: Groups, keys: set<Bytes>) {
    forall p :: MembersOf(index, p) == AtOrBelow(keys, p)
  }

  lemma MoreBelow(keys: set<Bytes>, key: Bytes, p: Bytes)
    ensures AtOrBelow(keys + {key}, p) == AtOrBelow(keys, p) + if Covers(p, key) then {key} else {}
    ensures AtOrBelow(keys - {key}, p) == AtOrBelow(keys, p) - if Covers(p, key) then {key} else {}
  {
  }

  lemma JoinedGroups(was: Groups, now: Groups, keys: set<Bytes>, key: Bytes)
    requires GroupsOf(was, keys) && Joined(was, now, PrefixesUpTo(key, |Split(key)| + 1), key)
    ensures GroupsOf(now, keys + {key})
  {
    forall p ensures MembersOf(now, p) == AtOrBelow(keys + {key}, p) {
      PrefixesCover(key, p);
      MoreBelow(keys, key, p);
    }
  }

  lemma LeftGroups(was: Groups, now: Groups, keys: set<Bytes>, key: Bytes)
    requires GroupsOf(was, keys) && Left(was, now, PrefixesUpTo(key, |Split(key)| + 1), key)
    ensures GroupsOf(now, keys - {key})
  {
    forall p ensures MembersOf(now, p) == AtOrBelow(keys - {key}, p) {
      PrefixesCover(key, p);
      MoreBelow(keys, key, p);
    }
  }

  lemma Grown(index: Groups, keyCount: map<Bytes, nat>, prefix: Bytes, key: Bytes)
    requires Counted(index, keyCount)
    ensures var members := MembersOf(index, prefix) + {key};
      && Counted(index[prefix := members], keyCount[prefix := |members|])
      && Joined(index, index[prefix := members], {prefix}, key)
  {
  }

  /** For each dotted prefix, the set of keys at or below it and its size; empty sets are dropped. */
  class CacheIndex {
    var index: Groups
    var keyCount: map<Bytes, nat>
    ghost var keys: set<Bytes>

    ghost predicate Valid()
      reads this
    {
      Counted(index, keyCount) && GroupsOf(index, keys)
    }

    constructor ()
      ensures Valid() && keys == {}
    {
      index, keyCount, keys := map[], map[], {};
    }

    method Clear()
      modifies this
      ensures Valid() && keys == {}
    {
      index, keyCount, keys := map[], map[], {};
    }

    /** The key joins the groups of itself and its dotted ancestors. */
    method Add(key: Bytes)
      requires Valid()
      modifies this
      ensures Valid() && keys == old(keys) + {key}
    {
      AddToAll(key);
      JoinedGroups(old(index), index, keys, key);
      keys := keys + {key};
    }

    method AddToAll(key: Bytes)
      requires Counted(index, keyCount)
      modifies this`index, this`keyCount
      ensures Counted(index, keyCount) && Joined(old(index), index, PrefixesUpTo(key, |Split(key)| + 1), key)
    {
      for i := 1 to |Split(key)| + 1
        invariant Counted(index, keyCount)
        invariant Joined(old(index), index, PrefixesUpTo(key, i), key)
      {
        PrefixesStep(key, i);
        ghost var mid := index;
        AddTo(PrefixKey(key, i), key);
        JoinedStep(old(index), mid, index, PrefixesUpTo(key, i), PrefixKey(key, i), key);
      }
    }

    method AddTo(prefix: Bytes, key: Bytes)
      requires Counted(index, keyCount)
      modifies this`index, this`keyCount
      ensures Counted(index, keyCount) && Joined(old(index), index, {prefix}, key)
    {
      var members, count := {}, 0;
      if prefix in index {
        members, count := index[prefix], keyCount[prefix];
      }
      Grown(index, keyCount, prefix, key);
      assert count == |members| && members == MembersOf(index, prefix);
      if key !in members {
        members, count := members + {key}, count + 1;
      }
      assert members == MembersOf(index, prefix) + {key} && count == |members|;
      index, keyCount := index[prefix := members], keyCount[prefix := count];
    }

    /** The key leaves every group it is in; empty groups go. */
    method Remove(key: Bytes)
      requires Valid()
      modifies this
      ensures Valid() && keys == old(keys) - {key}
    {
      RemoveFromAll(key);
      LeftGroups(old(index), index, keys, key);
      keys := keys - {key};
    }

    method RemoveFromAll(key: Bytes)
      requires Counted(index, keyCount)
      modifies this`index, this`keyCount
      ensures Counted(index, keyCount) && Left(old(index), index, PrefixesUpTo(key, |Split(key)| + 1), key)
    {
      for i := 1 to |Split(key)| + 1
        invariant Counted(index, keyCount)
        invariant Left(old(index), index, PrefixesUpTo(key, i), key)
      {
        PrefixesStep(key, i);
        ghost var mid := index;
        RemoveFrom(PrefixKey(key, i), key);
        LeftStep(old(index), mid, index, PrefixesUpTo(key, i), PrefixKey(key, i), key);
      }
    }

    method RemoveFrom(prefix: Bytes, key: Bytes)
      requires Counted(index, keyCount)
      modifies this`index, this`keyCount
      ensures Counted(index, keyCount) && Left(old(index), index, {prefix}, key)
    {
      if prefix in index && key in index[prefix] {
        var members := index[prefix] - {key};
        assert |members| == |index[prefix]| - 1 && (|members| == 0 <==> members == {});
        var count := keyCount[prefix] - 1;
        if count <= 0 {
          index, keyCount := index - {prefix}, keyCount - {prefix};
        } else {
          index, keyCount := index[prefix := members], keyCount[prefix := count];
        }
      }
    }

    /** The cached keys at or below a prefix. */
    method Get(prefix: Bytes) returns (r: set<Bytes>)
      requires Valid()
      ensures r == AtOrBelow(keys, prefix)
    {
      assert MembersOf(index, prefix) == AtOrBelow(keys, prefix);
      r := if prefix in index then index[prefix] else {};
    }
  }

  // --------------------------------------------------------------------------------------
  // Key sequences
  // --------------------------------------------------------------------------------------

  ghost predicate Distinct<T>(s: seq<T>) {
    forall i, j :: 0 <= i < j < |s| ==> s[i] != s[j]
  }

  /** The keys that are not gone, in order. */
  function Without(keys: seq<Bytes>, gone: set<Bytes>): (r: seq<Bytes>)
    ensures forall k :: k in r <==> k in keys && k !in gone
    ensures |r| <= |keys|
  {
    if keys == [] then []
    else
      var rest := Without(keys[1..], gone);
      assert forall k :: k in keys <==> k == keys[0] || k in keys[1..];
      if keys[0] in gone then rest else [keys[0]] + rest
  }

  lemma {:induction false} WithoutTwice(keys: seq<Bytes>, a: set<Bytes>, b: set<Bytes>)
    ensures Without(Without(keys, a), b) == Without(keys, a + b)
    decreases |keys|
  {
    if keys != [] {
      WithoutTwice(keys[1..], a, b);
      if keys[0] !in a {
        assert ([keys[0]] + Without(keys[1..], a))[1..] == Without(keys[1..], a);
      }
    }
  }

  lemma {:induction false} WithoutNone(keys: seq<Bytes>, gone: set<Bytes>)
    requires forall k :: k in keys ==> k !in gone
    ensures Without(keys, gone) == keys
    decreases |keys|
  {
    if keys != [] {
      assert keys[0] in keys;
      WithoutNone(keys[1..], gone);
    }
  }

  lemma {:induction false} WithoutConcat(a: seq<Bytes>, b: seq<Bytes>, gone: set<Bytes>)
    ensures Without(a + b, gone) == Without(a, gone) + Without(b, gone)
    decreases |a|
  {
    if a == [] {
      assert a + b == b;
    } else {
      assert (a + b)[1..] == a[1..] + b;
      WithoutConcat(a[1..], b, gone);
    }
  }

  lemma WithoutItself(k: Bytes)
    ensures Without([k], {k}) == []
  {
    assert [k][1..] == [];
  }

  lemma WithoutMiddle(a: seq<Bytes>, k: Bytes, b: seq<Bytes>)
    requires k !in a && k !in b
    ensures Without(a + ([k] + b), {k}) == a + b
  {
    WithoutConcat(a, [k] + b, {k});
    WithoutConcat([k], b, {k});
    WithoutItself(k);
    WithoutNone(a, {k});
    WithoutNone(b, {k});
    assert [] + b == b;
  }

  lemma {:induction false} DistinctSize(keys: seq<Bytes>, s: set<Bytes>)
    requires Distinct(keys) && forall k :: k in s <==> k in keys
    ensures |s| == |keys|
    decreases |keys|
  {
    if keys == [] {
      assert s == {};
    } else {
      assert keys[0] in keys;
      forall k ensures k in s - {keys[0]} <==> k in keys[1..] {
        assert k in keys <==> k == keys[0] || k in keys[1..];
        if k in keys[1..] { var i :| 0 <= i < |keys[1..]| && keys[1..][i] == k; assert keys[i + 1] == k; }
      }
      DistinctSize(keys[1..], s - {keys[0]});
    }
  }

  function FirstN(keys: seq<Bytes>, n: nat): seq<Bytes> {
    if |keys| <= n then keys else keys[..n]
  }

  lemma {:induction false} WithoutSame(keys: seq<Bytes>, a: set<Bytes>, b: set<Bytes>)
    requires forall k :: k in keys ==> (k in a <==> k in b)
    ensures Without(keys, a) == Without(keys, b)
    decreases |keys|
  {
    if keys != [] {
      assert keys[0] in keys;
      WithoutSame(keys[1..], a, b);
    }
  }

  /** The strict prefixes of a key are its dotted ancestors. */
  lemma StrictPrefixes(k: Bytes, p: Bytes)
    ensures p in PrefixesUpTo(k, |Split(k)|) <==> Under(p, k)
  {
    UnderIsProperPrefix(p, k);
    if p in PrefixesUpTo(k, |Split(k)|) {
      var j :| 1 <= j < |Split(k)| && p == PrefixKey(k, j);
      PrefixCovers(k, j);
      PrefixSegments(k, j);
    }
    if Under(p, k) {
      CoverIsPrefix(p, k);
    }
  }

  // --------------------------------------------------------------------------------------
  // The recency list
  // --------------------------------------------------------------------------------------

  class LRUNode {
    const key: Bytes
    var value: Json
    var expiry: int
    var prev: LRUNode?
    var next: LRUNode?

    constructor (key: Bytes, value: Json, expiry: int)
      ensures this.key == key && this.value == value && this.expiry == expiry
      ensures prev == null && next == null
    {
      this.key, this.value, this.expiry, this.prev, this.next := key, value, expiry, null, null;
    }
  }

  ghost predicate Adjacent(x: LRUNode, y: LRUNode)
    reads x`next, y`prev
  {
    x.next == y && y.prev == x
  }

  /** Neighbours point at each other. */
  ghost predicate Run(c: seq<LRUNode>)
    reads c`prev, c`next
  {
    forall i :: 0 <= i < |c| - 1 ==> Adjacent(c[i], c[i + 1])
  }

  lemma RunConcat(a: seq<LRUNode>, b: seq<LRUNode>)
    requires a != [] && b != []
    ensures Run(a + b) <==> Run(a) && Run(b) && Adjacent(a[|a| - 1], b[0])
  {
    var c := a + b;
    if Run(c) {
      assert Adjacent(c[|a| - 1], c[|a|]);
      forall i | 0 <= i < |b| - 1 ensures Adjacent(b[i], b[i + 1]) {
        assert Adjacent(c[|a| + i], c[|a| + i + 1]);
      }
      forall i | 0 <= i < |a| - 1 ensures Adjacent(a[i], a[i + 1]) {
        assert Adjacent(c[i], c[i + 1]);
      }
    }
  }

  lemma DistinctConcat<T>(a: seq<T>, b: seq<T>)
    ensures Distinct(a + b) <==> Distinct(a) && Distinct(b) && forall x :: x in a ==> x !in b
  {
    var c := a + b;
    if Distinct(c) {
      forall i, j | 0 <= i < j < |a| ensures a[i] != a[j] { assert c[i] != c[j]; }
      forall i, j | 0 <= i < j < |b| ensures b[i] != b[j] { assert c[|a| + i] != c[|a| + j]; }
      forall x | x in a ensures x !in b {
        var i :| 0 <= i < |a| && a[i] == x;
        forall j | 0 <= j < |b| ensures b[j] != x { assert c[i] != c[|a| + j]; }
      }
    } else {
      var i, j :| 0 <= i < j < |c| && c[i] == c[j];
      if i < |a| <= j { assert a[i] in a && b[j - |a|] in b; }
    }
  }

  /** Put a node behind the head, in front of the rest of the chain. */
  method Attach(head: LRUNode, node: LRUNode, ghost rest: seq<LRUNode>)
    requires rest != [] && Run(rest) && Adjacent(head, rest[0])
    requires Distinct([head] + rest) && node !in [head] + rest
    modifies head`next, {rest[0]}`prev, node`prev, node`next
    ensures Run([head, node] + rest)
  {
    DistinctConcat([head], rest);
    node.next := head.next;
    node.prev := head;
    head.next.prev := node;
    head.next := node;
    RunConcat([head, node], rest);
  }

  /** Take a node out from between two parts of the chain. */
  method Detach(node: LRUNode, ghost a: seq<LRUNode>, ghost b: seq<LRUNode>)
    requires a != [] && b != [] && Run(a) && Run(b)
    requires Adjacent(a[|a| - 1], node) && Adjacent(node, b[0])
    requires Distinct(a + b) && node !in a + b
    modifies {a[|a| - 1]}`next, {b[0]}`prev, node`prev, node`next
    ensures Run(a + b)
  {
    DistinctConcat(a, b);
    node.prev.next := node.next;
    node.next.prev := node.prev;
    node.prev := null;
    node.next := null;
    RunConcat(a, b);
  }

  function KeysOf(nodes: seq<LRUNode>): (r: seq<Bytes>)
    ensures |r| == |nodes| && forall i :: 0 <= i < |nodes| ==> r[i] == nodes[i].key
  {
    if nodes == [] then [] else [nodes[0].key] + KeysOf(nodes[1..])
  }

  lemma {:induction false} KeysConcat(a: seq<LRUNode>, b: seq<LRUNode>)
    ensures KeysOf(a + b) == KeysOf(a) + KeysOf(b)
  {
  }

  /** The map sends each key to the one node of the list that has it. */
  ghost predicate Mapped(nodes: map<Bytes, LRUNode>, order: seq<LRUNode>) {
    && (forall k :: k in nodes ==> nodes[k] in order && nodes[k].key == k)
    && (forall n :: n in order ==> n.key in nodes && nodes[n.key] == n)
  }

  lemma DistinctKeys(nodes: map<Bytes, LRUNode>, order: seq<LRUNode>)
    requires Mapped(nodes, order) && Distinct(order)
    ensures Distinct(KeysOf(order))
  {
    forall i, j | 0 <= i < j < |order| ensures order[i].key != order[j].key {
      assert order[i] in order && order[j] in order;
    }
  }

  lemma MappedKeys(nodes: map<Bytes, LRUNode>, order: seq<LRUNode>)
    requires Mapped(nodes, order) && Distinct(order)
    ensures Distinct(KeysOf(order)) && |nodes| == |order|
    ensures forall k :: k in KeysOf(order) <==> k in nodes
  {
    DistinctKeys(nodes, order);
    forall k ensures k in KeysOf(order) <==> k in nodes.Keys {
      if k in nodes {
        var i :| 0 <= i < |order| && order[i] == nodes[k];
        assert KeysOf(order)[i] == k;
      }
      if k in KeysOf(order) {
        var i :| 0 <= i < |order| && KeysOf(order)[i] == k;
        assert order[i] in order;
      }
    }
    DistinctSize(KeysOf(order), nodes.Keys);
  }

  /** Where a cached node stands in the list. */
  lemma Around(nodes: map<Bytes, LRUNode>, order: seq<LRUNode>, k: Bytes) returns (a: seq<LRUNode>, b: seq<LRUNode>)
    requires Mapped(nodes, order) && Distinct(order) && k in nodes
    ensures order == a + ([nodes[k]] + b)
  {
    var i :| 0 <= i < |order| && order[i] == nodes[k];
    a, b := order[..i], order[i + 1..];
  }

  lemma SplitDistinct<T>(a: seq<T>, n: T, b: seq<T>)
    requires Distinct(a + ([n] + b))
    ensures Distinct(a + b) && n !in a && n !in b
  {
    DistinctConcat(a, [n] + b);
    DistinctConcat([n], b);
    DistinctConcat(a, b);
    assert n in [n] && n in [n] + b;
    assert forall x :: x in b ==> x in [n] + b;
  }

  /** The list without one of its nodes. */
  lemma CutOut(nodes: map<Bytes, LRUNode>, a: seq<LRUNode>, n: LRUNode, b: seq<LRUNode>)
    requires Mapped(nodes, a + ([n] + b)) && Distinct(a + ([n] + b))
    ensures Mapped(nodes - {n.key}, a + b)
    ensures KeysOf(a + b) == Without(KeysOf(a + ([n] + b)), {n.key})
  {
    SplitDistinct(a, n, b);
    var order := a + ([n] + b);
    assert n in [n] && n in [n] + b && n in order;
    assert forall x :: x in order <==> x in a || x == n || x in b;
    assert forall x :: x in a + b <==> x in a || x in b;
    KeysConcat(a, [n] + b);
    KeysConcat([n], b);
    KeysConcat(a, b);
    assert KeysOf([n]) == [n.key];
    forall j | 0 <= j < |a| ensures a[j].key != n.key { assert a[j] in a; }
    forall j | 0 <= j < |b| ensures b[j].key != n.key { assert b[j] in b; }
    WithoutMiddle(KeysOf(a), n.key, KeysOf(b));
  }

  function Gone(cached: set<Bytes>, key: Bytes): set<Bytes> {
    {key} + AtOrBelow(cached - {key}, key) + PrefixesUpTo(key, |Split(key)|)
  }

  lemma {:induction false} SubsetSize<K>(a: set<K>, b: set<K>)
    requires a <= b
    ensures |a| <= |b|
    decreases |a|
  {
    if a != {} {
      var x :| x in a;
      SubsetSize(a - {x}, b - {x});
    }
  }

  lemma Fewer<K, V>(m: map<K, V>, gone: set<K>)
    ensures |m - gone| <= |m|
  {
    var rest := (m - gone).Keys;
    assert rest <= m.Keys;
    SubsetSize(rest, m.Keys);
  }

  /** Evicting a key, then what is below it, then what is above it, evicts what it is related to. */
  lemma InvalidatedKeys(keys: seq<Bytes>, nodes: map<Bytes, LRUNode>, key: Bytes)
    requires forall k :: k in keys <==> k in nodes
    ensures var gone := Gone(nodes.Keys, key);
      && Without(keys, gone) == Without(keys, set k | k in nodes && Related(k, key))
      && nodes - gone == (map k | k in nodes && !Related(k, key) :: nodes[k])
      && |nodes - gone| <= |nodes|
  {
    var gone := Gone(nodes.Keys, key);
    forall k | k in nodes ensures k in gone <==> Related(k, key) { StrictPrefixes(key, k); }
    WithoutSame(keys, gone, set k | k in nodes && Related(k, key));
    Fewer(nodes, gone);
  }

  // --------------------------------------------------------------------------------------
  // The cache
  // --------------------------------------------------------------------------------------

  predicate Expired(expiry: int, now: int) { expiry > 0 && now > expiry }

  const MAX_VALUE_SIZE: nat := 10 * 1024 * 1024

  /** These nodes, between head and tail, form a well-linked list. */
  ghost predicate Strung(head: LRUNode, tail: LRUNode, repr: set<LRUNode>, nodes: seq<LRUNode>)
    reads repr`prev, repr`next
  {
    var c := [head] + nodes + [tail];
    (forall n :: n in c ==> n in repr) && Run(c) && Distinct(c)
  }

  lemma FrontDistinct(h: LRUNode, n: LRUNode, back: seq<LRUNode>)
    requires Distinct([h] + back) && n !in [h] + back
    ensures Distinct([h, n] + back)
  {
    DistinctConcat([h], back);
    DistinctConcat([n], back);
    DistinctConcat([h], [n] + back);
    assert [h, n] + back == [h] + ([n] + back);
    assert h in [h] && h in [h] + back;
    assert forall x :: x in back ==> x in [h] + back;
  }

  lemma MappedFront(nodes: map<Bytes, LRUNode>, node: LRUNode, rest: seq<LRUNode>)
    requires Mapped(nodes - {node.key}, rest) && node.key in nodes && nodes[node.key] == node
    ensures Mapped(nodes, [node] + rest) && KeysOf([node] + rest) == [node.key] + KeysOf(rest)
  {
    assert ([node] + rest)[1..] == rest && node in [node];
    assert forall n :: n in [node] + rest <==> n == node || n in rest;
    forall k | k in nodes ensures nodes[k] in [node] + rest && nodes[k].key == k {
      if k != node.key { assert k in nodes - {node.key}; }
    }
  }

  lemma WithoutLast(keys: seq<Bytes>)
    requires Distinct(keys) && keys != []
    ensures Without(keys, {keys[|keys| - 1]}) == keys[..|keys| - 1]
  {
    var a, k := keys[..|keys| - 1], keys[|keys| - 1];
    assert keys == a + ([k] + []) && a + [] == a;
    forall i | 0 <= i < |a| ensures a[i] != k { assert keys[i] != keys[|keys| - 1]; }
    WithoutMiddle(a, k, []);
  }

  function ExpiryOf(ttl: int, now: int): int {
    if ttl > 0 then now + ttl else -1
  }

  lemma MappedNew(nodes: map<Bytes, LRUNode>, node: LRUNode, rest: seq<LRUNode>)
    requires node.key in nodes && nodes[node.key] == node
    requires forall n :: n in rest ==> n.key != node.key && n.key in nodes && nodes[n.key] == n
    requires forall k :: k in nodes && k != node.key ==> nodes[k] in rest && nodes[k].key == k
    ensures Mapped(nodes, [node] + rest) && KeysOf([node] + rest) == [node.key] + KeysOf(rest)
  {
    MappedFront(nodes, node, rest);
  }

  class LRUCache {
    const max: nat
    const head: LRUNode
    const tail: LRUNode
    const index: CacheIndex
    var nodes: map<Bytes, LRUNode>
    ghost var order: seq<LRUNode>
    ghost var repr: set<LRUNode>

    /** The list is well linked, and the map is onto it. */
    ghost predicate Listed()
      reads this, repr`prev, repr`next
    {
      Strung(head, tail, repr, order) && Mapped(nodes, order)
    }

    /** The prefix index holds, for each prefix, the cached keys at or below it. */
    ghost predicate Grouped()
      reads this, index
    {
      index.Valid() && index.keys == nodes.Keys
    }

    /** List, map and prefix index are in bijection, and the cache is not over its size. */
    ghost predicate Valid()
      reads this, repr`prev, repr`next, index
    {
      Listed() && Grouped() && |nodes| <= max
    }

    /** The cached keys, most recently used first. */
    ghost function Keys(): seq<Bytes>
      reads this
    {
      KeysOf(order)
    }

    constructor (max: nat)
      ensures Valid() && Keys() == [] && nodes == map[] && this.max == max
      ensures fresh(index) && fresh(repr)
    {
      var h := new LRUNode([], Null, -1);
      var t := new LRUNode([], Null, -1);
      var i := new CacheIndex();
      this.max, this.head, this.tail, this.index := max, h, t, i;
      nodes, order, repr := map[], [], {h, t};
      new;
      head.next := tail;
      tail.prev := head;
    }

    lemma OrderDistinct()
      requires Strung(head, tail, repr, order)
      ensures Distinct(order)
    {
      DistinctConcat([head] + order, [tail]);
      DistinctConcat([head], order);
    }

    lemma Cut(a: seq<LRUNode>, n: LRUNode, b: seq<LRUNode>)
      requires Strung(head, tail, repr, a + ([n] + b))
      ensures var x, y := [head] + a, b + [tail];
        && Run(x) && Run(y) && Adjacent(x[|x| - 1], n) && Adjacent(n, y[0])
        && Distinct(x + y) && n !in x + y && x + y == [head] + (a + b) + [tail]
        && n in repr && forall m :: m in x + y ==> m in repr
    {
      var x, y := [head] + a, b + [tail];
      var c := [head] + (a + ([n] + b)) + [tail];
      assert c == x + ([n] + y);
      RunConcat(x, [n] + y);
      RunConcat([n], y);
      SplitDistinct(x, n, y);
      assert n in [n] && n in [n] + y && n in c;
      assert forall m :: m in x + y <==> m in x || m in y;
      assert forall m :: m in c <==> m in x || m == n || m in y;
    }

    /** Take a cached node out of the list. */
    method Unlink(node: LRUNode) returns (ghost rest: seq<LRUNode>)
      requires Listed() && node.key in nodes && nodes[node.key] == node
      modifies repr`prev, repr`next
      ensures Strung(head, tail, repr, rest) && node !in [head] + rest + [tail] && node in repr
      ensures Mapped(nodes - {node.key}, rest) && KeysOf(rest) == Without(Keys(), {node.key})
    {
      OrderDistinct();
      ghost var a, b := Around(nodes, order, node.key);
      CutOut(nodes, a, node, b);
      Cut(a, node, b);
      rest := a + b;
      ghost var x, y := [head] + a, b + [tail];
      assert x[|x| - 1] in x + y && y[0] in y && y[0] in x + y;
      Detach(node, x, y);
    }

    /** Put a node at the front of the list. */
    method Link(node: LRUNode, ghost rest: seq<LRUNode>)
      requires Strung(head, tail, repr, rest) && node !in [head] + rest + [tail] && node in repr
      modifies repr`prev, repr`next
      ensures Strung(head, tail, repr, [node] + rest)
    {
      ghost var back := rest + [tail];
      ghost var c := [head] + rest + [tail];
      assert c == [head] + back && c[0] == head && c[1] == back[0];
      RunConcat([head], back);
      FrontDistinct(head, node, back);
      Attach(head, node, back);
      ghost var c' := [head] + ([node] + rest) + [tail];
      assert c' == [head, node] + back;
      assert forall i :: 2 <= i < |c'| ==> c'[i] == c[i - 1];
    }

    /** Drop a node from the list and the map. */
    method Drop(node: LRUNode)
      requires Listed() && node.key in nodes && nodes[node.key] == node
      modifies this`order, this`nodes, repr`prev, repr`next
      ensures Listed() && nodes == old(nodes) - {node.key}
      ensures Keys() == Without(old(Keys()), {node.key})
    {
      ghost var rest := Unlink(node);
      nodes := nodes - {node.key};
      order := rest;
    }

    method Evict(node: LRUNode)
      requires Listed() && Grouped() && node.key in nodes && nodes[node.key] == node
      modifies this`order, this`nodes, repr`prev, repr`next, index
      ensures Listed() && Grouped() && nodes == old(nodes) - {node.key}
      ensures Keys() == Without(old(Keys()), {node.key})
    {
      Drop(node);
      index.Remove(node.key);
    }

    /** Move a cached node to the front. */
    method Touch(node: LRUNode)
      requires Listed() && node.key in nodes && nodes[node.key] == node
      modifies this`order, repr`prev, repr`next
      ensures Listed() && Keys() == [node.key] + Without(old(Keys()), {node.key})
    {
      ghost var rest := Unlink(node);
      Link(node, rest);
      MappedFront(nodes, node, rest);
      order := [node] + rest;
    }

    /** Look a key up at time `now`: an expired entry is evicted, any other moves to the front.
        No value or expiry changes. */
    method Get(key: Bytes, now: int) returns (r: Option<Json>)
      requires Valid()
      modifies this`order, this`nodes, repr`prev, repr`next, index
      ensures Valid()
      ensures key !in old(nodes) ==> r == None && Keys() == old(Keys()) && nodes == old(nodes)
      ensures key in old(nodes) && Expired(old(nodes[key].expiry), now) ==>
        r == None && Keys() == Without(old(Keys()), {key}) && nodes == old(nodes) - {key}
      ensures key in old(nodes) && !Expired(old(nodes[key].expiry), now) ==>
        r == Some(old(nodes[key].value)) && Keys() == [key] + Without(old(Keys()), {key}) && nodes == old(nodes)
    {
      if key !in nodes {
        return None;
      }
      var node := nodes[key];
      if Expired(node.expiry, now) {
        Evict(node);
        return None;
      }
      Touch(node);
      r := Some(node.value);
    }

    /** Drop the least recently used key of a cache that is one over its size. */
    method EvictLast()
      requires Listed() && Grouped() && |nodes| == max + 1
      modifies this`order, this`nodes, repr`prev, repr`next, index
      ensures Valid() && Keys() == FirstN(old(Keys()), max)
      ensures nodes.Keys < old(nodes).Keys && forall k :: k in nodes ==> nodes[k] == old(nodes)[k]
    {
      Sizes();
      LastNode();
      Evict(tail.prev);
    }

    lemma LastNode()
      requires Listed() && order != []
      ensures var last := order[|order| - 1];
        && tail.prev == last && last.key in nodes && nodes[last.key] == last
        && Without(Keys(), {last.key}) == Keys()[..|order| - 1]
    {
      OrderDistinct();
      MappedKeys(nodes, order);
      WithoutLast(Keys());
      var c := [head] + order + [tail];
      assert Adjacent(c[|order|], c[|order| + 1]);
      assert order[|order| - 1] in order;
    }

    /** Since the cache held `nodes0` in the order `keys0`, the keys in `gone` were evicted. */
    ghost predicate Since(keys0: seq<Bytes>, nodes0: map<Bytes, LRUNode>, gone: set<Bytes>)
      reads this
    {
      nodes == nodes0 - gone && Keys() == Without(keys0, gone)
    }

    method EvictKey(key: Bytes, ghost keys0: seq<Bytes>, ghost nodes0: map<Bytes, LRUNode>, ghost gone: set<Bytes>)
      requires Listed() && Grouped() && Since(keys0, nodes0, gone)
      modifies this`order, this`nodes, repr`prev, repr`next, index
      ensures Listed() && Grouped() && Since(keys0, nodes0, gone + {key})
    {
      WithoutTwice(keys0, gone, {key});
      if key in nodes {
        Evict(nodes[key]);
      } else {
        Absent(key);
      }
    }

    method EvictEach(keys: set<Bytes>, ghost keys0: seq<Bytes>, ghost nodes0: map<Bytes, LRUNode>,
                     ghost gone: set<Bytes>)
      requires Listed() && Grouped() && Since(keys0, nodes0, gone)
      modifies this`order, this`nodes, repr`prev, repr`next, index
      ensures Listed() && Grouped() && Since(keys0, nodes0, gone + keys)
    {
      var todo := Sorted(keys);
      ghost var more := gone;
      for i := 0 to |todo|
        invariant Listed() && Grouped() && Since(keys0, nodes0, more)
        invariant more == gone + set k | k in todo[..i]
      {
        EvictKey(todo[i], keys0, nodes0, more);
        assert todo[..i + 1] == todo[..i] + [todo[i]];
        more := more + {todo[i]};
      }
      assert todo[..|todo|] == todo && more == gone + keys;
    }

    /** Evict the dotted ancestors of a key. */
    method EvictParents(key: Bytes, ghost keys0: seq<Bytes>, ghost nodes0: map<Bytes, LRUNode>, ghost gone: set<Bytes>)
      requires Listed() && Grouped() && Since(keys0, nodes0, gone)
      modifies this`order, this`nodes, repr`prev, repr`next, index
      ensures Listed() && Grouped() && Since(keys0, nodes0, gone + PrefixesUpTo(key, |Split(key)|))
    {
      ghost var more := gone;
      for i := 1 to |Split(key)|
        invariant Listed() && Grouped() && Since(keys0, nodes0, more)
        invariant more == gone + PrefixesUpTo(key, i)
      {
        PrefixesStep(key, i);
        EvictKey(PrefixKey(key, i), keys0, nodes0, more);
        more := more + {PrefixKey(key, i)};
      }
    }

    method EvictRelated(key: Bytes, ghost keys0: seq<Bytes>, ghost nodes0: map<Bytes, LRUNode>)
      requires Listed() && Grouped() && Since(keys0, nodes0, {})
      modifies this`order, this`nodes, repr`prev, repr`next, index
      ensures Listed() && Grouped() && Since(keys0, nodes0, Gone(nodes0.Keys, key))
    {
      EvictKey(key, keys0, nodes0, {});
      assert {} + {key} == {key};
      var affected := index.Get(key);
      EvictEach(affected, keys0, nodes0, {key});
      EvictParents(key, keys0, nodes0, {key} + affected);
    }

    /** Forget a key, everything below it and everything above it; the rest keeps its order. */
    method Invalidate(key: Bytes)
      requires Valid()
      modifies this`order, this`nodes, repr`prev, repr`next, index
      ensures Valid()
      ensures Keys() == Without(old(Keys()), set k | k in old(nodes) && Related(k, key))
      ensures nodes == map k | k in old(nodes) && !Related(k, key) :: old(nodes)[k]
    {
      ghost var keys0, nodes0 := Keys(), nodes;
      Sizes();
      WithoutNone(keys0, {});
      InvalidatedKeys(keys0, nodes0, key);
      EvictRelated(key, keys0, nodes0);
    }

    method Clear()
      requires Valid()
      modifies this`order, this`nodes, head`next, tail`prev, index
      ensures Valid() && Keys() == [] && nodes == map[]
    {
      ghost var c := [head] + order + [tail];
      assert c[0] == head && c[|c| - 1] == tail && head in c && tail in c;
      index.Clear();
      nodes, order := map[], [];
      head.next := tail;
      tail.prev := head;
    }

    /** Cache a value of a given size for `ttl` milliseconds, or for good when that is 0. A value
        that is too large is refused. The key moves to the front; the key at the end goes when
        there are too many. Every other entry keeps its node. */
    method Set(key: Bytes, value: Json, size: nat, ttl: int, now: int) returns (ok: bool)
      requires Valid()
      modifies this`order, this`nodes, this`repr, index, repr`prev, repr`next
      modifies Entry(key)`value, Entry(key)`expiry
      ensures Valid() && fresh(repr - old(repr))
      ensures ok <==> size <= MAX_VALUE_SIZE
      ensures !ok ==> Keys() == old(Keys()) && nodes == old(nodes)
      ensures ok ==> Keys() == FirstN([key] + Without(old(Keys()), {key}), max)
      ensures ok ==> forall k :: k in nodes && k != key ==> k in old(nodes) && nodes[k] == old(nodes)[k]
      ensures ok && key in nodes ==> nodes[key].value == value && nodes[key].expiry == ExpiryOf(ttl, now)
    {
      var expiry := ExpiryOf(ttl, now);
      if size > MAX_VALUE_SIZE {
        return false;
      }
      ok := true;
      if key in nodes {
        Replace(key, value, expiry);
        Sizes();
        return;
      }
      InsertNew(key, value, expiry);
    }

    method InsertNew(key: Bytes, value: Json, expiry: int)
      requires Valid() && key !in nodes
      modifies this`order, this`nodes, this`repr, index, repr`prev, repr`next
      ensures Valid() && fresh(repr - old(repr))
      ensures Keys() == FirstN([key] + Without(old(Keys()), {key}), max)
      ensures forall k :: k in nodes && k != key ==> k in old(nodes) && nodes[k] == old(nodes)[k]
      ensures key in nodes ==> nodes[key].value == value && nodes[key].expiry == expiry
    {
      Absent(key);
      Insert(key, value, expiry);
      Sizes();
      if |nodes| > max {
        EvictLast();
      }
    }

    /** The node of a key, if it is cached. */
    ghost function Entry(key: Bytes): set<LRUNode>
      reads this
    {
      if key in nodes then {nodes[key]} else {}
    }

    lemma Sizes()
      requires Listed()
      ensures |Keys()| == |nodes| && (forall k :: k in Keys() <==> k in nodes)
      ensures |nodes| <= max ==> FirstN(Keys(), max) == Keys()
    {
      OrderDistinct();
      MappedKeys(nodes, order);
    }

    lemma Absent(key: Bytes)
      requires Listed() && key !in nodes
      ensures Without(Keys(), {key}) == Keys()
    {
      OrderDistinct();
      MappedKeys(nodes, order);
      WithoutNone(Keys(), {key});
    }

    method Replace(key: Bytes, value: Json, expiry: int)
      requires Listed() && Grouped() && key in nodes
      modifies this`order, index, repr`prev, repr`next, Entry(key)`value, Entry(key)`expiry
      ensures Listed() && Grouped() && Keys() == [key] + Without(old(Keys()), {key})
      ensures nodes[key].value == value && nodes[key].expiry == expiry
    {
      var node := nodes[key];
      index.Remove(key);
      node.value := value;
      node.expiry := expiry;
      Touch(node);
      index.Add(key);
    }

    method Insert(key: Bytes, value: Json, expiry: int)
      requires Listed() && Grouped() && key !in nodes
      modifies this`order, this`nodes, this`repr, index, repr`prev, repr`next
      ensures Listed() && Grouped() && fresh(repr - old(repr)) && old(repr) <= repr
      ensures Keys() == [key] + old(Keys())
      ensures key in nodes && nodes == old(nodes)[key := nodes[key]]
      ensures nodes[key].value == value && nodes[key].expiry == expiry
    {
      var node := new LRUNode(key, value, expiry);
      PushFront(node);
      index.Add(key);
    }

    method PushFront(node: LRUNode)
      requires Listed() && node !in repr && node.key !in nodes
      modifies this`order, this`nodes, this`repr, repr`prev, repr`next, node`prev, node`next
      ensures Listed() && repr == old(repr) + {node}
      ensures Keys() == [node.key] + old(Keys()) && nodes == old(nodes)[node.key := node]
    {
      repr := repr + {node};
      nodes := nodes[node.key := node];
      MappedNew(nodes, node, order);
      Link(node, order);
      order := [node] + order;
    }
  }
}
