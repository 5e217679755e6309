/** The flat store: an ordered map and its hash twin, edited in place. */
module FlatStore {
  import opened Bytes
  import opened Paths
  import opened Json
  import opened StoreSpec
  import opened StoreView

  // --------------------------------------------------------------------------------------

  function Rebuild(spine: seq<Fields>, parts: Path, fs: Fields): Fields
    requires |spine| <= |parts|
  {
    if spine == [] then fs
    else InsertField(spine[0], parts[0], Obj(Rebuild(spine[1..], parts[1..], fs)))
  }

  lemma {:induction false} RebuildLast(spine: seq<Fields>, parts: Path, last: Fields, fs: Fields)
    requires |spine| < |parts|
    ensures Rebuild(spine + [last], parts, fs) == Rebuild(spine, parts, InsertField(last, parts[|spine|], Obj(fs)))
    decreases |spine|
  {
    if spine != [] {
      assert (spine + [last])[1..] == spine[1..] + [last];
      RebuildLast(spine[1..], parts[1..], last, fs);
    } else {
      assert (spine + [last])[1..] == [];
    }
  }

  method ClimbBack(spine: seq<Fields>, parts: Path, fs: Fields) returns (root: Fields)
    requires |spine| <= |parts|
    ensures root == Rebuild(spine, parts, fs)
  {
    root := fs;
    var j := |spine|;
    assert spine[..j] == spine;
    while j > 0
      invariant 0 <= j <= |spine|
      invariant Rebuild(spine[..j], parts, root) == Rebuild(spine, parts, fs)
    {
      j := j - 1;
      assert spine[..j + 1] == spine[..j] + [spine[j]];
      RebuildLast(spine[..j], parts, spine[j], root);
      root := InsertField(spine[j], parts[j], Obj(root));
    }
  }

  /** Write below an object: step through the parts, replacing every non-object by an object. */
  method InsertInto(root: Fields, parts: Path, value: Json) returns (r: Fields)
    requires |parts| >= 1
    ensures r == InsertAt(root, parts, value)
  {
    var cur, spine := root, [];
    var i := 0;
    while i < |parts| - 1
      invariant 0 <= i == |spine| < |parts|
      invariant InsertAt(root, parts, value) == Rebuild(spine, parts, InsertAt(cur, parts[i..], value))
    {
      var child := Lookup(cur, parts[i]);
      var next := if child.Some? && child.value.Obj? then child.value.fields else NoField;
      assert parts[i..][1..] == parts[i + 1..];
      RebuildLast(spine, parts, cur, InsertAt(next, parts[i + 1..], value));
      spine, cur, i := spine + [cur], next, i + 1;
    }
    if !value.NotJson? {
      cur := InsertField(cur, parts[i], value);
    }
    r := ClimbBack(spine, parts, cur);
  }

  /** Remove a node below an object; `None` when the walk leaves the objects or finds nothing. */
  method RemoveFrom(root: Fields, parts: Path) returns (r: Option<Fields>)
    requires |parts| >= 1
    ensures r == RemoveAt(root, parts)
  {
    var cur, spine := root, [];
    var i := 0;
    while i < |parts| - 1
      invariant 0 <= i == |spine| < |parts|
      invariant RemoveAt(root, parts).None? <==> RemoveAt(cur, parts[i..]).None?
      invariant RemoveAt(cur, parts[i..]).Some? ==>
        RemoveAt(root, parts).value == Rebuild(spine, parts, RemoveAt(cur, parts[i..]).value)
    {
      var child := Lookup(cur, parts[i]);
      if !(child.Some? && child.value.Obj?) {
        return None;
      }
      assert parts[i..][1..] == parts[i + 1..];
      var next := child.value.fields;
      if RemoveAt(next, parts[i + 1..]).Some? {
        RebuildLast(spine, parts, cur, RemoveAt(next, parts[i + 1..]).value);
      }
      spine, cur, i := spine + [cur], next, i + 1;
    }
    if Lookup(cur, parts[i]).None? {
      return None;
    }
    var root' := ClimbBack(spine, parts, SwapRemove(cur, parts[i]));
    r := Some(root');
  }

  // --------------------------------------------------------------------------------------
  // The store
  // --------------------------------------------------------------------------------------

  function InsertEach(m: Tree, keys: seq<Bytes>, part: Tree): Tree
    requires forall k :: k in keys ==> k in part
    decreases |keys|
  {
    if keys == [] then m
    else assert keys[0] in keys; InsertEach(m[keys[0] := part[keys[0]]], keys[1..], part)
  }

  lemma {:induction false} InsertEachIs(m: Tree, keys: seq<Bytes>, part: Tree)
    requires forall k :: k in keys ==> k in part
    ensures InsertEach(m, keys, part) == m + map k | k in keys :: part[k]
    decreases |keys|
  {
    if keys != [] {
      assert keys[0] in keys;
      InsertEachIs(m[keys[0] := part[keys[0]]], keys[1..], part);
      assert forall k :: k in keys <==> k == keys[0] || k in keys[1..];
    }
  }

  lemma InsertEachMeans(m: Tree, keys: seq<Bytes>, part: Tree)
    requires forall k :: k in keys <==> k in part
    ensures InsertEach(m, keys, part) == m + part
  {
    InsertEachIs(m, keys, part);
    assert (map k | k in keys :: part[k]) == part;
  }

  lemma DescendantsGone(m: Tree, key: Bytes, below: seq<Bytes>)
    requires forall x :: x in below <==> x in m && x != key && Under(key, x)
    ensures m - {key} - (set k | k in below) == Prune(m, key)
  {
  }

  lemma SetMeaning(m: Tree, k: Bytes, v: Json)
    ensures Consistent(m) && KeyOk(k) && WellFormed(v) ==>
      Consistent(SetFn(m, k, v)) && forall p :: View(SetFn(m, k, v), p) == Write(Split(k), v, p, View(m, p))
  {
    if Consistent(m) && KeyOk(k) && WellFormed(v) {
      SetConsistent(m, k, v);
      forall p { SetView(m, k, v, p); }
    }
  }

  lemma GetMeaning(m: Tree, k: Bytes)
    ensures Consistent(m) && KeyOk(k) ==>
      Consistent(GetFn(m, k).0) && forall p :: View(GetFn(m, k).0, p) == View(m, p)
  {
    if Consistent(m) && KeyOk(k) {
      GetConsistent(m, k);
      forall p { GetView(m, k, p); }
    }
  }

  lemma DeleteMeaning(m: Tree, k: Bytes)
    ensures Consistent(m) ==>
      Consistent(DeleteFn(m, k).0) && forall p :: View(DeleteFn(m, k).0, p) == Kill(Split(k), p, View(m, p))
  {
    if Consistent(m) {
      DeleteConsistent(m, k);
      forall p { DeleteView(m, k, p); }
    }
  }

  class Store {
    var tree: Tree
    var hash: Tree

    /** The twins agree, and keys are UTF-8. */
    ghost predicate Synced()
      reads this
    {
      hash == tree && forall k :: k in tree ==> IsText(k)
    }

    constructor ()
      ensures Synced() && tree == map[] && Consistent(tree)
    {
      tree, hash := map[], map[];
    }

    method RawInsert(key: Bytes, value: Json)
      requires Synced() && IsText(key)
      modifies this
      ensures Synced() && tree == old(tree)[key := value]
    {
      tree := tree[key := value];
      hash := hash[key := value];
    }

    /** Raw insertion of every entry of a loaded snapshot, in key order. */
    method RawInsertAll(part: Tree)
      requires Synced() && forall k :: k in part ==> IsText(k)
      modifies this
      ensures Synced() && tree == old(tree) + part
    {
      var keys := Sorted(part.Keys);
      var i := 0;
      assert keys[0..] == keys;
      InsertEachMeans(tree, keys, part);
      while i < |keys|
        invariant 0 <= i <= |keys|
        invariant Synced()
        invariant InsertEach(tree, keys[i..], part) == old(tree) + part
      {
        assert keys[i] in keys && keys[i..][1..] == keys[i + 1..];
        RawInsert(keys[i], part[keys[i]]);
        i := i + 1;
      }
    }

    method RemoveEntry(key: Bytes) returns (removed: bool)
      requires Synced()
      modifies this
      ensures Synced() && tree == old(tree) - {key}
      ensures removed == (key in old(tree))
    {
      removed := key in tree;
      tree := tree - {key};
      hash := hash - {key};
    }

    method AncestorLeaf(key: Bytes) returns (r: Option<nat>)
      ensures r == AncestorFrom(hash.Keys, key, 0)
    {
      for i := 0 to |key|
        invariant AncestorFrom(hash.Keys, key, 0) == AncestorFrom(hash.Keys, key, i)
      {
        if key[i] == DOT && key[..i] in hash {
          return Some(i);
        }
      }
      return None;
    }

    method RemoveWithDescendants(key: Bytes) returns (exact: bool, any: bool)
      requires Synced()
      modifies this
      ensures Synced() && tree == Prune(old(tree), key)
      ensures exact == (key in old(tree))
      ensures any == Occupied(old(tree), key)
    {
      exact := RemoveEntry(key);
      any := exact;
      var doomed := DescendantKeys(tree.Keys, key);
      RangeIsBelow(tree.Keys, key);
      RemoveEach(doomed);
      any := any || doomed != [];
      assert doomed != [] ==> doomed[0] in doomed;
      DescendantsGone(old(tree), key, doomed);
    }

    method RemoveEach(keys: seq<Bytes>)
      requires Synced()
      modifies this
      ensures Synced() && tree == old(tree) - set k | k in keys
    {
      ghost var gone: set<Bytes> := {};
      for i := 0 to |keys|
        invariant Synced()
        invariant gone == set k | k in keys[..i]
        invariant tree == old(tree) - gone
      {
        assert keys[..i + 1] == keys[..i] + [keys[i]];
        var _ := RemoveEntry(keys[i]);
        gone := gone + {keys[i]};
      }
      assert keys[..|keys|] == keys;
    }

    /** Write through an object leaf: the document at the ancestor is edited and stored back. */
    method MutateObjectLeaf(alen: nat, key: Bytes, value: Json)
      requires Synced()
      requires alen < |key| && Under(key[..alen], key) && key[..alen] in tree && tree[key[..alen]].Obj?
      modifies this
      ensures Synced()
      ensures var a := key[..alen];
        tree == Prune(old(tree), a)[a := Obj(InsertAt(old(tree)[a].fields, Split(key[alen + 1..]), value))]
    {
      var a := key[..alen];
      var root := InsertInto(tree[a].fields, Split(key[alen + 1..]), value);
      var _, _ := RemoveWithDescendants(a);
      RawInsert(a, Obj(root));
    }

    method Set(key: Bytes, value: Json)
      requires Synced() && IsText(key)
      modifies this
      ensures Synced() && tree == SetFn(old(tree), key, value)
      ensures old(Consistent(tree)) && KeyOk(key) && WellFormed(value) ==>
        Consistent(tree) && forall p :: View(tree, p) == Write(Split(key), value, p, old(View(tree, p)))
    {
      ghost var m := tree;
      SetMeaning(m, key, value);
      var found := AncestorLeaf(key);
      if found.Some? {
        var alen := found.value;
        if tree[key[..alen]].Obj? {
          MutateObjectLeaf(alen, key, value);
          return;
        }
        var _ := RemoveEntry(key[..alen]);
      }
      var _, _ := RemoveWithDescendants(key);
      RawInsert(key, value);
    }

    method Get(key: Bytes) returns (r: Option<Json>)
      requires Synced() && IsText(key)
      modifies this
      ensures Synced() && (tree, r) == GetFn(old(tree), key)
      ensures old(Consistent(tree)) && KeyOk(key) ==>
        Consistent(tree) && forall p :: View(tree, p) == old(View(tree, p))
    {
      ghost var m := tree;
      GetMeaning(m, key);
      if key in hash {
        return Some(hash[key]);
      }
      var found := AncestorLeaf(key);
      if found.Some? {
        var alen := found.value;
        var node := tree[key[..alen]];
        if node.NotJson? {
          return None;
        }
        var parts := Split(key[alen + 1..]);
        for i := 0 to |parts|
          invariant Descend(tree[key[..alen]], parts) == Descend(node, parts[i..])
        {
          assert parts[i..][1..] == parts[i + 1..];
          match node {
            case Obj(fs) =>
              var child := Lookup(fs, parts[i]);
              if child.None? { return None; }
              node := child.value;
            case Arr(items) =>
              var index := ParseIndex(parts[i]);
              if index.None? { return None; }
              var child := Nth(items, index.value);
              if child.None? { return None; }
              node := child.value;
            case _ => return None;
          }
        }
        return Some(node);
      }
      r := Resolve(tree, key);
      if r.Some? {
        var _, _ := RemoveWithDescendants(key);
        RawInsert(key, r.value);
      }
    }

    /** `exact`: the key itself was an entry; `any`: something was removed. */
    method Delete(key: Bytes) returns (exact: bool, any: bool)
      requires Synced()
      modifies this
      ensures Synced() && (tree, any) == DeleteFn(old(tree), key)
      ensures exact == (key in old(tree))
      ensures old(Consistent(tree)) ==>
        Consistent(tree) && forall p :: View(tree, p) == Kill(Split(key), p, old(View(tree, p)))
    {
      ghost var m := tree;
      DeleteMeaning(m, key);
      exact, any := RemoveWithDescendants(key);
      if any {
        return;
      }
      assert Prune(m, key) == m;
      var found := AncestorLeaf(key);
      if found.Some? {
        var alen := found.value;
        var a := key[..alen];
        if !tree[a].Obj? {
          return;
        }
        var edited := RemoveFrom(tree[a].fields, Split(key[alen + 1..]));
        if edited.Some? {
          RawInsert(a, Obj(edited.value));
          any := true;
        }
      }
    }

    method Clear()
      modifies this
      ensures Synced() && tree == map[] && Consistent(tree)
      ensures forall p :: View(tree, p).None?
    {
      tree, hash := map[], map[];
    }
  }
}
