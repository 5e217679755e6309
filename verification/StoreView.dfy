/** The flat store refines the leaf view: every operation changes the leaf at each path by a
    rule that looks only at the operation and the path. */
module StoreView {
  import opened Bytes
  import opened Paths
  import opened Json
  import opened StoreSpec

  // --------------------------------------------------------------------------------------
  // Pruning
  // --------------------------------------------------------------------------------------

  lemma UnderTransitive(a: Bytes, b: Bytes, c: Bytes)
    requires Under(a, b) && Under(b, c)
    ensures Under(a, c)
  {
    assert c[..|a|] == b[..|a|];
  }

  lemma NoAncestorWhenOccupied(m: Tree, k: Bytes)
    requires PrefixFree(m.Keys)
    requires Occupied(m, k) || AncestorFrom(m.Keys, k, 0).None?
    ensures forall a :: a in m ==> !Under(a, k)
  {
    forall a | a in m ensures !Under(a, k) {
      if k !in m && Under(a, k) && Occupied(m, k) {
        var x :| x in m && Under(k, x);
        UnderTransitive(a, k, x);
      }
    }
  }

  lemma PruneView(m: Tree, k: Bytes, p: Path)
    requires PrefixFree(m.Keys)
    requires Occupied(m, k) || AncestorFrom(m.Keys, k, 0).None?
    ensures View(Prune(m, k), p) == Kill(Split(k), p, View(m, p))
  {
    if Split(k) <= p {
      forall x | x in Prune(m, k) ensures !Owns(x, p) {
        if Owns(x, p) {
          NoAncestorWhenOccupied(m, k);
          ComparablePrefixes(Split(x), Split(k), p);
          RelatedIffComparable(x, k);
        }
      }
      ViewNone(Prune(m, k), p);
    } else {
      forall x | x in m && Owns(x, p) ensures x in Prune(m, k) {
        UnderIsProperPrefix(k, x);
        assert Split(k) <= Split(x) ==> Split(k) <= p;
      }
      ViewSame(m, Prune(m, k), p);
    }
  }

  /** Two dotted ancestors of one key are comparable. */
  lemma AncestorsComparable(a: Bytes, b: Bytes, k: Bytes)
    requires Under(a, k) && Under(b, k)
    ensures Related(a, b)
  {
    UnderIsProperPrefix(a, k);
    UnderIsProperPrefix(b, k);
    ComparablePrefixes(Split(a), Split(b), Split(k));
    RelatedIffComparable(a, b);
  }

  /** Inserting a key that is comparable to no remaining key keeps the map prefix-free. */
  lemma InsertPrefixFree(m: Tree, k: Bytes, v: Json)
    requires PrefixFree(m.Keys)
    requires forall x :: x in m ==> !Under(x, k) && !Under(k, x)
    ensures PrefixFree(m[k := v].Keys)
  {
  }

  lemma InsertView(m: Tree, k: Bytes, v: Json, p: Path)
    requires PrefixFree(m.Keys) && PrefixFree(m[k := v].Keys)
    ensures View(m[k := v], p) == if Split(k) <= p then LeafAt(v, p[|Split(k)|..]) else View(m, p)
  {
    if Owns(k, p) {
      ViewAt(m[k := v], k, p);
    } else {
      ViewSame(m, m[k := v], p);
    }
  }

  lemma ViewBelow(m: Tree, a: Bytes, q: Path)
    requires PrefixFree(m.Keys) && a in m
    ensures View(m, Split(a) + q) == LeafAt(m[a], q)
  {
    ViewAt(m, a, Split(a) + q);
    assert (Split(a) + q)[|Split(a)|..] == q;
  }

  // --------------------------------------------------------------------------------------
  // set
  // --------------------------------------------------------------------------------------

  lemma FreshConsistent(m: Tree, k: Bytes, v: Json)
    requires Consistent(m) && KeyOk(k) && WellFormed(v) && forall x :: x in m ==> !Under(x, k)
    ensures Consistent(Prune(m, k)[k := v])
  {
    InsertPrefixFree(Prune(m, k), k, v);
  }

  /** A stored key has nothing below it, so rewriting it keeps every other entry. */
  lemma ReplaceEntry(m: Tree, a: Bytes, v: Json)
    requires Consistent(m) && a in m && WellFormed(v)
    ensures Prune(m, a)[a := v] == m[a := v]
    ensures Consistent(m[a := v])
  {
    assert m[a := v].Keys == m.Keys;
  }

  /** In a prefix-free map a key has at most one dotted ancestor, and then nothing below it. */
  lemma OnlyAncestor(m: Tree, a: Bytes, k: Bytes)
    requires PrefixFree(m.Keys) && a in m && Under(a, k)
    ensures forall x :: x in m && x != a ==> !Under(x, k)
    ensures !Occupied(m, k)
  {
    forall x | x in m && x != a ensures !Under(x, k) {
      if Under(x, k) { AncestorsComparable(a, x, k); }
    }
    forall x | x in m ensures !Under(k, x) {
      if Under(k, x) { UnderTransitive(a, k, x); }
    }
  }

  lemma SetConsistent(m: Tree, k: Bytes, v: Json)
    requires Consistent(m) && KeyOk(k) && WellFormed(v)
    ensures Consistent(SetFn(m, k, v))
  {
    match AncestorFrom(m.Keys, k, 0)
    case None =>
      FreshConsistent(m, k, v);
    case Some(i) =>
      var a := k[..i];
      if m[a].Obj? {
        InsertAtWellFormed(m[a].fields, Split(k[i + 1..]), v);
        ReplaceEntry(m, a, Obj(InsertAt(m[a].fields, Split(k[i + 1..]), v)));
      } else {
        OnlyAncestor(m, a, k);
        FreshConsistent(m - {a}, k, v);
      }
  }

  /** With no stored ancestor of `k`, no leaf sits at a strict ancestor path of `k`. */
  lemma AboveUnowned(m: Tree, k: Bytes, p: Path)
    requires PrefixFree(m.Keys) && (forall a :: a in m ==> !Under(a, k))
    requires p <= Split(k) && p != Split(k)
    ensures View(m, p).None?
  {
    forall x | x in m ensures !Owns(x, p) {
      UnderIsProperPrefix(x, k);
    }
    ViewNone(m, p);
  }

  /** A write with no stored ancestor. */
  lemma SetFreshView(m: Tree, k: Bytes, v: Json, p: Path)
    requires PrefixFree(m.Keys) && PrefixFree(Prune(m, k)[k := v].Keys)
    requires AncestorFrom(m.Keys, k, 0).None?
    ensures View(Prune(m, k)[k := v], p) == Write(Split(k), v, p, View(m, p))
  {
    InsertView(Prune(m, k), k, v, p);
    PruneView(m, k, p);
    if p <= Split(k) && p != Split(k) { AboveUnowned(m, k, p); }
  }

  /** No leaf sits at a strict ancestor path of a stored key. */
  lemma AboveEntry(m: Tree, a: Bytes, p: Path)
    requires PrefixFree(m.Keys) && a in m && p <= Split(a) && p != Split(a)
    ensures View(m, p).None?
  {
    forall x | x in m ensures !Owns(x, p) {
      UnderIsProperPrefix(x, a);
    }
    ViewNone(m, p);
  }

  /** Away from an entry, nothing below it overlaps the path. */
  lemma OutsideEntry(m: Tree, a: Bytes, k: Bytes, p: Path)
    requires PrefixFree(m.Keys) && a in m && Under(a, k) && !Owns(a, p)
    ensures !(Split(k) <= p)
    ensures p <= Split(k) ==> View(m, p).None?
  {
    UnderSplits(a, k);
    assert Split(k) <= p ==> Split(a) <= p;
    if p <= Split(k) {
      ComparablePrefixes(p, Split(a), Split(k));
      AboveEntry(m, a, p);
    }
  }

  /** A write that lands inside an object leaf. */
  lemma SetInsideView(m: Tree, a: Bytes, k: Bytes, v: Json, p: Path)
    requires PrefixFree(m.Keys) && a in m && Under(a, k) && m[a].Obj? && !v.NotJson?
    ensures var w := Obj(InsertAt(m[a].fields, Split(k[|a| + 1..]), v));
      && Prune(m, a)[a := w] == m[a := w]
      && View(m[a := w], p) == Write(Split(k), v, p, View(m, p))
  {
    var r := Split(k[|a| + 1..]);
    var w := Obj(InsertAt(m[a].fields, r, v));
    UnderSplits(a, k);
    assert m[a := w].Keys == m.Keys;
    if Owns(a, p) {
      var q := p[|Split(a)|..];
      assert p == Split(a) + q;
      ViewBelow(m, a, q);
      ViewBelow(m[a := w], a, q);
      InsertAtLeaf(m[a].fields, r, v, q);
      RulesShift(Split(a), r, v, q, View(m, p));
    } else {
      InsertView(m, a, w, p);
      OutsideEntry(m, a, k, p);
    }
  }

  lemma NoneAbove(m: Tree, k: Bytes)
    requires forall a :: a in m ==> !Under(a, k)
    ensures AncestorFrom(m.Keys, k, 0).None?
  {
  }

  /** A write below a scalar or array leaf, which becomes a branch. */
  lemma SetOverScalarView(m: Tree, a: Bytes, k: Bytes, v: Json, p: Path)
    requires PrefixFree(m.Keys) && a in m && Under(a, k) && !m[a].Obj?
    requires PrefixFree(Prune(m - {a}, k)[k := v].Keys)
    ensures View(Prune(m - {a}, k)[k := v], p) == Write(Split(k), v, p, View(m, p))
  {
    var m1 := m - {a};
    UnderSplits(a, k);
    OnlyAncestor(m, a, k);
    NoneAbove(m1, k);
    SetFreshView(m1, k, v, p);
    if Owns(a, p) {
      ViewAt(m, a, p);
      forall x | x in m1 ensures !Owns(x, p) { if Owns(x, p) { OwnerUnique(m, a, x, p); } }
      ViewNone(m1, p);
    } else {
      ViewSame(m, m1, p);
    }
  }

  /** `set` writes the leaves of the value at its key and kills exactly what overlaps it. */
  lemma SetView(m: Tree, k: Bytes, v: Json, p: Path)
    requires Consistent(m) && KeyOk(k) && WellFormed(v)
    ensures View(SetFn(m, k, v), p) == Write(Split(k), v, p, View(m, p))
  {
    SetConsistent(m, k, v);
    match AncestorFrom(m.Keys, k, 0)
    case None =>
      SetFreshView(m, k, v, p);
    case Some(i) =>
      if m[k[..i]].Obj? {
        SetInsideView(m, k[..i], k, v, p);
      } else {
        SetOverScalarView(m, k[..i], k, v, p);
      }
  }

  // --------------------------------------------------------------------------------------
  // delete
  // --------------------------------------------------------------------------------------

  lemma DeleteConsistent(m: Tree, k: Bytes)
    requires Consistent(m)
    ensures Consistent(DeleteFn(m, k).0)
  {
    if !Occupied(m, k) {
      match AncestorFrom(m.Keys, k, 0)
      case None =>
      case Some(i) =>
        var a := k[..i];
        if m[a].Obj? && RemoveAt(m[a].fields, Split(k[i + 1..])).Some? {
          RemoveAtWellFormed(m[a].fields, Split(k[i + 1..]));
          ReplaceEntry(m, a, Obj(RemoveAt(m[a].fields, Split(k[i + 1..])).value));
        }
    }
  }

  lemma UnoccupiedView(m: Tree, k: Bytes, p: Path)
    requires PrefixFree(m.Keys) && !Occupied(m, k) && AncestorFrom(m.Keys, k, 0).None?
    ensures Kill(Split(k), p, View(m, p)) == View(m, p)
  {
    PruneView(m, k, p);
    assert Prune(m, k) == m;
  }

  /** The document `v` that a removal below path `r` leaves behind has lost exactly the leaves there. */
  lemma RemovedLeaf(was: Json, v: Json, r: Path, q: Path)
    requires |r| >= 1 && WellFormed(was)
    requires v == if was.Obj? && RemoveAt(was.fields, r).Some? then Obj(RemoveAt(was.fields, r).value) else was
    ensures LeafAt(v, q) == Kill(r, q, LeafAt(was, q))
  {
    if was.Obj? { RemoveAtLeaf(was.fields, r, q); }
  }

  /** A removal inside an entry, seen at a path the entry owns. */
  lemma EntryRemovedView(m: Tree, a: Bytes, v: Json, r: Path, p: Path)
    requires PrefixFree(m.Keys) && a in m && Owns(a, p)
    requires var q := p[|Split(a)|..]; LeafAt(v, q) == Kill(r, q, LeafAt(m[a], q))
    ensures View(m[a := v], p) == Kill(Split(a) + r, p, View(m, p))
  {
    var q := p[|Split(a)|..];
    assert p == Split(a) + q && m[a := v].Keys == m.Keys;
    ViewBelow(m, a, q);
    ViewBelow(m[a := v], a, q);
    RulesShift(Split(a), r, Null, q, View(m, p));
  }

  lemma DeleteInsideView(m: Tree, a: Bytes, k: Bytes, p: Path)
    requires Consistent(m) && a in m && Under(a, k)
    ensures var edit := RemoveInside(m, a, k);
      View(if edit.Some? then edit.value else m, p) == Kill(Split(k), p, View(m, p))
  {
    var edit := RemoveInside(m, a, k);
    var v := if edit.Some? then edit.value[a] else m[a];
    assert (if edit.Some? then edit.value else m) == m[a := v] && m[a := v].Keys == m.Keys;
    UnderSplits(a, k);
    if Owns(a, p) {
      RemovedLeaf(m[a], v, Split(k[|a| + 1..]), p[|Split(a)|..]);
      EntryRemovedView(m, a, v, Split(k[|a| + 1..]), p);
    } else {
      InsertView(m, a, v, p);
      OutsideEntry(m, a, k, p);
    }
  }

  /** `delete` kills every leaf at or below its key, and a reported failure changed nothing. */
  lemma DeleteView(m: Tree, k: Bytes, p: Path)
    requires Consistent(m)
    ensures View(DeleteFn(m, k).0, p) == Kill(Split(k), p, View(m, p))
    ensures !DeleteFn(m, k).1 ==> DeleteFn(m, k).0 == m
  {
    if Occupied(m, k) {
      PruneView(m, k, p);
    } else {
      match AncestorFrom(m.Keys, k, 0)
      case None =>
        UnoccupiedView(m, k, p);
      case Some(i) =>
        DeleteInsideView(m, k[..i], k, p);
    }
  }

  // --------------------------------------------------------------------------------------
  // get
  // --------------------------------------------------------------------------------------

  lemma {:induction false} ResolveFields(m: Tree, path: Bytes, segs: seq<Bytes>, done: Fields, bound: nat, n: Bytes)
    requires forall x :: x in m ==> |x| <= bound
    requires forall s :: s in segs ==> |path| + 1 + |s| <= bound
    requires forall k :: k in m ==> WellFormed(m[k])
    requires forall s :: s in segs ==> ResolveNode(m, path + [DOT] + s, bound).Some?
    ensures var r := ResolveChildren(m, path, segs, done, bound);
      && r.Some?
      && Lookup(r.value, n) ==
        if n in segs then ResolveNode(m, path + [DOT] + n, bound) else Lookup(done, n)
    decreases |segs|
  {
    if segs != [] {
      assert segs[0] in segs;
      var v := ResolveNode(m, path + [DOT] + segs[0], bound).value;
      LookupInsert(done, segs[0], v, n);
      ResolveFields(m, path, segs[1..], InsertField(done, segs[0], v), bound, n);
      assert n in segs <==> n == segs[0] || n in segs[1..];
    }
  }

  lemma {:induction false} ResolveFieldsWellFormed(m: Tree, path: Bytes, segs: seq<Bytes>, done: Fields, bound: nat)
    requires forall x :: x in m ==> |x| <= bound
    requires forall s :: s in segs ==> |path| + 1 + |s| <= bound
    requires forall s :: s in segs ==>
      var v := ResolveNode(m, path + [DOT] + s, bound); v.Some? && WellFormed(v.value)
    requires WellFormedFields(done)
    ensures var r := ResolveChildren(m, path, segs, done, bound); r.Some? && WellFormedFields(r.value)
    decreases |segs|
  {
    if segs != [] {
      assert segs[0] in segs;
      var v := ResolveNode(m, path + [DOT] + segs[0], bound).value;
      WellFormedInsert(done, segs[0], v);
      ResolveFieldsWellFormed(m, path, segs[1..], InsertField(done, segs[0], v), bound);
    }
  }

  lemma RangeIsBelow(keys: set<Bytes>, path: Bytes)
    requires forall x :: x in keys ==> IsText(x)
    ensures forall x :: x in DescendantKeys(keys, path) <==> x in keys && Under(path, x)
  {
    forall x | x in keys ensures InRange(x, path + [DOT], path + [DOT, 0xFF]) <==> Under(path, x) {
      InRangeBelow(path, x);
    }
  }

  /** First segment of `x` below `path`. */
  function SegmentBelow(path: Bytes, x: Bytes): Bytes
    requires Under(path, x)
  {
    SegmentAt(x, |path| + 1)
  }

  /** The segments found in the byte range are the first segments of the keys below `path`. */
  lemma ChildrenOf(m: Tree, path: Bytes) returns (segs: seq<Bytes>)
    requires Consistent(m)
    ensures forall x :: x in DescendantKeys(m.Keys, path) ==> |path| + 1 <= |x|
    ensures segs == ChildSegments(DescendantKeys(m.Keys, path), |path| + 1, None)
    ensures forall s :: s in segs ==> exists x :: x in m && Under(path, x) && SegmentBelow(path, x) == s
    ensures forall x :: x in m && Under(path, x) ==> SegmentBelow(path, x) in segs
  {
    var keys := DescendantKeys(m.Keys, path);
    RangeIsBelow(m.Keys, path);
    segs := ChildSegments(keys, |path| + 1, None);
    ChildSegmentsOf(keys, |path| + 1, None);
    forall s | s in segs ensures exists x :: x in m && Under(path, x) && SegmentBelow(path, x) == s {
      var x :| x in keys && s == SegmentAt(x, |path| + 1);
      assert x in m && Under(path, x) && SegmentBelow(path, x) == s;
    }
    forall x | x in m && Under(path, x) ensures SegmentBelow(path, x) in segs {
      assert x in keys;
    }
  }

  lemma SegmentIsChild(path: Bytes, x: Bytes)
    requires Under(path, x)
    ensures var c := path + [DOT] + SegmentBelow(path, x);
      && DotFree(SegmentBelow(path, x)) && SegmentBelow(path, x) == Split(x[|path| + 1..])[0]
      && (x == c || Under(c, x)) && Under(path, c)
  {
    var r := x[|path| + 1..];
    var c := path + [DOT] + SegmentBelow(path, x);
    assert x == path + [DOT] + r;
    assert r[..|r|] == r;
    SegmentLengthStops(r);
    if SegmentLength(r) == |r| {
      assert x == c;
    } else {
      assert x[..|c|] == c && x[|c|] == r[SegmentLength(r)];
    }
    assert c[..|path|] == path;
  }

  lemma SplitInjectiveOn(a: Bytes, c: Bytes, path: Bytes)
    requires Under(a, c) && |Split(c)| == |Split(path)| + 1 && Split(path) <= Split(c)
    ensures a == path || Under(a, path)
  {
    UnderIsProperPrefix(a, c);
    if |Split(a)| == |Split(c)| {
      SplitInjective(a, c);
    }
    ComparablePrefixes(Split(a), Split(path), Split(c));
    UnderIsProperPrefix(a, path);
  }

  lemma ChildResolves(m: Tree, path: Bytes, s: Bytes)
    requires DotFree(s) && path !in m && (forall a :: a in m ==> !Under(a, path))
    ensures forall a :: a in m ==> !Under(a, path + [DOT] + s)
  {
    var c := path + [DOT] + s;
    SplitDot(path, s);
    SplitDotFree(s);
    forall a | a in m ensures !Under(a, c) {
      UnderIsProperPrefix(a, c);
      RelatedIffComparable(a, path);
      UnderIsProperPrefix(path, a);
      if Under(a, c) {
        assert Split(c) == Split(path) + [s];
        SplitInjectiveOn(a, c, path);
      }
    }
  }

  lemma BranchHasNoLeaf(m: Tree, path: Bytes, q: Path)
    requires PrefixFree(m.Keys) && path !in m && (forall a :: a in m ==> !Under(a, path))
    requires q == [] || forall x :: x in m && Under(path, x) ==> SegmentBelow(path, x) != q[0]
    ensures View(m, Split(path) + q).None?
  {
    forall x | x in m ensures !Owns(x, Split(path) + q) {
      if Owns(x, Split(path) + q) {
        ComparablePrefixes(Split(x), Split(path), Split(path) + q);
        RelatedIffComparable(x, path);
        UnderIsProperPrefix(path, x);
        SegmentIsChild(path, x);
        PrefixShift(Split(path), Split(x[|path| + 1..]), q);
      }
    }
    ViewNone(m, Split(path) + q);
  }

  /** Rebuilding succeeds exactly when something is stored at or below the path. */
  lemma {:induction false} ResolveSucceeds(m: Tree, path: Bytes, bound: nat)
    requires Consistent(m) && (forall x :: x in m ==> |x| <= bound)
    ensures var r := ResolveNode(m, path, bound);
      (r.Some? <==> Occupied(m, path)) && (r.Some? ==> WellFormed(r.value))
    decreases if |path| <= bound then bound - |path| else 0
  {
    if path !in m {
      var segs := ChildrenOf(m, path);
      forall s | s in segs ensures
        var v := ResolveNode(m, path + [DOT] + s, bound); v.Some? && WellFormed(v.value)
      {
        var x :| x in m && Under(path, x) && SegmentBelow(path, x) == s;
        SegmentIsChild(path, x);
        ResolveSucceeds(m, path + [DOT] + s, bound);
      }
      if segs != [] {
        assert segs[0] in segs;
        forall s | s in segs ensures |path| + 1 + |s| <= bound {
          var x :| x in m && Under(path, x) && SegmentBelow(path, x) == s;
          SegmentIsChild(path, x);
        }
        ResolveFieldsWellFormed(m, path, segs, NoField, bound);
      }
    }
  }

  /** The fields of a rebuilt branch are its rebuilt children. */
  lemma ResolvedFields(m: Tree, path: Bytes, segs: seq<Bytes>, bound: nat, q: Path)
    requires Consistent(m) && (forall x :: x in m ==> |x| <= bound)
    requires path !in m && Occupied(m, path)
    requires forall x :: x in DescendantKeys(m.Keys, path) ==> |path| + 1 <= |x|
    requires segs == ChildSegments(DescendantKeys(m.Keys, path), |path| + 1, None)
    requires forall s :: s in segs ==> exists x :: x in m && Under(path, x) && SegmentBelow(path, x) == s
    ensures var r := ResolveNode(m, path, bound);
      && r.Some? && r.value.Obj?
      && (q != [] ==>
        Lookup(r.value.fields, q[0]) == if q[0] in segs then ResolveNode(m, path + [DOT] + q[0], bound) else None)
  {
    ResolveSucceeds(m, path, bound);
    if q != [] {
      forall s | s in segs ensures ResolveNode(m, path + [DOT] + s, bound).Some? && |path| + 1 + |s| <= bound {
        var x :| x in m && Under(path, x) && SegmentBelow(path, x) == s;
        SegmentIsChild(path, x);
        ResolveSucceeds(m, path + [DOT] + s, bound);
      }
      ResolveFields(m, path, segs, NoField, bound, q[0]);
    }
  }

  lemma ChildView(m: Tree, path: Bytes, q: Path)
    requires q != [] && DotFree(q[0])
    ensures View(m, Split(path + [DOT] + q[0]) + q[1..]) == View(m, Split(path) + q)
  {
    SplitDot(path, q[0]);
    SplitDotFree(q[0]);
    assert Split(path + [DOT] + q[0]) + q[1..] == Split(path) + q;
  }

  /** The rebuilt branch has exactly the leaves the store shows below the path. */
  lemma {:induction false} ResolveLeaves(m: Tree, path: Bytes, bound: nat, q: Path)
    requires Consistent(m) && (forall x :: x in m ==> |x| <= bound)
    requires forall a :: a in m ==> !Under(a, path)
    ensures var r := ResolveNode(m, path, bound);
      (if r.Some? then LeafAt(r.value, q) else None) == View(m, Split(path) + q)
    decreases |q|
  {
    if path in m {
      ResolveSucceeds(m, path, bound);
      ViewBelow(m, path, q);
    } else if !Occupied(m, path) {
      ResolveSucceeds(m, path, bound);
      BranchHasNoLeaf(m, path, q);
    } else {
      var segs := ChildrenOf(m, path);
      ResolvedFields(m, path, segs, bound, q);
      if q == [] || q[0] !in segs {
        BranchHasNoLeaf(m, path, q);
      } else {
        var x :| x in m && Under(path, x) && SegmentBelow(path, x) == q[0];
        SegmentIsChild(path, x);
        ChildResolves(m, path, q[0]);
        ResolveLeaves(m, path + [DOT] + q[0], bound, q[1..]);
        ChildView(m, path, q);
      }
    }
  }

  lemma GetConsistent(m: Tree, k: Bytes)
    requires Consistent(m) && KeyOk(k)
    ensures Consistent(GetFn(m, k).0)
  {
    if k !in m && AncestorFrom(m.Keys, k, 0).None? {
      ResolveSucceeds(m, k, Longest(Sorted(m.Keys)));
      if Occupied(m, k) {
        InsertPrefixFree(Prune(m, k), k, Resolve(m, k).value);
      }
    }
  }

  lemma ReplaceSubtreeElsewhere(m: Tree, k: Bytes, v: Json, p: Path)
    requires PrefixFree(m.Keys) && PrefixFree(Prune(m, k)[k := v].Keys)
    requires AncestorFrom(m.Keys, k, 0).None? && !(Split(k) <= p)
    ensures View(Prune(m, k)[k := v], p) == View(m, p)
  {
    PruneView(m, k, p);
    InsertView(Prune(m, k), k, v, p);
  }

  lemma CollapseView(m: Tree, k: Bytes, v: Json, p: Path)
    requires PrefixFree(m.Keys) && PrefixFree(Prune(m, k)[k := v].Keys)
    requires AncestorFrom(m.Keys, k, 0).None?
    requires forall q :: LeafAt(v, q) == View(m, Split(k) + q)
    ensures View(Prune(m, k)[k := v], p) == View(m, p)
  {
    if Split(k) <= p {
      var q := p[|Split(k)|..];
      assert p == Split(k) + q;
      ViewBelow(Prune(m, k)[k := v], k, q);
      assert LeafAt(v, q) == View(m, Split(k) + q);
    } else {
      ReplaceSubtreeElsewhere(m, k, v, p);
    }
  }

  /** A read may fold a branch into one entry, and never changes a leaf. */
  lemma GetView(m: Tree, k: Bytes, p: Path)
    requires Consistent(m) && KeyOk(k)
    ensures View(GetFn(m, k).0, p) == View(m, p)
  {
    if k !in m && AncestorFrom(m.Keys, k, 0).None? && Resolve(m, k).Some? {
      var v := Resolve(m, k).value;
      GetConsistent(m, k);
      forall q ensures LeafAt(v, q) == View(m, Split(k) + q) {
        ResolveLeaves(m, k, Longest(Sorted(m.Keys)), q);
      }
      CollapseView(m, k, v, p);
    }
  }

  lemma GetInside(m: Tree, a: Bytes, k: Bytes, q: Path)
    requires Consistent(m) && a in m && Under(a, k)
    requires forall i {:trigger Split(k)[..i]} :: 0 <= i < |Split(k)| ==> View(m, Split(k)[..i]).None?
    ensures var r := Descend(m[a], Split(k[|a| + 1..]));
      View(m, Split(k) + q) == if r.Some? then LeafAt(r.value, q) else None
  {
    var s := Split(k[|a| + 1..]);
    UnderIsProperPrefix(a, k);
    forall i {:trigger s[..i]} | 0 <= i < |s| ensures LeafAt(m[a], s[..i]).None? {
      assert Split(k)[..|Split(a)| + i] == Split(a) + s[..i];
      ViewBelow(m, a, s[..i]);
    }
    DescendLeaves(m[a], s, q);
    assert Split(k) + q == Split(a) + (s + q);
    ViewBelow(m, a, s + q);
  }

  /** What `get` returns is the subtree of the view at the key: same leaves below it, and when
      nothing is returned there is no leaf there. The one exception is a key below a scalar or
      array leaf, where the read indexes into the leaf. */
  lemma GetReturnsSubtree(m: Tree, k: Bytes, q: Path)
    requires Consistent(m) && KeyOk(k)
    requires forall i {:trigger Split(k)[..i]} :: 0 <= i < |Split(k)| ==> View(m, Split(k)[..i]).None?
    ensures var r := GetFn(m, k).1;
      View(m, Split(k) + q) == if r.Some? then LeafAt(r.value, q) else None
  {
    if k in m {
      ViewBelow(m, k, q);
    } else {
      match AncestorFrom(m.Keys, k, 0)
      case Some(i) =>
        GetInside(m, k[..i], k, q);
      case None =>
        ResolveLeaves(m, k, Longest(Sorted(m.Keys)), q);
    }
  }

  lemma TailOfTake(a: Path, s: Path, i: nat)
    requires |a| <= i <= |a| + |s|
    ensures (a + s)[..i][|a|..] == s[..i - |a|] && (a + s)[i..] == s[i - |a|..]
  {
  }

  /** The segments of a key beyond those of an ancestor, cut at position `i` of the key. */
  lemma TailOfKey(a: Bytes, k: Bytes, i: nat)
    requires Under(a, k) && |Split(a)| <= i <= |Split(k)|
    ensures var s, j := Split(k[|a| + 1..]), i - |Split(a)|;
      j <= |s| && Split(k)[..i][|Split(a)|..] == s[..j] && Split(k)[i..] == s[j..]
  {
    UnderSplits(a, k);
    TailOfTake(Split(a), Split(k[|a| + 1..]), i);
  }

  lemma AncestorIs(m: Tree, a: Bytes, k: Bytes)
    requires a in m && k !in m && Under(a, k) && forall x :: x in m && x != a ==> !Under(x, k)
    ensures var n := AncestorFrom(m.Keys, k, 0); n.Some? && k[..n.value] == a && n.value == |a|
  {
  }

  /** A read below a stored key descends into its document. */
  lemma GetUnder(m: Tree, a: Bytes, k: Bytes)
    requires Consistent(m) && a in m && Under(a, k)
    ensures GetFn(m, k) == (m, Descend(m[a], Split(k[|a| + 1..])))
  {
    OnlyAncestor(m, a, k);
    AncestorIs(m, a, k);
    assert WellFormed(m[a]);
  }

  /** The same, when reading on from a leaf gives what reading the document gives. */
  lemma GetThroughLeaf(m: Tree, a: Bytes, k: Bytes, leaf: Json, rest: Path)
    requires Consistent(m) && a in m && Under(a, k)
    requires Descend(m[a], Split(k[|a| + 1..])) == Descend(leaf, rest)
    ensures GetFn(m, k) == (m, Descend(leaf, rest))
  {
    GetUnder(m, a, k);
  }

  lemma OwnerOf(m: Tree, p: Path) returns (a: Bytes)
    requires View(m, p).Some?
    ensures a in m && Split(a) <= p && View(m, p) == LeafAt(m[a], p[|Split(a)|..])
  {
    a :| a in m && Owns(a, p) && View(m, p) == LeafAt(m[a], p[|Split(a)|..]);
  }

  lemma OwnerIsUnder(a: Bytes, k: Bytes, i: nat)
    requires i < |Split(k)| && Split(a) <= Split(k)[..i]
    ensures Under(a, k) && |Split(a)| <= i
  {
    assert Split(a) <= Split(k);
    PrefixIsUnder(a, k);
  }

  lemma LeafAbove(m: Tree, k: Bytes, i: nat) returns (a: Bytes, leaf: Json, rest: Path)
    requires i < |Split(k)| && View(m, Split(k)[..i]).Some?
    ensures a in m && Under(a, k) && leaf == View(m, Split(k)[..i]).value && rest == Split(k)[i..]
    ensures Descend(m[a], Split(k[|a| + 1..])) == Descend(leaf, rest)
  {
    a := OwnerOf(m, Split(k)[..i]);
    OwnerIsUnder(a, k, i);
    TailOfKey(a, k, i);
    var s, j := Split(k[|a| + 1..]), i - |Split(a)|;
    leaf, rest := View(m, Split(k)[..i]).value, Split(k)[i..];
    DescendThroughLeaf(m[a], s, j);
  }

  /** Below a stored scalar or array, a read indexes into that leaf. */
  lemma GetBelowLeaf(m: Tree, k: Bytes, i: nat)
    requires Consistent(m) && KeyOk(k)
    requires i < |Split(k)| && View(m, Split(k)[..i]).Some?
    ensures GetFn(m, k) == (m, Descend(View(m, Split(k)[..i]).value, Split(k)[i..]))
  {
    var a, leaf, rest := LeafAbove(m, k, i);
    GetThroughLeaf(m, a, k, leaf, rest);
  }

  lemma UnownedPresence(m: Tree, k: Bytes)
    requires Consistent(m) && AncestorFrom(m.Keys, k, 0).None?
    ensures DeleteFn(m, k).1 <==> Occupied(m, k)
    ensures GetFn(m, k).1.Some? <==> Occupied(m, k)
  {
    ResolveSucceeds(m, k, Longest(Sorted(m.Keys)));
  }

  lemma PresenceInside(m: Tree, a: Bytes, k: Bytes)
    requires Consistent(m) && a in m && Under(a, k)
    requires forall i {:trigger Split(k)[..i]} :: 0 <= i < |Split(k)| ==> View(m, Split(k)[..i]).None?
    ensures m[a].Obj?
    ensures RemoveAt(m[a].fields, Split(k[|a| + 1..])).Some? <==> Descend(m[a], Split(k[|a| + 1..])).Some?
  {
    var s := Split(k[|a| + 1..]);
    UnderSplits(a, k);
    forall i {:trigger s[..i]} | 0 <= i < |s| ensures LeafAt(m[a], s[..i]).None? {
      assert Split(k)[..|Split(a)| + i] == Split(a) + s[..i];
      ViewBelow(m, a, s[..i]);
    }
    assert s[..0] == [] && LeafAt(m[a], s[..0]).None?;
    RemoveIffReadable(m[a].fields, s);
  }

  lemma OwnedPresence(m: Tree, k: Bytes, i: nat)
    requires AncestorFrom(m.Keys, k, 0) == Some(i) && !Occupied(m, k) && m[k[..i]].Obj?
    ensures DeleteFn(m, k).1 <==> RemoveAt(m[k[..i]].fields, Split(k[i + 1..])).Some?
    ensures GetFn(m, k).1 == Descend(m[k[..i]], Split(k[i + 1..]))
  {
  }

  /** A delete reports success exactly when a read would have found something, provided no
      scalar or array lies above the key. */
  lemma DeleteReportsPresence(m: Tree, k: Bytes)
    requires Consistent(m) && KeyOk(k)
    requires forall i {:trigger Split(k)[..i]} :: 0 <= i < |Split(k)| ==> View(m, Split(k)[..i]).None?
    ensures DeleteFn(m, k).1 <==> GetFn(m, k).1.Some?
  {
    var n := AncestorFrom(m.Keys, k, 0);
    if n.None? {
      UnownedPresence(m, k);
    } else {
      OnlyAncestor(m, k[..n.value], k);
      PresenceInside(m, k[..n.value], k);
      OwnedPresence(m, k, n.value);
    }
  }

  lemma GetWellFormed(m: Tree, k: Bytes)
    requires Consistent(m)
    ensures GetFn(m, k).1.Some? ==> WellFormed(GetFn(m, k).1.value)
    ensures GetFn(m, k).0.Keys <= m.Keys + {k}
  {
    if k !in m {
      var n := AncestorFrom(m.Keys, k, 0);
      if n.Some? {
        DescendWellFormed(m[k[..n.value]], Split(k[n.value + 1..]));
      } else {
        ResolveSucceeds(m, k, Longest(Sorted(m.Keys)));
      }
    }
  }
}
