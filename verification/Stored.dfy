/** What the store does to its map when some of its objects are not plain: their text starts like an encrypted
    envelope, or is nested deeper than the parser goes. Such an object is never edited or descended into.
    When that differs from editing it, and when a fold makes leaves unreachable. */
module Stored {
  import opened Bytes
  import opened Paths
  import opened Json
  import opened FieldSplitter
  import opened StoreSpec
  import opened StoreView
  import opened Effects
  import opened JsonSnapshot
  import opened Plain

  /** An object whose text the store does not take for one. */
  predicate Sealed(v: Json) {
    v.Obj? && (IsEnvelope(Print(v)) || Nesting(v) > NESTING_LIMIT)
  }

  /** That is the test on the text, if the parser reads texts back up to its limit. */
  lemma SealedIsNotPlain(v: Json, parse: Bytes -> Option<Json>)
    requires Reads(v, parse)
    ensures v.Obj? && !Sealed(v) <==> IsPlainObject(Print(v), parse)
  {
  }

  /** The entry above `k` is an object the store will not edit. */
  predicate Blocked(m: Tree, k: Bytes) {
    match AncestorFrom(m.Keys, k, 0)
    case None => false
    case Some(i) => Sealed(m[k[..i]])
  }

  /** A set below an object that is not plain replaces it, as it would a scalar. */
  function StoredSet(m: Tree, k: Bytes, v: Json): Tree {
    match AncestorFrom(m.Keys, k, 0)
    case None => Prune(m, k)[k := v]
    case Some(i) =>
      var a := k[..i];
      if m[a].Obj? && !Sealed(m[a]) then Prune(m, a)[a := Obj(InsertAt(m[a].fields, Split(k[i + 1..]), v))]
      else Prune(m - {a}, k)[k := v]
  }

  /** A delete below such an object does nothing. */
  function StoredDelete(m: Tree, k: Bytes): (Tree, bool) {
    if !Occupied(m, k) && Blocked(m, k) then (m, false) else DeleteFn(m, k)
  }

  /** No text a read needs is an envelope or too deep for the parser: neither the entry above the key nor, if
      there is none, the entries below it. */
  predicate Silent(m: Tree, k: Bytes) {
    match AncestorFrom(m.Keys, k, 0)
    case None => exists x :: x in m && Under(k, x) && Nesting(m[x]) > NESTING_LIMIT
    case Some(i) => Sealed(m[k[..i]]) || Nesting(m[k[..i]]) > NESTING_LIMIT
  }

  /** A read that needs such a text finds nothing. */
  function StoredGet(m: Tree, k: Bytes): (Tree, Option<Json>) {
    if k !in m && Silent(m, k) then (m, None) else GetFn(m, k)
  }

  function StoredApply(m: Tree, op: Op): Tree {
    match op
    case Set(k, v) => StoredSet(m, k, v)
    case Del(k) => StoredDelete(m, k).0
    case Clear => map[]
  }

  function StoredAll(m: Tree, ops: seq<Op>): Tree
    decreases |ops|
  {
    if ops == [] then m else StoredAll(StoredApply(m, ops[0]), ops[1..])
  }

  // --------------------------------------------------------------------------------------
  // When it makes no difference
  // --------------------------------------------------------------------------------------

  /** A set edits the map as if every object were plain exactly when the object above its key is. */
  lemma StoredSetExact(m: Tree, k: Bytes, v: Json)
    requires PrefixFree(m.Keys)
    ensures StoredSet(m, k, v) == SetFn(m, k, v) <==> !Blocked(m, k)
  {
    if Blocked(m, k) {
      var a := k[..AncestorFrom(m.Keys, k, 0).value];
      OnlyAncestor(m, a, k);
      assert k in StoredSet(m, k, v) && k !in SetFn(m, k, v);
    }
  }

  /** A delete does so exactly when no such object holds a node it could remove. */
  lemma StoredDeleteExact(m: Tree, k: Bytes)
    requires PrefixFree(m.Keys)
    ensures StoredDelete(m, k) == DeleteFn(m, k) <==>
      !(Blocked(m, k) && RemoveInside(m, k[..AncestorFrom(m.Keys, k, 0).value], k).Some?)
  {
    if Blocked(m, k) { OnlyAncestor(m, k[..AncestorFrom(m.Keys, k, 0).value], k); }
  }

  /** A read does so exactly when no text it needs is unreadable, or it would find nothing anyway. */
  lemma StoredGetExact(m: Tree, k: Bytes)
    ensures StoredGet(m, k) == GetFn(m, k) <==> k in m || !Silent(m, k) || GetFn(m, k).1.None?
  {
  }

  lemma TameOpen(m: Tree, a: Bytes)
    requires Tame(m) && a in m
    ensures !Sealed(m[a]) && Nesting(m[a]) <= NESTING_LIMIT
  {
    if m[a].Obj? && IsEnvelope(Print(m[a])) {
      assert EncFreeFields(m[a].fields);
      EnvelopeField(m[a].fields);
    }
  }

  /** In a store within the limits nothing is blocked or unreadable. */
  lemma TameUnblocked(m: Tree, k: Bytes)
    requires Tame(m)
    ensures !Blocked(m, k) && !Silent(m, k)
  {
    var n := AncestorFrom(m.Keys, k, 0);
    if n.Some? { TameOpen(m, k[..n.value]); }
    forall x | x in m ensures Nesting(m[x]) <= NESTING_LIMIT { TameOpen(m, x); }
  }

  /** Within the limits the store does what it would do if every object were plain, whatever the run. */
  lemma {:induction false} StoredIsApplied(m: Tree, ops: seq<Op>)
    requires Consistent(m) && Tame(m) && forall op :: op in ops ==> OpOk(op) && TameOp(op)
    ensures StoredAll(m, ops) == ApplyAll(m, ops) && Tame(ApplyAll(m, ops))
    decreases |ops|
  {
    if ops != [] {
      var op := ops[0];
      assert op in ops;
      if op.Set? { TameUnblocked(m, op.key); StoredSetExact(m, op.key, op.value); }
      if op.Del? { TameUnblocked(m, op.key); }
      ApplyView(m, op);
      StepTame(m, op);
      StoredIsApplied(Apply(m, op), ops[1..]);
    }
  }

  // --------------------------------------------------------------------------------------
  // What a blocked set does to the leaves
  // --------------------------------------------------------------------------------------

  lemma DroppedEntry(m: Tree, a: Bytes, p: Path)
    requires PrefixFree(m.Keys) && a in m
    ensures View(m - {a}, p) == if Owns(a, p) then None else View(m, p)
  {
    if Owns(a, p) {
      forall x | x in m - {a} ensures !Owns(x, p) { if Owns(x, p) { OwnerUnique(m, a, x, p); } }
      ViewNone(m - {a}, p);
    } else {
      ViewSame(m, m - {a}, p);
    }
  }

  /** A set below a sealed object leaves the value's leaves and nothing else of what the object held. */
  lemma BlockedSetView(m: Tree, k: Bytes, v: Json, p: Path)
    requires Consistent(m) && KeyOk(k) && WellFormed(v) && Blocked(m, k)
    ensures var a := k[..AncestorFrom(m.Keys, k, 0).value];
      View(StoredSet(m, k, v), p) ==
        if Split(k) <= p then LeafAt(v, p[|Split(k)|..]) else if Split(a) <= p then None else View(m, p)
  {
    var a := k[..AncestorFrom(m.Keys, k, 0).value];
    OnlyAncestor(m, a, k);
    FreshConsistent(m - {a}, k, v);
    NoneAbove(m - {a}, k);
    SetFreshView(m - {a}, k, v, p);
    DroppedEntry(m, a, p);
    UnderIsProperPrefix(a, k);
    if p <= Split(k) && !Owns(a, p) {
      ComparablePrefixes(p, Split(a), Split(k));
      AboveEntry(m, a, p);
    }
  }

  // --------------------------------------------------------------------------------------
  // What a reader of the store finds
  // --------------------------------------------------------------------------------------

  /** A sealed object is found as a whole, at its own path. */
  function ShownLeaf(v: Json, q: Path): Option<Json> {
    if !Sealed(v) then LeafAt(v, q) else if q == [] then Some(v) else None
  }

  ghost function Shown(m: Tree, p: Path): Option<Json> {
    if exists k :: k in m && Owns(k, p) then
      var k :| k in m && Owns(k, p);
      ShownLeaf(m[k], p[|Split(k)|..])
    else None
  }

  ghost predicate SameShown(a: Tree, b: Tree) {
    forall p :: Shown(a, p) == Shown(b, p)
  }

  lemma ShownAt(m: Tree, k: Bytes, p: Path)
    requires PrefixFree(m.Keys) && k in m && Owns(k, p)
    ensures Shown(m, p) == ShownLeaf(m[k], p[|Split(k)|..])
    ensures !Sealed(m[k]) ==> Shown(m, p) == View(m, p)
  {
    var j :| j in m && Owns(j, p) && Shown(m, p) == ShownLeaf(m[j], p[|Split(j)|..]);
    OwnerUnique(m, j, k, p);
    ViewAt(m, k, p);
  }

  /** Outside the folded branch the same entries are found. */
  lemma FoldedElsewhere(m: Tree, k: Bytes, v: Json, p: Path)
    requires PrefixFree(m.Keys) && PrefixFree(Prune(m, k)[k := v].Keys) && !(Split(k) <= p)
    ensures Shown(Prune(m, k)[k := v], p) == Shown(m, p)
  {
    var m' := Prune(m, k)[k := v];
    forall x | x in m && Owns(x, p) ensures x in m' && m'[x] == m[x] {
      if Under(k, x) { UnderIsProperPrefix(k, x); }
    }
    if x :| x in m && Owns(x, p) {
      ShownAt(m, x, p);
      ShownAt(m', x, p);
    }
  }

  lemma OpenBelow(m: Tree, k: Bytes, p: Path)
    requires PrefixFree(m.Keys) && k !in m && AncestorFrom(m.Keys, k, 0).None? && Split(k) <= p
    requires forall x :: x in m && Under(k, x) ==> !Sealed(m[x])
    ensures Shown(m, p) == View(m, p)
  {
    if x :| x in m && Owns(x, p) {
      ComparablePrefixes(Split(k), Split(x), p);
      RelatedIffComparable(k, x);
      ShownAt(m, x, p);
    }
  }

  lemma {:induction false} LeafIsNoObject(v: Json, q: Path)
    ensures LeafAt(v, q).Some? ==> !LeafAt(v, q).value.Obj?
    decreases |q|
  {
    if q != [] && v.Obj? && Lookup(v.fields, q[0]).Some? {
      LeafIsNoObject(Lookup(v.fields, q[0]).value, q[1..]);
    }
  }

  lemma FoldHides(m: Tree, k: Bytes, v: Json)
    requires PrefixFree(m.Keys) && PrefixFree(Prune(m, k)[k := v].Keys) && k !in m
    requires AncestorFrom(m.Keys, k, 0).None? && SameShown(Prune(m, k)[k := v], m)
    ensures !Sealed(v) && forall x :: x in m && Under(k, x) ==> !Sealed(m[x])
  {
    var m' := Prune(m, k)[k := v];
    if Sealed(v) {
      var p := Split(k);
      ShownAt(m', k, p);
      assert Shown(m, p) == Shown(m', p) == Some(v);
      var x :| x in m && Owns(x, p);
      RelatedIffComparable(x, k);
      UnderIsProperPrefix(k, x);
      assert false;
    }
    forall x | x in m && Under(k, x) ensures !Sealed(m[x]) {
      var p := Split(x);
      UnderIsProperPrefix(k, x);
      ShownAt(m, x, p);
      ShownAt(m', k, p);
      assert Shown(m', p) == Shown(m, p);
      LeafIsNoObject(v, p[|Split(k)|..]);
    }
  }

  /** A read leaves everything as it is found exactly when it folds nothing, or neither the folded object nor
      an entry it was folded from is sealed. */
  lemma GetShows(m: Tree, k: Bytes)
    requires Consistent(m) && KeyOk(k)
    ensures var m' := StoredGet(m, k).0;
      SameShown(m', m) <==>
        m' == m || (k in m' && !Sealed(m'[k]) && forall x :: x in m && Under(k, x) ==> !Sealed(m[x]))
  {
    var m' := StoredGet(m, k).0;
    if m' != m {
      var v := m'[k];
      GetConsistent(m, k);
      if !Sealed(v) && forall x :: x in m && Under(k, x) ==> !Sealed(m[x]) {
        forall p ensures Shown(m', p) == Shown(m, p) {
          if Split(k) <= p {
            ShownAt(m', k, p);
            GetView(m, k, p);
            OpenBelow(m, k, p);
          } else {
            FoldedElsewhere(m, k, v, p);
          }
        }
      } else if SameShown(m', m) {
        FoldHides(m, k, v);
      }
    }
  }
}
