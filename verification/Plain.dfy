/** Which stores hold only plain documents: texts that the parser reads back and that do not look like an
    encrypted envelope. The store treats an object as a branch only if its text is plain; on these stores,
    and after any run of operations that keep to the limits, every stored object is. */
module Plain {
  import opened Bytes
  import opened Paths
  import opened Json
  import opened JsonText
  import opened FieldSplitter
  import opened StoreSpec
  import opened StoreView
  import opened Effects
  import opened JsonSnapshot

  // --------------------------------------------------------------------------------------
  // Texts
  // --------------------------------------------------------------------------------------

  /** The test made before an object is descended into or edited. */
  predicate IsPlainObject(text: Bytes, parse: Bytes -> Option<Json>) {
    (match parse(text) case Some(Obj(_)) => true case _ => false) && !IsEnvelope(text)
  }

  /** No object reached through objects has a field named `__enc`. */
  predicate EncFree(v: Json) { v.Obj? ==> EncFreeFields(v.fields) }

  predicate EncFreeFields(fs: Fields) {
    fs.Field? ==> fs.name != ENC && EncFree(fs.value) && EncFreeFields(fs.rest)
  }

  lemma EnvelopeOpens()
    ensures ENVELOPE == [OPEN_BRACE] + (Quote(ENC) + [COLON, 0x31])
  {
    EscapePlain(ENC);
  }

  /** What follows the name of the first field. */
  function FieldTail(fs: Fields): Bytes
    requires fs.Field?
  {
    ([COLON] + Print(fs.value)) + ((if fs.rest.NoField? then [] else [COMMA] + PrintFields(fs.rest)) + [CLOSE_BRACE])
  }

  lemma QuotedField(fs: Fields)
    requires fs.Field?
    ensures PrintFields(fs) + [CLOSE_BRACE] == Quote(fs.name) + FieldTail(fs)
  {
    var q, v := Quote(fs.name), [COLON] + Print(fs.value);
    var rest := if fs.rest.NoField? then [] else [COMMA] + PrintFields(fs.rest);
    Assoc(q + v, rest, [CLOSE_BRACE]);
    Assoc(q, v, rest + [CLOSE_BRACE]);
    Assoc(q, v, rest);
  }

  /** A quoted string that reads like one without escapes is that string. */
  lemma {:induction false} PlainQuoted(s: Bytes, e: Bytes, post: Bytes, rest: Bytes)
    requires Escape(s) + ([QUOTE] + post) == e + ([QUOTE] + rest)
    requires forall i :: 0 <= i < |e| ==> EscapeByte(e[i]) == [e[i]]
    ensures s == e
    decreases |e|
  {
    var b := e + ([QUOTE] + rest);
    assert b[0] == if e == [] then QUOTE else e[0];
    assert s == [] ==> (Escape(s) + ([QUOTE] + post))[0] == QUOTE;
    if s != [] {
      var x := EscapeByte(s[0]);
      EscapedByteScans(s[0], []);
      Assoc(x, Escape(s[1..]), [QUOTE] + post);
      assert b[0] == x[0];
      assert e != [] && x == [s[0]] && s[0] == e[0];
      assert (Escape(s) + ([QUOTE] + post))[1..] == Escape(s[1..]) + ([QUOTE] + post);
      assert b[1..] == e[1..] + ([QUOTE] + rest);
      PlainQuoted(s[1..], e[1..], post, rest);
    }
  }

  lemma EnvelopeName(name: Bytes, tail: Bytes, b: Bytes)
    requires b == Quote(name) + tail && Quote(ENC) <= b
    ensures name == ENC
  {
    var rest := b[|Quote(ENC)|..];
    EscapePlain(ENC);
    QuoteOpens(name, tail);
    QuoteOpens(ENC, rest);
    assert b == Quote(ENC) + rest;
    assert b[1..] == Escape(name) + ([QUOTE] + tail) && b[1..] == ENC + ([QUOTE] + rest);
    PlainQuoted(name, ENC, tail, rest);
  }

  /** A printed object that looks like an envelope starts with a field named `__enc`. */
  lemma EnvelopeField(fs: Fields)
    requires IsEnvelope(Print(Obj(fs)))
    ensures fs.Field? && fs.name == ENC
  {
    EnvelopeOpens();
    var text := Print(Obj(fs));
    assert text[1..] == PrintFields(fs) + [CLOSE_BRACE];
    assert text[1] == ENVELOPE[1] == QUOTE;
    QuotedField(fs);
    EnvelopeName(fs.name, FieldTail(fs), text[1..]);
  }

  // --------------------------------------------------------------------------------------
  // Limits on values
  // --------------------------------------------------------------------------------------

  /** No `__enc` field, and at most `n` levels. */
  predicate Fits(v: Json, n: int) { EncFree(v) && Nesting(v) <= n }

  ghost predicate FitsFields(fs: Fields, n: int) {
    forall name :: Lookup(fs, name).Some? ==> name != ENC && Fits(Lookup(fs, name).value, n)
  }

  lemma {:induction false} FieldsFit(fs: Fields, n: nat)
    requires WellFormedFields(fs)
    ensures EncFreeFields(fs) && NestingFields(fs) <= n <==> FitsFields(fs, n)
  {
    if fs.Field? {
      FieldsFit(fs.rest, n);
      assert Lookup(fs, fs.name) == Some(fs.value);
      forall name | Lookup(fs.rest, name).Some? ensures Lookup(fs, name) == Lookup(fs.rest, name) { }
      forall name | Lookup(fs, name).Some? && name != fs.name ensures Lookup(fs.rest, name) == Lookup(fs, name) { }
    }
  }

  lemma ObjectFits(fs: Fields, n: int)
    requires WellFormedFields(fs)
    ensures Fits(Obj(fs), n) <==> n >= 1 && FitsFields(fs, n - 1)
  {
    if n >= 1 { FieldsFit(fs, n - 1); }
  }

  lemma InsertFits(fs: Fields, name: Bytes, v: Json, n: int)
    requires FitsFields(fs, n) && name != ENC && Fits(v, n)
    ensures FitsFields(InsertField(fs, name, v), n)
  {
    forall x ensures Lookup(InsertField(fs, name, v), x) == if x == name then Some(v) else Lookup(fs, x) {
      LookupInsert(fs, name, v, x);
    }
  }

  lemma ChildFits(fs: Fields, name: Bytes, n: int)
    requires WellFormedFields(fs) && FitsFields(fs, n - 1) && n >= 2
    ensures WellFormedFields(ChildFields(fs, name)) && Fits(Obj(ChildFields(fs, name)), n - 1)
  {
    if Lookup(fs, name).Some? { WellFormedLookup(fs, name); }
  }

  lemma {:induction false} InsertAtFits(fs: Fields, q: Path, x: Json, n: int)
    requires |q| >= 1 && WellFormedFields(fs) && WellFormed(x) && ENC !in q
    requires Fits(Obj(fs), n) && Fits(x, n - |q|)
    ensures Fits(Obj(InsertAt(fs, q, x)), n)
    decreases |q|
  {
    ObjectFits(fs, n);
    InsertAtWellFormed(fs, q, x);
    if |q| == 1 {
      InsertFits(fs, q[0], x, n - 1);
    } else {
      var child := ChildFields(fs, q[0]);
      ChildFits(fs, q[0], n);
      InsertAtFits(child, q[1..], x, n - 1);
      InsertFits(fs, q[0], Obj(InsertAt(child, q[1..], x)), n - 1);
    }
    ObjectFits(InsertAt(fs, q, x), n);
  }

  lemma {:induction false} RemoveAtFits(fs: Fields, q: Path, n: int)
    requires |q| >= 1 && WellFormedFields(fs) && Fits(Obj(fs), n) && RemoveAt(fs, q).Some?
    ensures Fits(Obj(RemoveAt(fs, q).value), n)
    decreases |q|
  {
    ObjectFits(fs, n);
    RemoveAtWellFormed(fs, q);
    var c := Lookup(fs, q[0]).value;
    if |q| == 1 {
      forall x ensures Lookup(SwapRemove(fs, q[0]), x) == if x == q[0] then None else Lookup(fs, x) {
        LookupRemove(fs, q[0], x);
      }
    } else {
      WellFormedLookup(fs, q[0]);
      RemoveAtFits(c.fields, q[1..], n - 1);
      InsertFits(fs, q[0], Obj(RemoveAt(c.fields, q[1..]).value), n - 1);
    }
    ObjectFits(RemoveAt(fs, q).value, n);
  }

  // --------------------------------------------------------------------------------------
  // Limits on stores
  // --------------------------------------------------------------------------------------

  /** A value under a key: no segment is `__enc`, and segments and levels together stay within what the
      parser accepts. */
  predicate FitsAt(k: Bytes, v: Json) { ENC !in Split(k) && Fits(v, NESTING_LIMIT - |Split(k)|) }

  ghost predicate Tame(m: Tree) {
    forall k :: k in m ==> FitsAt(k, m[k])
  }

  predicate TameOp(op: Op) { op.Set? ==> FitsAt(op.key, op.value) }

  lemma SetTame(m: Tree, k: Bytes, v: Json)
    requires Consistent(m) && Tame(m) && WellFormed(v) && FitsAt(k, v)
    ensures Tame(SetFn(m, k, v))
  {
    var n := AncestorFrom(m.Keys, k, 0);
    if n.Some? && m[k[..n.value]].Obj? {
      var a := k[..n.value];
      UnderSplits(a, k);
      InsertAtFits(m[a].fields, Split(k[|a| + 1..]), v, NESTING_LIMIT - |Split(a)|);
    }
  }

  lemma DeleteTame(m: Tree, k: Bytes)
    requires Consistent(m) && Tame(m)
    ensures Tame(DeleteFn(m, k).0)
  {
    var n := AncestorFrom(m.Keys, k, 0);
    if !Occupied(m, k) && n.Some? && RemoveInside(m, k[..n.value], k).Some? {
      var a := k[..n.value];
      RemoveAtFits(m[a].fields, Split(k[|a| + 1..]), NESTING_LIMIT - |Split(a)|);
    }
  }

  lemma ChildSplits(path: Bytes, s: Bytes)
    requires DotFree(s)
    ensures Split(path + [DOT] + s) == Split(path) + [s]
  {
    SplitDot(path, s);
    SplitDotFree(s);
  }

  lemma ChildTame(m: Tree, path: Bytes, segs: seq<Bytes>, s: Bytes, bound: nat)
    requires Consistent(m) && (forall x :: x in m ==> |x| <= bound) && s in segs
    requires forall s :: s in segs ==> exists x :: x in m && Under(path, x) && SegmentBelow(path, x) == s
    ensures DotFree(s) && |path| + 1 + |s| <= bound && ResolveNode(m, path + [DOT] + s, bound).Some?
  {
    var x :| x in m && Under(path, x) && SegmentBelow(path, x) == s;
    SegmentIsChild(path, x);
    ResolveSucceeds(m, path + [DOT] + s, bound);
  }

  /** The rebuilt child `s` of `path` is within the limits. */
  ghost predicate ChildWithin(m: Tree, path: Bytes, s: Bytes, bound: nat)
    requires forall x :: x in m ==> |x| <= bound
  {
    var r := ResolveNode(m, path + [DOT] + s, bound);
    r.Some? && FitsAt(path + [DOT] + s, r.value)
  }

  /** A branch whose rebuilt children are within the limits is within them. */
  lemma BranchTame(m: Tree, path: Bytes, segs: seq<Bytes>, bound: nat)
    requires Consistent(m) && (forall x :: x in m ==> |x| <= bound) && path !in m
    requires ResolveNode(m, path, bound).Some?
    requires forall x :: x in DescendantKeys(m.Keys, path) ==> |path| + 1 <= |x|
    requires segs == ChildSegments(DescendantKeys(m.Keys, path), |path| + 1, None)
    requires forall s :: s in segs ==> exists x :: x in m && Under(path, x) && SegmentBelow(path, x) == s
    requires forall s :: s in segs ==> DotFree(s) && ChildWithin(m, path, s, bound)
    ensures FitsAt(path, ResolveNode(m, path, bound).value)
  {
    ResolveSucceeds(m, path, bound);
    ResolvedFields(m, path, segs, bound, []);
    var n, fs := NESTING_LIMIT - |Split(path)|, ResolveNode(m, path, bound).value.fields;
    forall name | Lookup(fs, name).Some? ensures name != ENC && Fits(Lookup(fs, name).value, n - 1) {
      ResolvedFields(m, path, segs, bound, [name]);
      assert name in segs && ChildWithin(m, path, name, bound);
      ChildSplits(path, name);
    }
    assert segs != [] && segs[0] in segs;
    ChildSplits(path, segs[0]);
    assert ChildWithin(m, path, segs[0], bound);
    ObjectFits(fs, n);
  }

  lemma {:induction false} ResolveTame(m: Tree, path: Bytes, bound: nat)
    requires Consistent(m) && Tame(m) && (forall x :: x in m ==> |x| <= bound)
    requires ResolveNode(m, path, bound).Some?
    ensures FitsAt(path, ResolveNode(m, path, bound).value)
    decreases if |path| <= bound then bound - |path| else 0
  {
    if path !in m {
      var segs := ChildrenOf(m, path);
      forall s | s in segs ensures DotFree(s) && ChildWithin(m, path, s, bound) {
        ChildTame(m, path, segs, s, bound);
        ResolveTame(m, path + [DOT] + s, bound);
      }
      BranchTame(m, path, segs, bound);
    }
  }

  lemma GetTame(m: Tree, k: Bytes)
    requires Consistent(m) && Tame(m) && KeyOk(k)
    ensures Tame(GetFn(m, k).0)
  {
    if k !in m && AncestorFrom(m.Keys, k, 0).None? && Resolve(m, k).Some? {
      ResolveTame(m, k, Longest(Sorted(m.Keys)));
    }
  }

  lemma StepTame(m: Tree, op: Op)
    requires Consistent(m) && Tame(m) && OpOk(op) && TameOp(op)
    ensures Tame(Apply(m, op))
  {
    match op
    case Set(k, v) => SetTame(m, k, v);
    case Del(k) => DeleteTame(m, k);
    case Clear =>
  }

  lemma {:induction false} ReplayTame(m: Tree, ops: seq<Op>)
    requires Consistent(m) && Tame(m) && forall op :: op in ops ==> OpOk(op) && TameOp(op)
    ensures Tame(ApplyAll(m, ops))
    decreases |ops|
  {
    if ops != [] {
      assert ops[0] in ops;
      ApplyView(m, ops[0]);
      StepTame(m, ops[0]);
      ReplayTame(Apply(m, ops[0]), ops[1..]);
    }
  }

  /** The parser reads a stored text back unless it is nested too deep. */
  ghost predicate Reads(v: Json, parse: Bytes -> Option<Json>) {
    parse(Print(v)) == if Nesting(v) <= NESTING_LIMIT then Some(v) else None
  }

  lemma OnlyObjectsOpen(v: Json)
    requires Printable(v) && Print(v) != [] && Print(v)[0] == OPEN_BRACE
    ensures v.Obj?
  {
  }

  /** In such a store an entry is taken for an object exactly when it is one, and none is taken for an
      envelope. */
  lemma TameIsPlain(m: Tree, k: Bytes, parse: Bytes -> Option<Json>)
    requires Tame(m) && k in m && Printable(m[k]) && Reads(m[k], parse)
    ensures IsPlainObject(Print(m[k]), parse) <==> m[k].Obj?
    ensures !IsEnvelope(Print(m[k]))
  {
    assert Nesting(m[k]) <= NESTING_LIMIT && parse(Print(m[k])) == Some(m[k]);
    if IsEnvelope(Print(m[k])) {
      assert Print(m[k])[0] == ENVELOPE[0] == OPEN_BRACE;
      OnlyObjectsOpen(m[k]);
      assert EncFreeFields(m[k].fields);
      EnvelopeField(m[k].fields);
    }
  }

  /** After any run of operations within the limits, every stored object is plain. */
  lemma RunIsPlain(ops: seq<Op>, k: Bytes, parse: Bytes -> Option<Json>)
    requires forall op :: op in ops ==> OpOk(op) && TameOp(op)
    requires k in ApplyAll(map[], ops) && Printable(ApplyAll(map[], ops)[k]) && Reads(ApplyAll(map[], ops)[k], parse)
    ensures IsPlainObject(Print(ApplyAll(map[], ops)[k]), parse) <==> ApplyAll(map[], ops)[k].Obj?
  {
    ReplayTame(map[], ops);
    TameIsPlain(ApplyAll(map[], ops), k, parse);
  }

  lemma EnvelopeText(rest: Fields)
    ensures IsEnvelope(Print(Obj(Field(ENC, ONE, rest))))
  {
    EnvelopeOpens();
    var more := if rest.NoField? then [] else [COMMA] + PrintFields(rest);
    var head := Quote(ENC) + ([COLON] + [0x31]);
    assert Print(ONE) == [0x31] && [COLON] + [0x31] == [COLON, 0x31];
    assert Print(Obj(Field(ENC, ONE, rest))) == [OPEN_BRACE] + ((head + more) + [CLOSE_BRACE]);
    Assoc([OPEN_BRACE], head + more, [CLOSE_BRACE]);
    Assoc([OPEN_BRACE], head, more);
  }

  /** Outside the limits it is not: an object whose first field is `__enc` with the value 1 is never edited
      or descended into, whatever else it holds. */
  lemma EnvelopeIsOpaque(rest: Fields, parse: Bytes -> Option<Json>)
    ensures !IsPlainObject(Print(Obj(Field(ENC, ONE, rest))), parse)
  {
    EnvelopeText(rest);
  }
}
