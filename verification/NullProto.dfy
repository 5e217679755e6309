/** What the fallback stores of a value: a copy without the fields named `__proto__`, `constructor` or
    `prototype`, and when that copy has the same leaves. */
module NullProto {
  import opened Bytes
  import opened Paths
  import opened Json

  /** "__proto__" */
  const PROTO: Bytes := [0x5F, 0x5F, 0x70, 0x72, 0x6F, 0x74, 0x6F, 0x5F, 0x5F]
  /** "constructor" */
  const CONSTRUCTOR: Bytes := [0x63, 0x6F, 0x6E, 0x73, 0x74, 0x72, 0x75, 0x63, 0x74, 0x6F, 0x72]
  /** "prototype" */
  const PROTOTYPE: Bytes := [0x70, 0x72, 0x6F, 0x74, 0x6F, 0x74, 0x79, 0x70, 0x65]

  predicate Forbidden(n: Bytes) { n == PROTO || n == CONSTRUCTOR || n == PROTOTYPE }

  /** The value without its forbidden fields, at every depth and inside arrays. */
  function Clean(v: Json): Json {
    match v
    case Arr(items) => Arr(CleanItems(items))
    case Obj(fs) => Obj(CleanFields(fs))
    case _ => v
  }

  function CleanItems(items: Items): Items {
    match items
    case NoItem => NoItem
    case Item(h, t) => Item(Clean(h), CleanItems(t))
  }

  function CleanFields(fs: Fields): Fields {
    match fs
    case NoField => NoField
    case Field(n, v, rest) => if Forbidden(n) then CleanFields(rest) else Field(n, Clean(v), CleanFields(rest))
  }

  lemma {:induction false} CleanLookup(fs: Fields, n: Bytes)
    ensures Lookup(CleanFields(fs), n) ==
      if Forbidden(n) || Lookup(fs, n).None? then None else Some(Clean(Lookup(fs, n).value))
  {
    if fs.Field? { CleanLookup(fs.rest, n); }
  }

  lemma {:induction false} CleanWellFormed(v: Json)
    requires WellFormed(v)
    ensures WellFormed(Clean(v))
    decreases v, 0
  {
    match v
    case Arr(items) => CleanItemsWellFormed(items);
    case Obj(fs) => CleanFieldsWellFormed(fs);
    case _ =>
  }

  lemma {:induction false} CleanItemsWellFormed(items: Items)
    requires WellFormedItems(items)
    ensures WellFormedItems(CleanItems(items))
    decreases items, 1
  {
    if items.Item? {
      CleanWellFormed(items.head);
      CleanItemsWellFormed(items.tail);
    }
  }

  lemma {:induction false} CleanFieldsWellFormed(fs: Fields)
    requires WellFormedFields(fs)
    ensures WellFormedFields(CleanFields(fs))
    decreases fs, 1
  {
    if fs.Field? {
      CleanWellFormed(fs.value);
      CleanFieldsWellFormed(fs.rest);
      CleanLookup(fs.rest, fs.name);
    }
  }

  /** No forbidden name occurs in the value. */
  predicate Pure(v: Json) {
    match v
    case Arr(items) => PureItems(items)
    case Obj(fs) => PureFields(fs)
    case _ => true
  }

  predicate PureItems(items: Items) { items.Item? ==> Pure(items.head) && PureItems(items.tail) }

  predicate PureFields(fs: Fields) { fs.Field? ==> !Forbidden(fs.name) && Pure(fs.value) && PureFields(fs.rest) }

  function FieldCount(fs: Fields): nat { if fs.NoField? then 0 else 1 + FieldCount(fs.rest) }

  lemma {:induction false} CleanCount(fs: Fields)
    ensures FieldCount(CleanFields(fs)) <= FieldCount(fs)
  {
    if fs.Field? { CleanCount(fs.rest); }
  }

  /** Storing keeps a value as it is exactly when no forbidden name occurs in it. */
  lemma {:induction false} CleanExact(v: Json)
    ensures Clean(v) == v <==> Pure(v)
    decreases v, 0
  {
    match v
    case Arr(items) => CleanItemsExact(items);
    case Obj(fs) => CleanFieldsExact(fs);
    case _ =>
  }

  lemma {:induction false} CleanItemsExact(items: Items)
    ensures CleanItems(items) == items <==> PureItems(items)
    decreases items, 1
  {
    if items.Item? {
      CleanExact(items.head);
      CleanItemsExact(items.tail);
    }
  }

  lemma {:induction false} CleanFieldsExact(fs: Fields)
    ensures CleanFields(fs) == fs <==> PureFields(fs)
    decreases fs, 1
  {
    if fs.Field? {
      CleanExact(fs.value);
      CleanFieldsExact(fs.rest);
      CleanCount(fs.rest);
      assert FieldCount(fs) == 1 + FieldCount(fs.rest);
    }
  }

  /** No scalar and no array anywhere: objects only. */
  predicate Leafless(v: Json) { v.Obj? && LeaflessFields(v.fields) }

  predicate LeaflessFields(fs: Fields) { fs.Field? ==> Leafless(fs.value) && LeaflessFields(fs.rest) }

  /** A leaf of an object is a leaf of its first field or of the others. */
  lemma FieldsLeaf(fs: Fields, q: Path)
    requires fs.Field? && WellFormedFields(fs)
    ensures q == [] ==> LeafAt(Obj(fs), q).None?
    ensures q != [] && q[0] == fs.name ==> LeafAt(Obj(fs), q) == LeafAt(fs.value, q[1..])
    ensures q != [] && q[0] == fs.name ==> LeafAt(Obj(fs.rest), q).None?
    ensures q != [] && q[0] != fs.name ==> LeafAt(Obj(fs), q) == LeafAt(Obj(fs.rest), q)
  {
  }

  lemma CleanedLeaf(fs: Fields, q: Path)
    requires fs.Field? && WellFormedFields(fs)
    ensures q == [] ==> LeafAt(Obj(CleanFields(fs)), q).None?
    ensures q != [] && q[0] == fs.name ==>
      LeafAt(Obj(CleanFields(fs)), q) == if Forbidden(fs.name) then None else LeafAt(Clean(fs.value), q[1..])
    ensures q != [] && q[0] == fs.name ==> LeafAt(Obj(CleanFields(fs.rest)), q).None?
    ensures q != [] && q[0] != fs.name ==> LeafAt(Obj(CleanFields(fs)), q) == LeafAt(Obj(CleanFields(fs.rest)), q)
  {
    if q != [] {
      CleanLookup(fs, q[0]);
      CleanLookup(fs.rest, q[0]);
    }
  }

  lemma {:induction false} LeaflessExact(v: Json)
    requires WellFormed(v)
    ensures Leafless(v) <==> forall q :: LeafAt(v, q).None?
    decreases v, 0
  {
    if v.Obj? { LeaflessFieldsExact(v.fields); } else { assert LeafAt(v, []).Some?; }
  }

  lemma {:induction false} LeaflessFieldsExact(fs: Fields)
    requires WellFormedFields(fs)
    ensures LeaflessFields(fs) <==> forall q :: LeafAt(Obj(fs), q).None?
    decreases fs, 1
  {
    if fs.Field? {
      LeaflessExact(fs.value);
      LeaflessFieldsExact(fs.rest);
      if forall q :: LeafAt(Obj(fs), q).None? {
        forall q ensures LeafAt(fs.value, q).None? {
          FieldsLeaf(fs, [fs.name] + q);
          assert ([fs.name] + q)[1..] == q;
        }
        forall q ensures LeafAt(Obj(fs.rest), q).None? { FieldsLeaf(fs, q); }
      } else {
        var q :| LeafAt(Obj(fs), q).Some?;
        FieldsLeaf(fs, q);
      }
    }
  }

  /** What storing drops holds no leaf: forbidden fields are leafless, and arrays have none. */
  predicate Untouched(v: Json) {
    match v
    case Arr(items) => PureItems(items)
    case Obj(fs) => UntouchedFields(fs)
    case _ => true
  }

  predicate UntouchedFields(fs: Fields) {
    fs.Field? ==> (if Forbidden(fs.name) then Leafless(fs.value) else Untouched(fs.value)) && UntouchedFields(fs.rest)
  }

  ghost predicate SameLeavesIn(v: Json, w: Json) {
    forall q :: LeafAt(v, q) == LeafAt(w, q)
  }

  lemma FieldsKept(fs: Fields)
    requires fs.Field? && WellFormedFields(fs) && SameLeavesIn(Obj(CleanFields(fs)), Obj(fs))
    ensures SameLeavesIn(Obj(CleanFields(fs.rest)), Obj(fs.rest))
    ensures if Forbidden(fs.name) then forall q :: LeafAt(fs.value, q).None?
      else SameLeavesIn(Clean(fs.value), fs.value)
  {
    forall q ensures LeafAt(Obj(CleanFields(fs.rest)), q) == LeafAt(Obj(fs.rest), q) {
      FieldsLeaf(fs, q);
      CleanedLeaf(fs, q);
    }
    forall q ensures LeafAt(fs.value, q) == if Forbidden(fs.name) then None else LeafAt(Clean(fs.value), q) {
      FieldsLeaf(fs, [fs.name] + q);
      CleanedLeaf(fs, [fs.name] + q);
      assert ([fs.name] + q)[1..] == q;
    }
  }

  /** Storing a value keeps its leaves exactly when what it drops holds none. */
  lemma {:induction false} UntouchedExact(v: Json)
    requires WellFormed(v)
    ensures Untouched(v) <==> SameLeavesIn(Clean(v), v)
    decreases v, 0
  {
    match v
    case Obj(fs) => UntouchedFieldsExact(fs);
    case Arr(items) =>
      CleanExact(v);
      assert LeafAt(Clean(v), []) == Some(Clean(v)) && LeafAt(v, []) == Some(v);
    case _ =>
  }

  lemma {:induction false} UntouchedFieldsExact(fs: Fields)
    requires WellFormedFields(fs)
    ensures UntouchedFields(fs) <==> SameLeavesIn(Obj(CleanFields(fs)), Obj(fs))
    decreases fs, 1
  {
    if fs.Field? {
      if Forbidden(fs.name) { LeaflessExact(fs.value); } else { UntouchedExact(fs.value); }
      UntouchedFieldsExact(fs.rest);
      if SameLeavesIn(Obj(CleanFields(fs)), Obj(fs)) {
        FieldsKept(fs);
      } else {
        var q :| LeafAt(Obj(CleanFields(fs)), q) != LeafAt(Obj(fs), q);
        FieldsLeaf(fs, q);
        CleanedLeaf(fs, q);
      }
    }
  }

  // --------------------------------------------------------------------------------------
  // The copying loop
  // --------------------------------------------------------------------------------------

  function Extended(fs: Fields, more: Fields): Fields {
    match fs
    case NoField => more
    case Field(n, v, rest) => Field(n, v, Extended(rest, more))
  }

  lemma {:induction false} ExtendFresh(fs: Fields, n: Bytes, v: Json, more: Fields)
    requires Lookup(fs, n).None?
    ensures Extended(InsertField(fs, n, v), more) == Extended(fs, Field(n, v, more))
    ensures forall m :: Lookup(InsertField(fs, n, v), m).Some? ==> m == n || Lookup(fs, m).Some?
  {
    forall m { LookupInsert(fs, n, v, m); }
    if fs.Field? { ExtendFresh(fs.rest, n, v, more); }
  }

  lemma {:induction false} ExtendNothing(fs: Fields)
    ensures Extended(fs, NoField) == fs
  {
    if fs.Field? { ExtendNothing(fs.rest); }
  }

  function Size(v: Json): nat {
    match v
    case Arr(items) => 1 + SizeItems(items)
    case Obj(fs) => 1 + SizeFields(fs)
    case _ => 1
  }

  function SizeItems(items: Items): nat { if items.NoItem? then 0 else 1 + Size(items.head) + SizeItems(items.tail) }

  function SizeFields(fs: Fields): nat { if fs.NoField? then 0 else 1 + Size(fs.value) + SizeFields(fs.rest) }

  /** Copy a value; an object field by field, skipping forbidden names. */
  method ToNullProto(v: Json) returns (r: Json)
    requires WellFormed(v)
    ensures r == Clean(v)
    decreases Size(v)
  {
    if v.Arr? {
      var items := MapItems(v.items);
      return Arr(items);
    }
    if !v.Obj? {
      return v;
    }
    var result, rest := NoField, v.fields;
    while rest.Field?
      invariant WellFormedFields(rest) && SizeFields(rest) <= SizeFields(v.fields)
      invariant forall n :: Lookup(rest, n).Some? ==> Lookup(result, n).None?
      invariant Extended(result, CleanFields(rest)) == CleanFields(v.fields)
      decreases SizeFields(rest)
    {
      if !Forbidden(rest.name) {
        var value := ToNullProto(rest.value);
        assert Lookup(rest, rest.name).Some?;
        ExtendFresh(result, rest.name, value, CleanFields(rest.rest));
        result := InsertField(result, rest.name, value);
      }
      rest := rest.rest;
    }
    ExtendNothing(result);
    r := Obj(result);
  }

  method MapItems(items: Items) returns (r: Items)
    requires WellFormedItems(items)
    ensures r == CleanItems(items)
    decreases SizeItems(items)
  {
    if items.NoItem? {
      return NoItem;
    }
    var head := ToNullProto(items.head);
    var tail := MapItems(items.tail);
    r := Item(head, tail);
  }
}
