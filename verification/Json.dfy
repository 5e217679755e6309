/** JSON documents as the store edits them, and the leaf view of a document: which scalar or
    array sits at which path. Objects are structure only; empty objects have no leaves. */
module Json {
  import opened Bytes
  import opened Paths

  /** A number keeps its literal text and the binary64 pattern the parser reads it as. */
  type Pattern = n: nat | n < 0x1_0000_0000_0000_0000

  datatype Number = Number(text: Bytes, bits: Pattern)

  /** `NotJson` is a stored byte string that no JSON parser accepts. */
  datatype Json =
    | NotJson(raw: Bytes)
    | Null
    | Bool(b: bool)
    | Num(n: Number)
    | Str(text: Bytes)
    | Arr(items: Items)
    | Obj(fields: Fields)

  datatype Items = NoItem | Item(head: Json, tail: Items)

  datatype Fields = NoField | Field(name: Bytes, value: Json, rest: Fields)

  // --------------------------------------------------------------------------------------

  function Lookup(fs: Fields, n: Bytes): Option<Json> {
    match fs
    case NoField => None
    case Field(m, v, rest) => if m == n then Some(v) else Lookup(rest, n)
  }

  function InsertField(fs: Fields, n: Bytes, v: Json): Fields {
    match fs
    case NoField => Field(n, v, NoField)
    case Field(m, w, rest) => if m == n then Field(n, v, rest) else Field(m, w, InsertField(rest, n, v))
  }

  function LastField(fs: Fields): (r: (Bytes, Json))
    requires fs.Field?
  {
    if fs.rest.NoField? then (fs.name, fs.value) else LastField(fs.rest)
  }

  function DropLast(fs: Fields): Fields
    requires fs.Field?
  {
    if fs.rest.NoField? then NoField else Field(fs.name, fs.value, DropLast(fs.rest))
  }

  function SwapRemove(fs: Fields, n: Bytes): Fields {
    match fs
    case NoField => NoField
    case Field(m, w, rest) =>
      if m != n then Field(m, w, SwapRemove(rest, n))
      else if rest.NoField? then NoField
      else var (ln, lv) := LastField(rest); Field(ln, lv, DropLast(rest))
  }

  predicate WellFormedFields(fs: Fields) {
    fs.Field? ==> Lookup(fs.rest, fs.name).None? && WellFormed(fs.value) && WellFormedFields(fs.rest)
  }

  predicate WellFormedItems(items: Items) {
    items.Item? ==> WellFormed(items.head) && WellFormedItems(items.tail)
  }

  /** A parsed document: no object in it repeats a field name. */
  predicate WellFormed(v: Json) {
    match v
    case NotJson(_) => false
    case Arr(items) => WellFormedItems(items)
    case Obj(fs) => WellFormedFields(fs)
    case _ => true
  }

  lemma {:induction false} LookupInsert(fs: Fields, n: Bytes, v: Json, m: Bytes)
    ensures Lookup(InsertField(fs, n, v), m) == if m == n then Some(v) else Lookup(fs, m)
  {
    if fs.Field? { LookupInsert(fs.rest, n, v, m); }
  }

  lemma {:induction false} LookupLast(fs: Fields, m: Bytes)
    requires fs.Field? && WellFormedFields(fs)
    ensures var (ln, lv) := LastField(fs);
      && Lookup(fs, ln) == Some(lv) && WellFormed(lv)
      && Lookup(DropLast(fs), m) == (if m == ln then None else Lookup(fs, m))
      && WellFormedFields(DropLast(fs))
  {
    if fs.rest.Field? {
      LookupLast(fs.rest, m);
      LookupLast(fs.rest, fs.name);
    }
  }

  lemma {:induction false} LookupRemove(fs: Fields, n: Bytes, m: Bytes)
    requires WellFormedFields(fs)
    ensures Lookup(SwapRemove(fs, n), m) == if m == n then None else Lookup(fs, m)
  {
    if fs.Field? {
      LookupRemove(fs.rest, n, m);
      if fs.name == n && fs.rest.Field? { LookupLast(fs.rest, m); }
    }
  }

  lemma {:induction false} WellFormedInsert(fs: Fields, n: Bytes, v: Json)
    requires WellFormedFields(fs) && WellFormed(v)
    ensures WellFormedFields(InsertField(fs, n, v))
  {
    if fs.Field? {
      WellFormedInsert(fs.rest, n, v);
      LookupInsert(fs.rest, n, v, fs.name);
    }
  }

  lemma {:induction false} WellFormedRemove(fs: Fields, n: Bytes)
    requires WellFormedFields(fs)
    ensures WellFormedFields(SwapRemove(fs, n))
  {
    if fs.Field? {
      WellFormedRemove(fs.rest, n);
      LookupRemove(fs.rest, n, fs.name);
      if fs.name == n && fs.rest.Field? { LookupLast(fs.rest, LastField(fs.rest).0); }
    }
  }

  lemma {:induction false} WellFormedLookup(fs: Fields, n: Bytes)
    requires WellFormedFields(fs) && Lookup(fs, n).Some?
    ensures WellFormed(Lookup(fs, n).value)
  {
    if fs.name != n { WellFormedLookup(fs.rest, n); }
  }

  // --------------------------------------------------------------------------------------
  // The leaf view
  // --------------------------------------------------------------------------------------

  /** The leaf of `v` at path `q`: the non-object value reached through objects only. */
  function LeafAt(v: Json, q: Path): Option<Json>
    decreases |q|
  {
    if q == [] then (if v.Obj? then None else Some(v))
    else if !v.Obj? then None
    else match Lookup(v.fields, q[0])
      case None => None
      case Some(c) => LeafAt(c, q[1..])
  }

  /** Effect of writing `x` at path `k` on the leaf at path `p`: everything at or below `k`
      comes from `x`, a leaf at a strict ancestor of `k` dies, anything else stays. */
  function Write(k: Path, x: Json, p: Path, was: Option<Json>): Option<Json> {
    if k <= p then LeafAt(x, p[|k|..])
    else if p <= k then None
    else was
  }

  /** Effect of deleting path `k` on the leaf at path `p`. */
  function Kill(k: Path, p: Path, was: Option<Json>): Option<Json> {
    if k <= p then None else was
  }

  lemma PrefixShift(a: Path, k: Path, p: Path)
    ensures a + k <= a + p <==> k <= p
  {
    if k <= p {
      assert p == k + p[|k|..];
      assert a + p == a + k + p[|k|..];
    }
    if a + k <= a + p {
      assert forall i :: 0 <= i < |k| ==> k[i] == (a + k)[|a| + i] && p[i] == (a + p)[|a| + i];
    }
  }

  /** Both rules only look at what follows a common prefix. */
  lemma RulesShift(a: Path, k: Path, x: Json, p: Path, was: Option<Json>)
    ensures Write(a + k, x, a + p, was) == Write(k, x, p, was)
    ensures Kill(a + k, a + p, was) == Kill(k, p, was)
  {
    PrefixShift(a, k, p);
    PrefixShift(a, p, k);
    if k <= p { assert (a + p)[|a + k|..] == p[|k|..]; }
  }

  // --------------------------------------------------------------------------------------
  // Edits inside an object document
  // --------------------------------------------------------------------------------------

  function ChildFields(fs: Fields, n: Bytes): Fields {
    match Lookup(fs, n)
    case Some(Obj(c)) => c
    case _ => NoField
  }

  /** Write `x` below an object, turning every non-object on the way into an object. Bytes that
      do not parse are not inserted, although the objects on the way are. */
  function InsertAt(fs: Fields, q: Path, x: Json): Fields
    requires |q| >= 1
    decreases |q|
  {
    if |q| == 1 then (if x.NotJson? then fs else InsertField(fs, q[0], x))
    else InsertField(fs, q[0], Obj(InsertAt(ChildFields(fs, q[0]), q[1..], x)))
  }

  /** Remove the node at `q`, found through objects only; `None` when there is no such node. */
  function RemoveAt(fs: Fields, q: Path): Option<Fields>
    requires |q| >= 1
    decreases |q|
  {
    match Lookup(fs, q[0])
    case None => None
    case Some(c) =>
      if |q| == 1 then Some(SwapRemove(fs, q[0]))
      else if !c.Obj? then None
      else match RemoveAt(c.fields, q[1..])
        case None => None
        case Some(c') => Some(InsertField(fs, q[0], Obj(c')))
  }

  lemma {:induction false} InsertAtLeaf(fs: Fields, q: Path, x: Json, p: Path)
    requires |q| >= 1 && !x.NotJson?
    ensures LeafAt(Obj(InsertAt(fs, q, x)), p) == Write(q, x, p, LeafAt(Obj(fs), p))
    decreases |q|
  {
    if p != [] {
      var child := ChildFields(fs, q[0]);
      LookupInsert(fs, q[0], if |q| == 1 then x else Obj(InsertAt(child, q[1..], x)), p[0]);
      if p[0] == q[0] {
        assert q == [q[0]] + q[1..] && p == [p[0]] + p[1..];
        if |q| > 1 {
          InsertAtLeaf(child, q[1..], x, p[1..]);
          assert q <= p ==> p[|q|..] == p[1..][|q[1..]|..];
        }
      }
    }
  }

  lemma {:induction false} RemoveAtLeaf(fs: Fields, q: Path, p: Path)
    requires |q| >= 1 && WellFormedFields(fs)
    ensures RemoveAt(fs, q).Some? ==> LeafAt(Obj(RemoveAt(fs, q).value), p) == Kill(q, p, LeafAt(Obj(fs), p))
    ensures RemoveAt(fs, q).None? ==> Kill(q, p, LeafAt(Obj(fs), p)) == LeafAt(Obj(fs), p)
    decreases |q|
  {
    if p != [] && Lookup(fs, q[0]).Some? {
      var c := Lookup(fs, q[0]).value;
      WellFormedLookup(fs, q[0]);
      LookupRemove(fs, q[0], p[0]);
      assert q == [q[0]] + q[1..] && p == [p[0]] + p[1..];
      if |q| > 1 && c.Obj? {
        RemoveAtLeaf(c.fields, q[1..], p[1..]);
        if RemoveAt(c.fields, q[1..]).Some? {
          LookupInsert(fs, q[0], Obj(RemoveAt(c.fields, q[1..]).value), p[0]);
        }
      }
    }
  }

  lemma {:induction false} InsertAtWellFormed(fs: Fields, q: Path, x: Json)
    requires |q| >= 1 && WellFormedFields(fs) && (x.NotJson? || WellFormed(x))
    ensures WellFormedFields(InsertAt(fs, q, x))
    decreases |q|
  {
    if |q| == 1 {
      if !x.NotJson? { WellFormedInsert(fs, q[0], x); }
    } else {
      if Lookup(fs, q[0]).Some? { WellFormedLookup(fs, q[0]); }
      InsertAtWellFormed(ChildFields(fs, q[0]), q[1..], x);
      WellFormedInsert(fs, q[0], Obj(InsertAt(ChildFields(fs, q[0]), q[1..], x)));
    }
  }

  lemma {:induction false} RemoveAtWellFormed(fs: Fields, q: Path)
    requires |q| >= 1 && WellFormedFields(fs)
    ensures RemoveAt(fs, q).Some? ==> WellFormedFields(RemoveAt(fs, q).value)
    decreases |q|
  {
    if Lookup(fs, q[0]).Some? {
      WellFormedLookup(fs, q[0]);
      WellFormedRemove(fs, q[0]);
      if |q| > 1 && Lookup(fs, q[0]).value.Obj? {
        var c := Lookup(fs, q[0]).value.fields;
        RemoveAtWellFormed(c, q[1..]);
        if RemoveAt(c, q[1..]).Some? { WellFormedInsert(fs, q[0], Obj(RemoveAt(c, q[1..]).value)); }
      }
    }
  }

  // --------------------------------------------------------------------------------------
  // Reading a node, through objects and array indices
  // --------------------------------------------------------------------------------------

  function Nth(items: Items, i: nat): Option<Json> {
    match items
    case NoItem => None
    case Item(h, t) => if i == 0 then Some(h) else Nth(t, i - 1)
  }

  predicate IsDigit(b: byte) { 0x30 <= b <= 0x39 }

  function Decimal(s: Bytes): nat
    requires forall i :: 0 <= i < |s| ==> IsDigit(s[i])
  {
    if s == [] then 0
    else
      assert IsDigit(s[|s| - 1]);
      var last: int := s[|s| - 1];
      10 * Decimal(s[..|s| - 1]) + (last - 0x30)
  }

  /** `usize` parsing: an optional plus sign, at least one digit, below 2^64. */
  function ParseIndex(s: Bytes): Option<nat> {
    var d := if s != [] && s[0] == 0x2B then s[1..] else s;
    if d != [] && (forall i :: 0 <= i < |d| ==> IsDigit(d[i])) && Decimal(d) < 0x1_0000_0000_0000_0000
    then Some(Decimal(d)) else None
  }

  function Descend(v: Json, q: Path): Option<Json>
    decreases |q|
  {
    if q == [] then Some(v)
    else match v
      case Obj(fs) => (match Lookup(fs, q[0]) case None => None case Some(c) => Descend(c, q[1..]))
      case Arr(items) =>
        (match ParseIndex(q[0])
         case None => None
         case Some(i) => match Nth(items, i) case None => None case Some(c) => Descend(c, q[1..]))
      case _ => None
  }

  /** A node read without crossing an array has exactly the leaves of the document below it;
      when no node is read, no leaf lies at or below the path. */
  lemma {:induction false} DescendLeaves(v: Json, q: Path, r: Path)
    requires forall i {:trigger q[..i]} :: 0 <= i < |q| ==> LeafAt(v, q[..i]).None?
    ensures Descend(v, q).Some? ==> LeafAt(Descend(v, q).value, r) == LeafAt(v, q + r)
    ensures Descend(v, q).None? ==> LeafAt(v, q + r).None?
    decreases |q|
  {
    if q == [] {
      assert q + r == r;
    } else {
      assert LeafAt(v, q[..0]).None?;
      assert q + r == [q[0]] + (q[1..] + r);
      if v.Obj? && Lookup(v.fields, q[0]).Some? {
        var c := Lookup(v.fields, q[0]).value;
        forall i {:trigger q[1..][..i]} | 0 <= i < |q[1..]| ensures LeafAt(c, q[1..][..i]).None? {
          assert q[..i + 1] == [q[0]] + q[1..][..i];
        }
        DescendLeaves(c, q[1..], r);
      }
    }
  }

  /** Reading past a leaf reads inside that leaf. */
  lemma {:induction false} DescendThroughLeaf(v: Json, q: Path, i: nat)
    requires i <= |q| && LeafAt(v, q[..i]).Some?
    ensures Descend(v, q) == Descend(LeafAt(v, q[..i]).value, q[i..])
    decreases |q|
  {
    if i == 0 {
      assert q[..0] == [] && q[0..] == q;
    } else {
      assert q[..i][0] == q[0] && q[..i][1..] == q[1..][..i - 1] && q[i..] == q[1..][i - 1..];
      DescendThroughLeaf(Lookup(v.fields, q[0]).value, q[1..], i - 1);
    }
  }

  /** Where no array or scalar is in the way, a node can be removed exactly when it can be read. */
  lemma {:induction false} RemoveIffReadable(fs: Fields, q: Path)
    requires |q| >= 1
    requires forall i {:trigger q[..i]} :: 0 <= i < |q| ==> LeafAt(Obj(fs), q[..i]).None?
    ensures RemoveAt(fs, q).Some? <==> Descend(Obj(fs), q).Some?
    decreases |q|
  {
    if |q| > 1 && Lookup(fs, q[0]).Some? {
      var c := Lookup(fs, q[0]).value;
      forall i {:trigger q[1..][..i]} | 0 <= i < |q[1..]| ensures LeafAt(c, q[1..][..i]).None? {
        assert q[..i + 1] == [q[0]] + q[1..][..i];
      }
      assert q[1..][..0] == [] && LeafAt(c, q[1..][..0]).None?;
      RemoveIffReadable(c.fields, q[1..]);
    }
  }

  lemma {:induction false} NthWellFormed(items: Items, i: nat)
    requires WellFormedItems(items) && Nth(items, i).Some?
    ensures WellFormed(Nth(items, i).value)
  {
    if i > 0 { NthWellFormed(items.tail, i - 1); }
  }

  lemma {:induction false} DescendWellFormed(v: Json, q: Path)
    requires WellFormed(v)
    ensures Descend(v, q).Some? ==> WellFormed(Descend(v, q).value)
    decreases |q|
  {
    if q != [] && Descend(v, q).Some? {
      match v
      case Obj(fs) =>
        WellFormedLookup(fs, q[0]);
        DescendWellFormed(Lookup(fs, q[0]).value, q[1..]);
      case Arr(items) =>
        NthWellFormed(items, ParseIndex(q[0]).value);
        DescendWellFormed(Nth(items, ParseIndex(q[0]).value).value, q[1..]);
      case _ =>
    }
  }
}
