/** Enumerating the store: the byte range of a prefix, the rows a stored value splits into, and
    the listing under a prefix. Values are their stored bytes, whatever those are. */
module Enumerate {
  import opened Bytes
  import opened Paths
  import opened JsonText
  import opened FieldSplitter

  type ByteTree = map<Bytes, Bytes>

  datatype Row = Row(key: Bytes, value: Bytes)

  const RAW: byte := 0

  predicate IsRaw(k: Bytes) { k != [] && k[0] == RAW }

  // --------------------------------------------------------------------------------------
  // The range of a prefix
  // --------------------------------------------------------------------------------------

  /** The least byte string above everything that starts with `p`, if there is one. */
  function PrefixEnd(p: Bytes): Option<Bytes> {
    if p == [] then None
    else match PrefixEnd(p[1..])
      case Some(e) => Some([p[0]] + e)
      case None => if p[0] < 0xFF then Some([p[0] + 1]) else None
  }

  /** `k` starts with `p` exactly when it lies between `p` and the end computed for it. */
  lemma {:induction false} PrefixRange(p: Bytes, k: Bytes)
    ensures p <= k <==> !Less(k, p) && (PrefixEnd(p).Some? ==> Less(k, PrefixEnd(p).value))
    decreases |p|
  {
    if p != [] {
      if k != [] { PrefixRange(p[1..], k[1..]); }
      assert p <= k <==> k != [] && k[0] == p[0] && p[1..] <= k[1..] by {
        assert p == [p[0]] + p[1..];
        if k != [] { assert k == [k[0]] + k[1..]; }
      }
      if PrefixEnd(p[1..]).Some? {
        assert PrefixEnd(p).value[1..] == PrefixEnd(p[1..]).value;
      }
    }
  }

  lemma {:induction false} PrefixEndLast(p: Bytes, c: byte)
    ensures PrefixEnd(p + [c]) == if c < 0xFF then Some(p + [c + 1]) else PrefixEnd(p)
    decreases |p|
  {
    if p == [] {
      assert p + [c] == [c] && PrefixEnd([c][1..]) == None && (c < 0xFF ==> p + [c + 1] == [c + 1]);
    } else {
      assert (p + [c])[1..] == p[1..] + [c];
      PrefixEndLast(p[1..], c);
      assert c < 0xFF ==> [p[0]] + (p[1..] + [c + 1]) == p + [c + 1];
    }
  }

  /** Raise the last byte that can be raised, dropping the ones that cannot. */
  method ComputePrefixEnd(prefix: Bytes) returns (r: Option<Bytes>)
    ensures r == PrefixEnd(prefix)
  {
    var end := prefix;
    while end != []
      invariant PrefixEnd(end) == PrefixEnd(prefix)
      decreases |end|
    {
      var last := end[|end| - 1];
      assert end == end[..|end| - 1] + [last];
      PrefixEndLast(end[..|end| - 1], last);
      if last < 0xFF {
        return Some(end[..|end| - 1] + [last + 1]);
      }
      end := end[..|end| - 1];
    }
    return None;
  }

  /** The bounds of a range scan: from the prefix, or past `after` when that is not below it. */
  predicate InBounds(k: Bytes, prefix: Bytes, after: Bytes) {
    && (if after != [] && !Less(after, prefix) then Less(after, k) else !Less(k, prefix))
    && (PrefixEnd(prefix).Some? ==> Less(k, PrefixEnd(prefix).value))
  }

  lemma BoundsArePrefix(k: Bytes, prefix: Bytes, after: Bytes)
    ensures InBounds(k, prefix, after) <==> prefix <= k && (after == [] || Less(after, k))
  {
    PrefixRange(prefix, k);
    if after != [] && !Less(after, prefix) {
      LessTotal(after, prefix);
      if Less(after, k) && Less(k, prefix) { LessTransitive(after, k, prefix); LessTotal(after, prefix); }
    } else if after != [] && !Less(k, prefix) {
      LessTotal(k, prefix);
      if Less(prefix, k) { LessTransitive(after, prefix, k); }
    }
  }

  function NonRaw(keys: seq<Bytes>): (r: seq<Bytes>)
    ensures forall k :: k in r <==> k in keys && !IsRaw(k)
    ensures |r| <= |keys|
  {
    if keys == [] then []
    else
      var rest := NonRaw(keys[1..]);
      assert forall k :: k in keys <==> k == keys[0] || k in keys[1..];
      if IsRaw(keys[0]) then rest else [keys[0]] + rest
  }

  lemma {:induction false} NonRawSorted(keys: seq<Bytes>)
    requires StrictlySorted(keys)
    ensures StrictlySorted(NonRaw(keys))
    decreases |keys|
  {
    if keys != [] {
      NonRawSorted(keys[1..]);
      forall k | k in NonRaw(keys[1..]) ensures Less(keys[0], k) {
        assert k in keys[1..];
      }
    }
  }

  lemma {:induction false} NonRawConcat(a: seq<Bytes>, b: seq<Bytes>)
    ensures NonRaw(a + b) == NonRaw(a) + NonRaw(b)
    decreases |a|
  {
    if a == [] {
      assert a + b == b;
    } else {
      assert (a + b)[1..] == a[1..] + b;
      NonRawConcat(a[1..], b);
    }
  }

  /** The keys a range scan visits, in order, raw keys skipped. */
  function RangeKeys(keys: set<Bytes>, prefix: Bytes, after: Bytes): (r: seq<Bytes>)
    ensures StrictlySorted(r)
    ensures forall k :: k in r <==> k in keys && !IsRaw(k) && InBounds(k, prefix, after)
  {
    var all := Sorted(set k | k in keys && InBounds(k, prefix, after));
    NonRawSorted(all);
    NonRaw(all)
  }

  // --------------------------------------------------------------------------------------
  // Rows of one value
  // --------------------------------------------------------------------------------------

  predicate StartsObject(value: Bytes) { value != [] && value[0] == OPEN_BRACE && !IsEnvelope(value) }

  /** The rows of a stored value that lie under `prefix`: objects are split, field by field. */
  function LeafRows(path: Bytes, value: Bytes, prefix: Bytes): seq<Row>
    decreases |value|, 1, 0
  {
    if StartsObject(value) && SplitObject(value).Some? then
      MemberRows(path, SplitObject(value).value, prefix, |value|)
    else if prefix <= path then [Row(path, value)]
    else []
  }

  function MemberRows(path: Bytes, ms: seq<Member>, prefix: Bytes, bound: nat): seq<Row>
    requires forall m :: m in ms ==> |m.text| < bound
    decreases bound, 0, |ms|
  {
    if ms == [] then []
    else
      assert ms[0] in ms;
      LeafRows(path + [DOT] + ms[0].name, ms[0].text, prefix) + MemberRows(path, ms[1..], prefix, bound)
  }

  function Filter(rows: seq<Row>, prefix: Bytes): seq<Row> {
    if rows == [] then []
    else (if prefix <= rows[0].key then [rows[0]] else []) + Filter(rows[1..], prefix)
  }

  lemma {:induction false} FilterConcat(a: seq<Row>, b: seq<Row>, prefix: Bytes)
    ensures Filter(a + b, prefix) == Filter(a, prefix) + Filter(b, prefix)
    decreases |a|
  {
    if a == [] {
      assert a + b == b;
    } else {
      assert (a + b)[1..] == a[1..] + b;
      FilterConcat(a[1..], b, prefix);
    }
  }

  /** Filtering while splitting is filtering afterwards. */
  lemma {:induction false} LeafRowsFiltered(path: Bytes, value: Bytes, prefix: Bytes)
    ensures LeafRows(path, value, prefix) == Filter(LeafRows(path, value, []), prefix)
    decreases |value|, 1, 0
  {
    if StartsObject(value) && SplitObject(value).Some? {
      MemberRowsFiltered(path, SplitObject(value).value, prefix, |value|);
    } else {
      assert LeafRows(path, value, []) == [Row(path, value)];
    }
  }

  lemma {:induction false} MemberRowsFiltered(path: Bytes, ms: seq<Member>, prefix: Bytes, bound: nat)
    requires forall m :: m in ms ==> |m.text| < bound
    ensures MemberRows(path, ms, prefix, bound) == Filter(MemberRows(path, ms, [], bound), prefix)
    decreases bound, 0, |ms|
  {
    if ms != [] {
      assert ms[0] in ms;
      var p := path + [DOT] + ms[0].name;
      LeafRowsFiltered(p, ms[0].text, prefix);
      MemberRowsFiltered(path, ms[1..], prefix, bound);
      FilterConcat(LeafRows(p, ms[0].text, []), MemberRows(path, ms[1..], [], bound), prefix);
    }
  }

  predicate AtOrBelow(path: Bytes, k: Bytes) { k == path || path + [DOT] <= k }

  lemma {:induction false} LeafRowsBelow(path: Bytes, value: Bytes, prefix: Bytes)
    ensures forall r :: r in LeafRows(path, value, prefix) ==> AtOrBelow(path, r.key) && prefix <= r.key
    decreases |value|, 1, 0
  {
    if StartsObject(value) && SplitObject(value).Some? {
      MemberRowsBelow(path, SplitObject(value).value, prefix, |value|);
    }
  }

  lemma {:induction false} MemberRowsBelow(path: Bytes, ms: seq<Member>, prefix: Bytes, bound: nat)
    requires forall m :: m in ms ==> |m.text| < bound
    ensures forall r :: r in MemberRows(path, ms, prefix, bound) ==> AtOrBelow(path, r.key) && prefix <= r.key
    decreases bound, 0, |ms|
  {
    if ms != [] {
      assert ms[0] in ms;
      LeafRowsBelow(path + [DOT] + ms[0].name, ms[0].text, prefix);
      MemberRowsBelow(path, ms[1..], prefix, bound);
    }
  }

  // --------------------------------------------------------------------------------------
  // Listing
  // --------------------------------------------------------------------------------------

  /** The stored dotted ancestors of a prefix, shortest first, looked for from length `i` on. */
  function AncestorKeys(keys: set<Bytes>, prefix: Bytes, i: nat): (r: seq<Bytes>)
    decreases |prefix| - i
  {
    if i >= |prefix| then []
    else
      var here := if prefix[i] == DOT && prefix[..i] in keys then [prefix[..i]] else [];
      here + AncestorKeys(keys, prefix, i + 1)
  }

  function RowsOf(m: ByteTree, keys: seq<Bytes>, prefix: Bytes): seq<Row>
    requires forall k :: k in keys ==> k in m
  {
    if keys == [] then []
    else assert keys[0] in keys; LeafRows(keys[0], m[keys[0]], prefix) + RowsOf(m, keys[1..], prefix)
  }

  lemma {:induction false} AncestorKeysStored(keys: set<Bytes>, prefix: Bytes, i: nat)
    ensures forall a :: a in AncestorKeys(keys, prefix, i) <==> a in keys && i <= |a| && Under(a, prefix)
    ensures StrictlySorted(AncestorKeys(keys, prefix, i))
    decreases |prefix| - i
  {
    if i < |prefix| {
      AncestorKeysStored(keys, prefix, i + 1);
      var rest := AncestorKeys(keys, prefix, i + 1);
      assert forall a :: a in rest ==> Under(a, prefix) && i + 1 <= |a|;
      forall a | a in keys && |a| == i && Under(a, prefix) ensures a == prefix[..i] {
      }
      forall a | a in rest ensures Less(prefix[..i], a) {
        assert prefix[..i] <= a by { assert a[..i] == prefix[..i]; }
        PrefixLess(prefix[..i], a);
      }
    }
  }

  /** Everything under a prefix: what the stored ancestors of the prefix contribute, then the
      entries in its range. The ancestors are looked up without regard to raw keys. */
  function All(m: ByteTree, prefix: Bytes): seq<Row> {
    AncestorKeysStored(m.Keys, prefix, 1);
    RowsOf(m, AncestorKeys(m.Keys, prefix, 1), prefix) + RowsOf(m, RangeKeys(m.Keys, prefix, []), prefix)
  }

  lemma {:induction false} RowsOfConcat(m: ByteTree, a: seq<Bytes>, b: seq<Bytes>, prefix: Bytes)
    requires (forall k :: k in a ==> k in m) && (forall k :: k in b ==> k in m)
    ensures RowsOf(m, a + b, prefix) == RowsOf(m, a, prefix) + RowsOf(m, b, prefix)
    decreases |a|
  {
    if a == [] {
      assert a + b == b;
    } else {
      assert a[0] in a;
      assert (a + b)[1..] == a[1..] + b;
      RowsOfConcat(m, a[1..], b, prefix);
    }
  }

  lemma {:induction false} RowsOfFiltered(m: ByteTree, keys: seq<Bytes>, prefix: Bytes)
    requires forall k :: k in keys ==> k in m
    ensures RowsOf(m, keys, prefix) == Filter(RowsOf(m, keys, []), prefix)
    decreases |keys|
  {
    if keys != [] {
      assert keys[0] in keys;
      LeafRowsFiltered(keys[0], m[keys[0]], prefix);
      RowsOfFiltered(m, keys[1..], prefix);
      FilterConcat(LeafRows(keys[0], m[keys[0]], []), RowsOf(m, keys[1..], []), prefix);
    }
  }

  lemma NotFirst(a: seq<Bytes>, b: seq<Bytes>)
    requires b != [] && StrictlySorted(a) && StrictlySorted(b)
    requires forall k :: k in a ==> k in b
    requires a == [] || a[0] != b[0]
    ensures b[0] !in a && forall k :: k in a ==> k in b[1..]
  {
    if b[0] in a {
      var i :| 0 <= i < |a| && a[i] == b[0];
      assert a[0] in b;
      LessTotal(a[0], b[0]);
    }
  }

  /** Keys that contribute no row can be skipped. */
  lemma {:induction false} RowsSkip(m: ByteTree, a: seq<Bytes>, b: seq<Bytes>, prefix: Bytes)
    requires StrictlySorted(a) && StrictlySorted(b)
    requires (forall k :: k in a ==> k in b) && (forall k :: k in b ==> k in m)
    requires forall k :: k in b && k !in a ==> LeafRows(k, m[k], prefix) == []
    ensures RowsOf(m, a, prefix) == RowsOf(m, b, prefix)
    decreases |b|
  {
    assert a == [] || a[0] in a;
    if b != [] {
      assert b[0] in b;
      LessTotal(b[0], b[0]);
      if a != [] && a[0] == b[0] {
        forall k | k in a[1..] ensures k in b[1..] {
          LessTotal(a[0], k);
          assert k in a && Less(a[0], k);
        }
        RowsSkip(m, a[1..], b[1..], prefix);
      } else {
        NotFirst(a, b);
        RowsSkip(m, a, b[1..], prefix);
      }
    }
  }

  /** A row at or below `k` can start with the prefix only if `k` does or lies above the prefix. */
  lemma RowUnderPrefix(k: Bytes, r: Bytes, prefix: Bytes)
    requires AtOrBelow(k, r) && prefix <= r
    ensures prefix <= k || Under(k, prefix)
  {
    if r != k {
      var d := k + [DOT];
      assert d == r[..|d|];
      if |prefix| <= |k| {
        assert k == d[..|k|] && k[..|prefix|] == r[..|prefix|];
      } else {
        assert prefix[..|d|] == r[..|d|];
      }
    }
  }

  lemma NoRows(k: Bytes, value: Bytes, prefix: Bytes)
    requires !(prefix <= k) && !Under(k, prefix)
    ensures LeafRows(k, value, prefix) == []
  {
    LeafRowsBelow(k, value, prefix);
    var rows := LeafRows(k, value, prefix);
    assert rows == [] || rows[0] in rows;
    forall r | r in rows ensures false {
      RowUnderPrefix(k, r.key, prefix);
    }
  }

  lemma ListedSorted(m: ByteTree, prefix: Bytes)
    ensures StrictlySorted(AncestorKeys(m.Keys, prefix, 1) + RangeKeys(m.Keys, prefix, []))
  {
    AncestorKeysStored(m.Keys, prefix, 1);
    forall a, k | a in AncestorKeys(m.Keys, prefix, 1) && k in RangeKeys(m.Keys, prefix, []) ensures Less(a, k) {
      BoundsArePrefix(k, prefix, []);
      assert a <= k by { assert k[..|a|] == prefix[..|a|]; }
      PrefixLess(a, k);
    }
  }

  /** Listing under a prefix is listing everything and keeping the rows whose key starts with it,
      in the same order: the ancestor lookups and the bounded range lose nothing and add nothing. */
  lemma AllIsFilter(m: ByteTree, prefix: Bytes)
    requires [] !in m && !IsRaw(prefix)
    ensures All(m, prefix) == Filter(All(m, []), prefix)
  {
    AncestorKeysStored(m.Keys, prefix, 1);
    var anc, range, every := AncestorKeys(m.Keys, prefix, 1), RangeKeys(m.Keys, prefix, []), RangeKeys(m.Keys, [], []);
    ListedSorted(m, prefix);
    forall k | k in anc + range ensures k in every {
      BoundsArePrefix(k, [], []);
    }
    forall k | k in every && k !in anc + range ensures LeafRows(k, m[k], prefix) == [] {
      BoundsArePrefix(k, prefix, []);
      NoRows(k, m[k], prefix);
    }
    RowsSkip(m, anc + range, every, prefix);
    RowsOfConcat(m, anc, range, prefix);
    RowsOfFiltered(m, every, prefix);
    assert All(m, []) == RowsOf(m, every, []);
  }

  lemma {:induction false} NoRowsAtAll(m: ByteTree, keys: seq<Bytes>, prefix: Bytes)
    requires forall k :: k in keys ==> k in m
    ensures RowsOf(m, keys, prefix) == [] <==> forall k :: k in keys ==> LeafRows(k, m[k], prefix) == []
    decreases |keys|
  {
    if keys != [] {
      NoRowsAtAll(m, keys[1..], prefix);
      assert forall k :: k in keys <==> k == keys[0] || k in keys[1..];
    }
  }

  /** Under a prefix that starts like a raw key the two differ exactly when a raw key that is a
      dotted ancestor of the prefix has a row there: the ancestor lookup does not skip raw keys. */
  lemma AllUnderRawPrefix(m: ByteTree, prefix: Bytes)
    requires [] !in m && IsRaw(prefix)
    ensures Filter(All(m, []), prefix) == []
    ensures All(m, prefix) == Filter(All(m, []), prefix) <==>
      forall a :: a in m && Under(a, prefix) ==> LeafRows(a, m[a], prefix) == []
  {
    AncestorKeysStored(m.Keys, prefix, 1);
    var anc, range, every := AncestorKeys(m.Keys, prefix, 1), RangeKeys(m.Keys, prefix, []), RangeKeys(m.Keys, [], []);
    assert range == [] by {
      if range != [] { assert range[0] in range; BoundsArePrefix(range[0], prefix, []); }
    }
    forall k | k in every ensures LeafRows(k, m[k], prefix) == [] {
      NoRows(k, m[k], prefix);
    }
    RowsSkip(m, [], every, prefix);
    RowsOfFiltered(m, every, prefix);
    assert All(m, []) == RowsOf(m, every, []);
    NoRowsAtAll(m, anc, prefix);
  }

  // --------------------------------------------------------------------------------------
  // Counting
  // --------------------------------------------------------------------------------------

  /** The keys a count looks at: those under the prefix, and every proper byte prefix of it. */
  predicate Selected(k: Bytes, prefix: Bytes) {
    !IsRaw(k) && (prefix <= k || k <= prefix)
  }

  function SelectedOf(keys: seq<Bytes>, prefix: Bytes): seq<Bytes> {
    if keys == [] then []
    else (if Selected(keys[0], prefix) then [keys[0]] else []) + SelectedOf(keys[1..], prefix)
  }

  lemma {:induction false} SelectedSnoc(keys: seq<Bytes>, k: Bytes, prefix: Bytes)
    ensures SelectedOf(keys + [k], prefix) == SelectedOf(keys, prefix) + if Selected(k, prefix) then [k] else []
    decreases |keys|
  {
    if keys == [] {
      assert keys + [k] == [k] && SelectedOf([k][1..], prefix) == [];
    } else {
      assert (keys + [k])[1..] == keys[1..] + [k];
      SelectedSnoc(keys[1..], k, prefix);
    }
  }

  /** Count the selected keys until one holds an object. */
  method CountSelected(m: ByteTree, keys: seq<Bytes>, prefix: Bytes) returns (count: nat, mustList: bool)
    requires forall k :: k in keys ==> k in m
    ensures mustList <==> exists k :: k in keys && Selected(k, prefix) && StartsObject(m[k])
    ensures !mustList ==> count == |SelectedOf(keys, prefix)|
  {
    count := 0;
    for i := 0 to |keys|
      invariant count == |SelectedOf(keys[..i], prefix)|
      invariant forall k :: k in keys[..i] && Selected(k, prefix) ==> !StartsObject(m[k])
    {
      assert keys[..i + 1] == keys[..i] + [keys[i]] && keys[i] in keys;
      SelectedSnoc(keys[..i], keys[i], prefix);
      if IsRaw(keys[i]) || !(prefix <= keys[i] || keys[i] <= prefix) {
        continue;
      }
      if StartsObject(m[keys[i]]) {
        assert Selected(keys[i], prefix);
        return count, true;
      }
      count := count + 1;
    }
    assert keys[..|keys|] == keys;
    mustList := false;
  }

  lemma {:induction false} SelectedOfSorted(keys: seq<Bytes>, prefix: Bytes)
    requires StrictlySorted(keys)
    ensures StrictlySorted(SelectedOf(keys, prefix))
    ensures forall k :: k in SelectedOf(keys, prefix) <==> k in keys && Selected(k, prefix)
    decreases |keys|
  {
    if keys != [] {
      SelectedOfSorted(keys[1..], prefix);
      assert forall k :: k in keys <==> k == keys[0] || k in keys[1..];
      forall k | k in SelectedOf(keys[1..], prefix) ensures Less(keys[0], k) {
        assert k in keys[1..];
      }
    }
  }

  /** Values that are not objects give one row each, their own. */
  lemma {:induction false} PlainRows(m: ByteTree, keys: seq<Bytes>, prefix: Bytes)
    requires forall k :: k in keys ==> k in m && prefix <= k && !StartsObject(m[k])
    ensures |RowsOf(m, keys, prefix)| == |keys|
    decreases |keys|
  {
    if keys != [] {
      assert keys[0] in keys;
      PlainRows(m, keys[1..], prefix);
    }
  }

  /** A strictly sorted selection from a strictly sorted sequence is shorter unless it is all of it. */
  lemma {:induction false} SelectionLength(a: seq<Bytes>, b: seq<Bytes>)
    requires StrictlySorted(a) && StrictlySorted(b) && forall k :: k in a ==> k in b
    ensures |a| <= |b|
    ensures |a| == |b| <==> forall k :: k in b ==> k in a
    decreases |b|
  {
    assert a == [] || a[0] in a;
    if b != [] {
      assert b[0] in b;
      LessTotal(b[0], b[0]);
      assert forall k :: k in b <==> k == b[0] || k in b[1..];
      if a != [] && a[0] == b[0] {
        forall k | k in a[1..] ensures k in b[1..] {
          LessTotal(a[0], k);
          assert k in a && Less(a[0], k);
        }
        SelectionLength(a[1..], b[1..]);
        forall k | k in b[1..] ensures k in a <==> k in a[1..] {
          LessTotal(b[0], k);
          assert Less(b[0], k) && (k in a <==> k == a[0] || k in a[1..]);
        }
      } else {
        NotFirst(a, b);
        SelectionLength(a, b[1..]);
      }
    }
  }

  lemma CountPlain(m: ByteTree, prefix: Bytes)
    requires [] !in m && !IsRaw(prefix)
    requires forall k :: k in m && Selected(k, prefix) ==> !StartsObject(m[k])
    ensures |SelectedOf(Sorted(m.Keys), prefix)| == |All(m, prefix)| <==>
      forall k :: k in m && Selected(k, prefix) ==> prefix <= k
  {
    AncestorKeysStored(m.Keys, prefix, 1);
    var anc, range := AncestorKeys(m.Keys, prefix, 1), RangeKeys(m.Keys, prefix, []);
    forall a | a in anc ensures LeafRows(a, m[a], prefix) == [] {
      assert a <= prefix && Selected(a, prefix);
    }
    NoRowsAtAll(m, anc, prefix);
    forall k | k in m ensures k in range <==> Selected(k, prefix) && prefix <= k {
      BoundsArePrefix(k, prefix, []);
    }
    PlainRows(m, range, prefix);
    SelectedOfSorted(Sorted(m.Keys), prefix);
    SelectionLength(range, SelectedOf(Sorted(m.Keys), prefix));
  }

  lemma {:induction false} NoneSelected(keys: seq<Bytes>, prefix: Bytes)
    requires IsRaw(prefix) && [] !in keys
    ensures SelectedOf(keys, prefix) == []
    decreases |keys|
  {
    if keys != [] {
      assert keys[0] in keys;
      NoneSelected(keys[1..], prefix);
    }
  }

  /** Number of rows under a prefix, listing them only when some value must be split. Under a prefix
      that starts like a raw key nothing is counted, although a listing may find raw ancestors there. */
  method Count(m: ByteTree, prefix: Bytes) returns (count: nat)
    requires [] !in m
    ensures IsRaw(prefix) ==> count == 0
    ensures IsRaw(prefix) ==>
      (count == |All(m, prefix)| <==> forall a :: a in m && Under(a, prefix) ==> LeafRows(a, m[a], prefix) == [])
    ensures !IsRaw(prefix) ==>
      (count == |All(m, prefix)| <==>
        (exists k :: k in m && Selected(k, prefix) && StartsObject(m[k]))
        || forall k :: k in m && Selected(k, prefix) ==> prefix <= k)
  {
    var keys := Sorted(m.Keys);
    var mustList;
    count, mustList := CountSelected(m, keys, prefix);
    if mustList {
      assert !IsRaw(prefix);
      return |All(m, prefix)|;
    }
    if IsRaw(prefix) {
      AllUnderRawPrefix(m, prefix);
      assert All(m, prefix) == [] <==> |All(m, prefix)| == 0;
      NoneSelected(keys, prefix);
    } else {
      CountPlain(m, prefix);
    }
  }
}
