/** Paging through the keys of a prefix with cursors, and the iterator that hides the pages. */
module Paging {
  import opened Bytes
  import opened Enumerate

  /** A page shows a key under the prefix and past the cursor, unless it is raw. */
  predicate Visible(k: Bytes, prefix: Bytes, after: Bytes) {
    !IsRaw(k) && prefix <= k && (after == [] || Less(after, k))
  }

  function EntriesFrom(m: ByteTree, keys: seq<Bytes>, prefix: Bytes, after: Bytes): seq<Row>
    requires forall k :: k in keys ==> k in m
  {
    if keys == [] then []
    else
      assert keys[0] in keys;
      (if Visible(keys[0], prefix, after) then [Row(keys[0], m[keys[0]])] else [])
      + EntriesFrom(m, keys[1..], prefix, after)
  }

  /** The visible entries, in key order. */
  function EntriesAfter(m: ByteTree, prefix: Bytes, after: Bytes): seq<Row> {
    EntriesFrom(m, Sorted(m.Keys), prefix, after)
  }

  /** A range scan panics when its start is not below its end. */
  predicate CursorOk(prefix: Bytes, after: Bytes) {
    after != [] && !Less(after, prefix) && PrefixEnd(prefix).Some? ==> Less(after, PrefixEnd(prefix).value)
  }

  lemma {:induction false} EntriesFromSnoc(m: ByteTree, keys: seq<Bytes>, k: Bytes, prefix: Bytes, after: Bytes)
    requires k in m && forall x :: x in keys ==> x in m
    ensures EntriesFrom(m, keys + [k], prefix, after) ==
      EntriesFrom(m, keys, prefix, after) + if Visible(k, prefix, after) then [Row(k, m[k])] else []
    decreases |keys|
  {
    if keys == [] {
      assert keys + [k] == [k] && EntriesFrom(m, [k][1..], prefix, after) == [];
    } else {
      assert (keys + [k])[1..] == keys[1..] + [k] && keys[0] in keys;
      EntriesFromSnoc(m, keys[1..], k, prefix, after);
      var first := if Visible(keys[0], prefix, after) then [Row(keys[0], m[keys[0]])] else [];
      var last := if Visible(k, prefix, after) then [Row(k, m[k])] else [];
      Assoc(first, EntriesFrom(m, keys[1..], prefix, after), last);
    }
  }

  /** Keys that are not visible can be left out of the enumeration. */
  lemma {:induction false} OnlyVisible(m: ByteTree, a: seq<Bytes>, b: seq<Bytes>, prefix: Bytes, after: Bytes)
    requires StrictlySorted(a) && StrictlySorted(b)
    requires (forall k :: k in a ==> k in b) && (forall k :: k in b ==> k in m)
    requires forall k :: k in b && k !in a ==> !Visible(k, prefix, after)
    ensures EntriesFrom(m, a, prefix, after) == EntriesFrom(m, b, prefix, after)
    decreases |b|
  {
    assert a == [] || a[0] in a;
    if b != [] {
      assert b[0] in b;
      LessTotal(b[0], b[0]);
      if a != [] && a[0] == b[0] {
        forall k | k in a[1..] ensures k in b[1..] {
          LessTotal(a[0], k);
          assert k in a && Less(a[0], k);
        }
        OnlyVisible(m, a[1..], b[1..], prefix, after);
      } else {
        NotFirst(a, b);
        OnlyVisible(m, a, b[1..], prefix, after);
      }
    }
  }

  /** The keys of the byte range are enough. */
  lemma RangeEnough(m: ByteTree, prefix: Bytes, after: Bytes)
    ensures EntriesFrom(m, Sorted(set k | k in m && InBounds(k, prefix, after)), prefix, after) ==
      EntriesAfter(m, prefix, after)
  {
    forall k | Visible(k, prefix, after) ensures InBounds(k, prefix, after) { BoundsArePrefix(k, prefix, after); }
    OnlyVisible(m, Sorted(set k | k in m && InBounds(k, prefix, after)), Sorted(m.Keys), prefix, after);
  }

  ghost predicate Ascending(rows: seq<Row>) {
    forall i, j :: 0 <= i < j < |rows| ==> Less(rows[i].key, rows[j].key)
  }

  lemma {:induction false} EntriesAre(m: ByteTree, keys: seq<Bytes>, prefix: Bytes, after: Bytes)
    requires StrictlySorted(keys) && forall k :: k in keys ==> k in m
    ensures var r := EntriesFrom(m, keys, prefix, after);
      && Ascending(r)
      && (forall x :: x in r <==> x.key in keys && Visible(x.key, prefix, after) && x.value == m[x.key])
    decreases |keys|
  {
    if keys != [] {
      assert keys[0] in keys;
      EntriesAre(m, keys[1..], prefix, after);
      var rest := EntriesFrom(m, keys[1..], prefix, after);
      forall i | 0 <= i < |rest| ensures Less(keys[0], rest[i].key) {
        assert rest[i] in rest;
      }
      assert forall k :: k in keys <==> k == keys[0] || k in keys[1..];
    }
  }

  lemma {:induction false} SameBeyond(m: ByteTree, keys: seq<Bytes>, prefix: Bytes, after: Bytes, last: Bytes)
    requires forall k :: k in keys ==> k in m && Less(last, k)
    requires last != [] && (after == [] || Less(after, last))
    ensures EntriesFrom(m, keys, prefix, last) == EntriesFrom(m, keys, prefix, after)
    decreases |keys|
  {
    if keys != [] {
      assert keys[0] in keys;
      if after != [] { LessTransitive(after, last, keys[0]); }
      SameBeyond(m, keys[1..], prefix, after, last);
    }
  }

  /** A key before the cursor, or not shown before, is not shown beyond it. */
  lemma HiddenBeyond(k: Bytes, prefix: Bytes, after: Bytes, last: Bytes)
    requires last != [] && (after == [] || Less(after, last))
    requires Visible(k, prefix, after) ==> !Less(last, k)
    ensures !Visible(k, prefix, last)
  {
    if Less(last, k) && after != [] { LessTransitive(after, last, k); }
  }

  lemma LastVisible(m: ByteTree, keys: seq<Bytes>, prefix: Bytes, after: Bytes, n: nat)
    requires StrictlySorted(keys) && [] !in m && forall k :: k in keys ==> k in m
    requires 1 <= n <= |EntriesFrom(m, keys, prefix, after)|
    ensures var last := EntriesFrom(m, keys, prefix, after)[n - 1].key;
      && last != [] && last in m && Visible(last, prefix, after) && keys != []
      && (Visible(keys[0], prefix, after) ==> !Less(last, keys[0]))
      && forall k :: k in keys[1..] ==> k in keys && Less(keys[0], k)
  {
    EntriesAre(m, keys, prefix, after);
    var r := EntriesFrom(m, keys, prefix, after);
    assert r[n - 1] in r;
    LessTotal(r[n - 1].key, keys[0]);
    if Visible(keys[0], prefix, after) && n > 1 {
      assert r[0].key == keys[0];
    }
  }

  lemma EntriesCons(m: ByteTree, keys: seq<Bytes>, prefix: Bytes, after: Bytes)
    requires keys != [] && forall k :: k in keys ==> k in m
    ensures keys[0] in m && forall k :: k in keys[1..] ==> k in m
    ensures EntriesFrom(m, keys, prefix, after) ==
      if Visible(keys[0], prefix, after)
      then [Row(keys[0], m[keys[0]])] + EntriesFrom(m, keys[1..], prefix, after)
      else EntriesFrom(m, keys[1..], prefix, after)
  {
    assert keys[0] in keys;
    var rest := EntriesFrom(m, keys[1..], prefix, after);
    assert [] + rest == rest;
  }

  lemma DropCons<T>(x: T, rest: seq<T>, n: nat)
    requires 1 <= n <= |rest| + 1
    ensures ([x] + rest)[n..] == rest[n - 1..]
    ensures ([x] + rest)[n - 1] == if n == 1 then x else rest[n - 2]
  {
  }

  /** Beyond the n-th key of an enumeration lies exactly the rest of it. */
  lemma {:induction false} EntriesBeyondFrom(m: ByteTree, keys: seq<Bytes>, prefix: Bytes, after: Bytes, n: nat)
    requires StrictlySorted(keys) && [] !in m && forall k :: k in keys ==> k in m
    requires 1 <= n <= |EntriesFrom(m, keys, prefix, after)|
    ensures var r := EntriesFrom(m, keys, prefix, after); EntriesFrom(m, keys, prefix, r[n - 1].key) == r[n..]
    decreases |keys|
  {
    var r, rest, k := EntriesFrom(m, keys, prefix, after), EntriesFrom(m, keys[1..], prefix, after), keys[0];
    var last := r[n - 1].key;
    LastVisible(m, keys, prefix, after, n);
    HiddenBeyond(k, prefix, after, last);
    EntriesCons(m, keys, prefix, after);
    EntriesCons(m, keys, prefix, last);
    if Visible(k, prefix, after) {
      DropCons(Row(k, m[k]), rest, n);
      if n == 1 {
        SameBeyond(m, keys[1..], prefix, after, k);
      } else {
        EntriesBeyondFrom(m, keys[1..], prefix, after, n - 1);
      }
    } else {
      EntriesBeyondFrom(m, keys[1..], prefix, after, n);
    }
  }

  // --------------------------------------------------------------------------------------
  // One page
  // --------------------------------------------------------------------------------------

  function PageOf(all: seq<Row>, limit: nat): (seq<Row>, Bytes) {
    if |all| <= limit then (all, [])
    else (all[..limit], if limit == 0 then [] else all[limit - 1].key)
  }

  lemma {:induction false} EntriesPrefix(m: ByteTree, keys: seq<Bytes>, i: nat, prefix: Bytes, after: Bytes)
    requires i <= |keys| && forall k :: k in keys ==> k in m
    ensures EntriesFrom(m, keys[..i], prefix, after) <= EntriesFrom(m, keys, prefix, after)
    decreases |keys| - i
  {
    if i < |keys| {
      assert keys[i] in keys && keys[..i + 1] == keys[..i] + [keys[i]];
      EntriesFromSnoc(m, keys[..i], keys[i], prefix, after);
      EntriesPrefix(m, keys, i + 1, prefix, after);
    } else {
      assert keys[..i] == keys;
    }
  }

  method PageOver(m: ByteTree, keys: seq<Bytes>, ghost prefix: Bytes, ghost after: Bytes, limit: nat)
    returns (rows: seq<Row>, cursor: Bytes)
    requires forall k :: k in keys ==> k in m && (Visible(k, prefix, after) <==> !IsRaw(k))
    ensures (rows, cursor) == PageOf(EntriesFrom(m, keys, prefix, after), limit)
  {
    rows, cursor := [], [];
    var hitLimit := false;
    for i := 0 to |keys|
      invariant !hitLimit && |rows| <= limit
      invariant rows == EntriesFrom(m, keys[..i], prefix, after)
      invariant cursor == if rows == [] then [] else rows[|rows| - 1].key
    {
      assert keys[i] in keys && keys[..i + 1] == keys[..i] + [keys[i]];
      EntriesFromSnoc(m, keys[..i], keys[i], prefix, after);
      if IsRaw(keys[i]) {
        continue;
      }
      if |rows| >= limit {
        EntriesPrefix(m, keys, i + 1, prefix, after);
        assert EntriesFrom(m, keys, prefix, after)[..limit] == rows;
        hitLimit := true;
        break;
      }
      rows := rows + [Row(keys[i], m[keys[i]])];
      cursor := keys[i];
    }
    if !hitLimit {
      assert keys[..|keys|] == keys;
      cursor := [];
    }
  }

  /** At most `limit` entries, and the last of their keys when more follow. */
  method Page(m: ByteTree, prefix: Bytes, after: Bytes, limit: nat) returns (rows: seq<Row>, cursor: Bytes)
    requires CursorOk(prefix, after)
    ensures (rows, cursor) == PageOf(EntriesAfter(m, prefix, after), limit)
  {
    var keys := Sorted(set k | k in m && InBounds(k, prefix, after));
    RangeEnough(m, prefix, after);
    forall k | k in keys ensures Visible(k, prefix, after) <==> !IsRaw(k) { BoundsArePrefix(k, prefix, after); }
    rows, cursor := PageOver(m, keys, prefix, after, limit);
  }

  /** Beyond the last key of a page lies exactly what the page left out. */
  lemma EntriesBeyond(m: ByteTree, prefix: Bytes, after: Bytes, n: nat)
    requires 1 <= n <= |EntriesAfter(m, prefix, after)| && [] !in m
    ensures var all := EntriesAfter(m, prefix, after);
      && EntriesAfter(m, prefix, all[n - 1].key) == all[n..]
      && CursorOk(prefix, all[n - 1].key) && all[n - 1].key != []
  {
    EntriesBeyondFrom(m, Sorted(m.Keys), prefix, after, n);
    LastVisible(m, Sorted(m.Keys), prefix, after, n);
    PrefixRange(prefix, EntriesAfter(m, prefix, after)[n - 1].key);
  }

  // --------------------------------------------------------------------------------------
  // Following cursors
  // --------------------------------------------------------------------------------------

  /** All pages of an unchanging store: following cursors ends, and returns each entry once. */
  function Walk(m: ByteTree, prefix: Bytes, after: Bytes, limit: nat): (r: seq<Row>)
    requires limit >= 1 && [] !in m
    ensures r == EntriesAfter(m, prefix, after)
    decreases |EntriesAfter(m, prefix, after)|
  {
    var all := EntriesAfter(m, prefix, after);
    if |all| <= limit then all
    else
      EntriesBeyond(m, prefix, after, limit);
      var (rows, cursor) := PageOf(all, limit);
      rows + Walk(m, prefix, cursor, limit)
  }

  /** Pages taken one from each of a series of stores, and whether the last of them ended it. */
  function Follow(ms: seq<ByteTree>, prefix: Bytes, after: Bytes, limit: nat): (seq<Row>, bool) {
    if ms == [] then ([], false)
    else
      var (rows, cursor) := PageOf(EntriesAfter(ms[0], prefix, after), limit);
      if cursor == [] then (rows, true)
      else
        var (more, ended) := Follow(ms[1..], prefix, cursor, limit);
        (rows + more, ended)
  }

  ghost predicate Beyond(rows: seq<Row>, prefix: Bytes, after: Bytes) {
    forall r :: r in rows ==> Visible(r.key, prefix, after)
  }

  ghost predicate EntriesIn(rows: seq<Row>, m: ByteTree) {
    forall r :: r in rows ==> r.key in m && m[r.key] == r.value
  }

  lemma PageParts(all: seq<Row>, limit: nat, prefix: Bytes, after: Bytes, m: ByteTree)
    requires limit >= 1 && Ascending(all) && Beyond(all, prefix, after) && EntriesIn(all, m)
    ensures var (rows, cursor) := PageOf(all, limit);
      && Ascending(rows) && Beyond(rows, prefix, after) && EntriesIn(rows, m)
      && (cursor != [] ==> rows != [] && cursor == rows[|rows| - 1].key)
  {
    assert forall r :: r in PageOf(all, limit).0 ==> r in all;
  }

  lemma PageRows(m: ByteTree, prefix: Bytes, after: Bytes, limit: nat)
    requires limit >= 1 && [] !in m
    ensures var (rows, cursor) := PageOf(EntriesAfter(m, prefix, after), limit);
      && Ascending(rows) && Beyond(rows, prefix, after) && EntriesIn(rows, m)
      && (cursor != [] ==> rows != [] && cursor == rows[|rows| - 1].key)
  {
    EntriesAre(m, Sorted(m.Keys), prefix, after);
    var all := EntriesAfter(m, prefix, after);
    assert Beyond(all, prefix, after) && EntriesIn(all, m);
    PageParts(all, limit, prefix, after, m);
  }

  /** A visible key that is not past the page's cursor is on the page. */
  lemma PageHas(m: ByteTree, prefix: Bytes, after: Bytes, limit: nat, k: Bytes)
    requires limit >= 1 && [] !in m && k in m && Visible(k, prefix, after)
    ensures var (rows, cursor) := PageOf(EntriesAfter(m, prefix, after), limit);
      cursor == [] || !Less(cursor, k) ==> Row(k, m[k]) in rows
  {
    EntriesAre(m, Sorted(m.Keys), prefix, after);
    var all := EntriesAfter(m, prefix, after);
    var i :| 0 <= i < |all| && all[i] == Row(k, m[k]) by { assert Row(k, m[k]) in all; }
    if |all| > limit {
      assert all[limit - 1] in all;
      assert i < limit ==> all[..limit][i] == all[i];
    }
  }

  lemma AppendAscending(a: seq<Row>, b: seq<Row>, prefix: Bytes, after: Bytes)
    requires a != [] && Ascending(a) && Ascending(b)
    requires Beyond(a, prefix, after) && Beyond(b, prefix, a[|a| - 1].key)
    requires a[|a| - 1].key != []
    ensures Ascending(a + b) && Beyond(a + b, prefix, after)
  {
    var last := a[|a| - 1];
    assert last in a;
    forall r | r in b ensures Less(last.key, r.key) && (after == [] || Less(after, r.key)) {
      if after != [] { LessTransitive(after, last.key, r.key); }
    }
    forall x, y | x in a && y in b ensures Less(x.key, y.key) {
      var i :| 0 <= i < |a| && a[i] == x;
      if i < |a| - 1 { LessTransitive(x.key, last.key, y.key); }
    }
    forall i, j | 0 <= i < j < |a + b| ensures Less((a + b)[i].key, (a + b)[j].key) {
      if i < |a| && j >= |a| { assert a[i] in a && b[j - |a|] in b; }
    }
  }

  /** Whatever happens to the store between pages, the keys returned ascend strictly, so none is
      returned twice, and every row was an entry of the store its page was taken from. */
  lemma {:induction false} FollowAscends(ms: seq<ByteTree>, prefix: Bytes, after: Bytes, limit: nat)
    requires limit >= 1 && forall m :: m in ms ==> [] !in m
    ensures Ascending(Follow(ms, prefix, after, limit).0)
    ensures Beyond(Follow(ms, prefix, after, limit).0, prefix, after)
    ensures forall r :: r in Follow(ms, prefix, after, limit).0 ==>
      exists m :: m in ms && r.key in m && m[r.key] == r.value
    decreases |ms|
  {
    if ms != [] {
      assert ms[0] in ms;
      PageRows(ms[0], prefix, after, limit);
      var (rows, cursor) := PageOf(EntriesAfter(ms[0], prefix, after), limit);
      if cursor != [] {
        FollowAscends(ms[1..], prefix, cursor, limit);
        AppendAscending(rows, Follow(ms[1..], prefix, cursor, limit).0, prefix, after);
      }
    }
  }

  /** When the pages have come to an end, a key that was there all along has been returned. */
  lemma {:induction false} FollowComplete(ms: seq<ByteTree>, prefix: Bytes, after: Bytes, limit: nat, k: Bytes)
    requires limit >= 1 && forall m :: m in ms ==> [] !in m && k in m
    requires Follow(ms, prefix, after, limit).1 && Visible(k, prefix, after)
    ensures exists r :: r in Follow(ms, prefix, after, limit).0 && r.key == k
    decreases |ms|
  {
    assert ms[0] in ms;
    PageRows(ms[0], prefix, after, limit);
    PageHas(ms[0], prefix, after, limit, k);
    var (rows, cursor) := PageOf(EntriesAfter(ms[0], prefix, after), limit);
    if cursor == [] || !Less(cursor, k) {
      assert Row(k, ms[0][k]) in Follow(ms, prefix, after, limit).0;
    } else {
      FollowComplete(ms[1..], prefix, cursor, limit, k);
    }
  }

  // --------------------------------------------------------------------------------------
  // The iterator
  // --------------------------------------------------------------------------------------

  /** The first `budget` rows; no budget is no bound. */
  function Take(rows: seq<Row>, budget: Option<nat>): seq<Row> {
    if budget.Some? && budget.value < |rows| then rows[..budget.value] else rows
  }

  function Spend(budget: Option<nat>, n: nat): Option<nat>
    requires budget.Some? ==> n <= budget.value
  {
    if budget.Some? then Some(budget.value - n) else None
  }

  lemma TakeParts(all: seq<Row>, n: nat, budget: Option<nat>)
    requires n <= |all| && (budget.Some? ==> n <= budget.value)
    ensures all[..n] + Take(all[n..], Spend(budget, n)) == Take(all, budget)
  {
  }

  /** A page and what the rest of the budget takes beyond it are what the budget takes. */
  lemma PageTaken(m: ByteTree, prefix: Bytes, after: Bytes, limit: nat, budget: Option<nat>)
    requires CursorOk(prefix, after) && [] !in m && limit >= 1 && (budget.Some? ==> limit <= budget.value)
    ensures var (rows, cursor) := PageOf(EntriesAfter(m, prefix, after), limit);
      && |rows| <= limit && CursorOk(prefix, cursor) && (rows == [] ==> cursor == [])
      && rows + (if cursor == [] then [] else Take(EntriesAfter(m, prefix, cursor), Spend(budget, |rows|)))
        == Take(EntriesAfter(m, prefix, after), budget)
  {
    var all := EntriesAfter(m, prefix, after);
    if |all| > limit {
      EntriesBeyond(m, prefix, after, limit);
      TakeParts(all, limit, budget);
    } else {
      assert all + [] == all;
    }
  }

  /** The scan iterator: pages are fetched as the rows of the last one run out. */
  class ScanCursor {
    const prefix: Bytes
    const pageSize: nat
    var after: Bytes
    var budget: Option<nat>
    var buffer: seq<Row>
    var offset: nat
    var done: bool

    ghost predicate Valid()
      reads this
    {
      pageSize >= 1 && offset <= |buffer| && CursorOk(prefix, after)
    }

    /** What the iterator still yields if the store is `m` from now on. */
    ghost function Remaining(m: ByteTree): seq<Row>
      requires Valid()
      reads this
    {
      buffer[offset..] + if done then [] else Take(EntriesAfter(m, prefix, after), budget)
    }

    constructor (prefix: Bytes, after: Bytes, limit: Option<nat>, pageSize: nat)
      requires CursorOk(prefix, after)
      ensures Valid()
      ensures forall m :: Remaining(m) == Take(EntriesAfter(m, prefix, after), limit)
    {
      this.prefix, this.after, this.budget := prefix, after, limit;
      this.pageSize := if pageSize >= 1 then pageSize else 1;
      buffer, offset, done := [], 0, false;
    }

    /** Yields the first remaining row, and nothing only when none remains. */
    method Next(m: ByteTree) returns (r: Option<Row>)
      requires Valid() && [] !in m
      modifies this
      ensures Valid()
      ensures r.None? ==> old(Remaining(m)) == [] == Remaining(m)
      ensures r.Some? ==> old(Remaining(m)) == [r.value] + Remaining(m)
    {
      if offset >= |buffer| {
        if done || budget == Some(0) {
          return None;
        }
        Fetch(m);
        if |buffer| == 0 && done {
          return None;
        }
      }
      var row := TakeBuffered(m);
      r := Some(row);
    }

    method TakeBuffered(ghost m: ByteTree) returns (row: Row)
      requires Valid() && offset < |buffer|
      modifies this`offset
      ensures Valid() && old(Remaining(m)) == [row] + Remaining(m)
    {
      row := buffer[offset];
      ghost var later := if done then [] else Take(EntriesAfter(m, prefix, after), budget);
      assert buffer[offset..] == [row] + buffer[offset + 1..];
      Assoc([row], buffer[offset + 1..], later);
      offset := offset + 1;
    }

    method Fetch(m: ByteTree)
      requires Valid() && [] !in m && offset >= |buffer| && !done && budget != Some(0)
      modifies this
      ensures Valid() && offset == 0
      ensures Remaining(m) == old(Remaining(m))
      ensures |buffer| == 0 ==> done
    {
      var limit := if budget.Some? && budget.value < pageSize then budget.value else pageSize;
      PageTaken(m, prefix, after, limit, budget);
      var rows, cursor := Page(m, prefix, after, limit);
      buffer, offset, after := rows, 0, cursor;
      budget := Spend(budget, |buffer|);
      done := cursor == [];
      assert buffer[0..] == buffer;
    }
  }
}
