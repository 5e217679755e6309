/** The loops that list and scan the store, and what a listing of a whole store shows. */
module Listing {
  import opened Bytes
  import opened FieldSplitter
  import opened Enumerate

  // --------------------------------------------------------------------------------------
  // Listing into a vector
  // --------------------------------------------------------------------------------------

  method SplitLeaf(path: Bytes, value: Bytes, prefix: Bytes, out: seq<Row>) returns (r: seq<Row>)
    ensures r == out + LeafRows(path, value, prefix)
    decreases |value|
  {
    if StartsObject(value) {
      var fields := SplitObjectFields(value);
      if fields.Some? {
        var ms := fields.value;
        r := out;
        var i := 0;
        ghost var all := out + MemberRows(path, ms, prefix, |value|);
        assert ms[0..] == ms;
        while i < |ms|
          invariant 0 <= i <= |ms|
          invariant r + MemberRows(path, ms[i..], prefix, |value|) == all
        {
          assert ms[i] in ms && ms[i..][1..] == ms[i + 1..];
          Assoc(r, LeafRows(path + [DOT] + ms[i].name, ms[i].text, prefix),
            MemberRows(path, ms[i + 1..], prefix, |value|));
          r := SplitLeaf(path + [DOT] + ms[i].name, ms[i].text, prefix, r);
          i := i + 1;
        }
        assert r + [] == r;
        return;
      }
    }
    r := if prefix <= path then out + [Row(path, value)] else out;
  }

  method AncestorEntries(m: ByteTree, prefix: Bytes) returns (keys: seq<Bytes>)
    ensures keys == AncestorKeys(m.Keys, prefix, 1)
  {
    keys := [];
    if prefix == [] {
      return;
    }
    for index := 1 to |prefix|
      invariant keys + AncestorKeys(m.Keys, prefix, index) == AncestorKeys(m.Keys, prefix, 1)
    {
      ghost var rest := AncestorKeys(m.Keys, prefix, index + 1);
      if prefix[index] == DOT && prefix[..index] in m {
        Assoc(keys, [prefix[..index]], rest);
        keys := keys + [prefix[..index]];
      } else {
        assert [] + rest == rest;
      }
    }
    assert keys + [] == keys;
  }

  method ListKeys(m: ByteTree, keys: seq<Bytes>, prefix: Bytes, out: seq<Row>) returns (r: seq<Row>)
    requires forall k :: k in keys ==> k in m
    ensures r == out + RowsOf(m, NonRaw(keys), prefix)
  {
    r := out;
    ghost var all := out + RowsOf(m, NonRaw(keys), prefix);
    assert keys[0..] == keys;
    for i := 0 to |keys|
      invariant r + RowsOf(m, NonRaw(keys[i..]), prefix) == all
    {
      var k := keys[i];
      assert k in keys && keys[i..][1..] == keys[i + 1..];
      if IsRaw(k) {
        continue;
      }
      assert NonRaw(keys[i..]) == [k] + NonRaw(keys[i + 1..]);
      assert ([k] + NonRaw(keys[i + 1..]))[1..] == NonRaw(keys[i + 1..]);
      Assoc(r, LeafRows(k, m[k], prefix), RowsOf(m, NonRaw(keys[i + 1..]), prefix));
      r := SplitLeaf(k, m[k], prefix, r);
    }
    assert r + [] == r;
  }

  /** List everything under a prefix. */
  method ListAll(m: ByteTree, prefix: Bytes) returns (out: seq<Row>)
    ensures out == All(m, prefix)
    ensures [] !in m && !IsRaw(prefix) ==> out == Filter(All(m, []), prefix)
  {
    if [] !in m && !IsRaw(prefix) { AllIsFilter(m, prefix); }
    AncestorKeysStored(m.Keys, prefix, 1);
    out := [];
    var ancestors := AncestorEntries(m, prefix);
    ghost var all := RowsOf(m, ancestors, prefix);
    assert ancestors[0..] == ancestors && out + all == all;
    for i := 0 to |ancestors|
      invariant out + RowsOf(m, ancestors[i..], prefix) == all
    {
      var k := ancestors[i];
      assert k in ancestors && ancestors[i..][1..] == ancestors[i + 1..];
      Assoc(out, LeafRows(k, m[k], prefix), RowsOf(m, ancestors[i + 1..], prefix));
      out := SplitLeaf(k, m[k], prefix, out);
    }
    assert out + [] == out;
    var range := Sorted(set k | k in m && InBounds(k, prefix, []));
    out := ListKeys(m, range, prefix, out);
  }

  // --------------------------------------------------------------------------------------
  // Scanning with a callback
  // --------------------------------------------------------------------------------------

  /** As many of the rows as there was room for were seen, in order. */
  ghost predicate Took(seen: seq<Row>, room: nat, rows: seq<Row>, seen': seq<Row>, room': nat) {
    var n := if |rows| <= room then |rows| else room;
    seen' == seen + rows[..n] && room' == room - n
  }

  /** A callback that accepts a number of rows and then fails. */
  class Sink {
    var seen: seq<Row>
    var room: nat

    constructor (room: nat)
      ensures seen == [] && this.room == room
    {
      this.seen, this.room := [], room;
    }

    method Accept(row: Row) returns (ok: bool)
      modifies this
      ensures ok == (old(room) > 0)
      ensures Took(old(seen), old(room), [row], seen, room)
    {
      ok := room > 0;
      if ok {
        seen, room := seen + [row], room - 1;
      }
    }
  }

  lemma TookBoth(seen: seq<Row>, room: nat, a: seq<Row>, s: seq<Row>, r: nat, b: seq<Row>, s': seq<Row>, r': nat)
    requires Took(seen, room, a, s, r)
    requires if |a| <= room then Took(s, r, b, s', r') else (s', r') == (s, r)
    ensures Took(seen, room, a + b, s', r')
  {
    if |a| <= room {
      var n := if |b| <= r then |b| else r;
      assert (a + b)[..|a| + n] == a + b[..n] && a[..|a|] == a;
    } else {
      assert (a + b)[..room] == a[..room];
    }
  }

  method ScanLeaf(path: Bytes, value: Bytes, prefix: Bytes, f: Sink) returns (ok: bool)
    modifies f
    ensures ok == (|LeafRows(path, value, prefix)| <= old(f.room))
    ensures Took(old(f.seen), old(f.room), LeafRows(path, value, prefix), f.seen, f.room)
    decreases |value|
  {
    if StartsObject(value) {
      var fields := SplitObjectFields(value);
      if fields.Some? {
        ok := ScanMembers(path, fields.value, prefix, |value|, f);
        return;
      }
    }
    if prefix <= path {
      ok := f.Accept(Row(path, value));
    } else {
      ok := true;
    }
  }

  method ScanMembers(path: Bytes, ms: seq<Member>, prefix: Bytes, bound: nat, f: Sink) returns (ok: bool)
    requires forall m :: m in ms ==> |m.text| < bound
    modifies f
    ensures ok == (|MemberRows(path, ms, prefix, bound)| <= old(f.room))
    ensures Took(old(f.seen), old(f.room), MemberRows(path, ms, prefix, bound), f.seen, f.room)
    decreases bound, 0
  {
    ghost var done: seq<Row> := [];
    assert ms[0..] == ms;
    for i := 0 to |ms|
      invariant Took(old(f.seen), old(f.room), done, f.seen, f.room) && |done| <= old(f.room)
      invariant done + MemberRows(path, ms[i..], prefix, bound) == MemberRows(path, ms, prefix, bound)
    {
      assert ms[i] in ms && ms[i..][1..] == ms[i + 1..];
      ghost var rows := LeafRows(path + [DOT] + ms[i].name, ms[i].text, prefix);
      ghost var rest := MemberRows(path, ms[i + 1..], prefix, bound);
      ghost var s, r := f.seen, f.room;
      var more := ScanLeaf(path + [DOT] + ms[i].name, ms[i].text, prefix, f);
      TookBoth(old(f.seen), old(f.room), done, s, r, rows, f.seen, f.room);
      Assoc(done, rows, rest);
      done := done + rows;
      if !more {
        TookBoth(old(f.seen), old(f.room), done, f.seen, f.room, rest, f.seen, f.room);
        return false;
      }
    }
    assert done + [] == done;
    return true;
  }

  method ScanKeys(m: ByteTree, keys: seq<Bytes>, prefix: Bytes, f: Sink) returns (ok: bool)
    requires forall k :: k in keys ==> k in m
    modifies f
    ensures ok == (|RowsOf(m, keys, prefix)| <= old(f.room))
    ensures Took(old(f.seen), old(f.room), RowsOf(m, keys, prefix), f.seen, f.room)
  {
    ghost var done: seq<Row> := [];
    assert keys[0..] == keys;
    for i := 0 to |keys|
      invariant Took(old(f.seen), old(f.room), done, f.seen, f.room) && |done| <= old(f.room)
      invariant done + RowsOf(m, keys[i..], prefix) == RowsOf(m, keys, prefix)
    {
      var k := keys[i];
      assert k in keys && keys[i..][1..] == keys[i + 1..];
      ghost var rows, rest := LeafRows(k, m[k], prefix), RowsOf(m, keys[i + 1..], prefix);
      ghost var s, r := f.seen, f.room;
      var more := ScanLeaf(k, m[k], prefix, f);
      TookBoth(old(f.seen), old(f.room), done, s, r, rows, f.seen, f.room);
      Assoc(done, rows, rest);
      done := done + rows;
      if !more {
        TookBoth(old(f.seen), old(f.room), done, f.seen, f.room, rest, f.seen, f.room);
        return false;
      }
    }
    assert done + [] == done;
    return true;
  }

  /** A scan calls back with exactly the rows of the listing, in order, until the callback fails. */
  method Scan(m: ByteTree, prefix: Bytes, f: Sink) returns (ok: bool)
    modifies f
    ensures ok == (|All(m, prefix)| <= old(f.room))
    ensures Took(old(f.seen), old(f.room), All(m, prefix), f.seen, f.room)
  {
    AncestorKeysStored(m.Keys, prefix, 1);
    var ancestors := AncestorEntries(m, prefix);
    var range := NonRaw(Sorted(set k | k in m && InBounds(k, prefix, [])));
    ghost var a, b := RowsOf(m, ancestors, prefix), RowsOf(m, range, prefix);
    ok := ScanKeys(m, ancestors, prefix, f);
    ghost var s, r := f.seen, f.room;
    if ok {
      ok := ScanKeys(m, range, prefix, f);
    }
    TookBoth(old(f.seen), old(f.room), a, s, r, b, f.seen, f.room);
  }
}
