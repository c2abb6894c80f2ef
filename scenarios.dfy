/** The behaviours the database tests exercise, stated for any keys and
    values: a store filled with three entries and closed reads them back
    once reopened, an unknown key is an error, and an overwritten value, of
    any length, is read back before and after the store is reopened. */
module Scenarios {
  import opened Bytes
  import opened Layout
  import opened Coordinator
  import opened Store

  /** The lookups of a store holding three entries. */
  lemma ThreeEntries(c: map<Key, seq<byte>>, k1: Key, v1: seq<byte>, k2: Key, v2: seq<byte>,
                     k3: Key, v3: seq<byte>, other: Key)
    requires k1 != k2 && k1 != k3 && k2 != k3
    requires c == map[k1 := v1, k2 := v2, k3 := v3]
    ensures k1 in c && c[k1] == v1 && k2 in c && c[k2] == v2 && k3 in c && c[k3] == v3
    ensures other in c <==> other == k1 || other == k2 || other == k3
  {
  }

  /** Updating one key of a store's lookups leaves another key's value. */
  lemma Updated(c: map<Key, seq<byte>>, c': map<Key, seq<byte>>, k1: Key, v1: seq<byte>, k2: Key, v: seq<byte>)
    requires k1 != k2 && k1 in c && c[k1] == v1 && c' == c[k2 := v]
    ensures k1 in c' && c'[k1] == v1 && k2 in c' && c'[k2] == v
  {
  }

  /** Three puts into a new store. */
  method FillNew(k1: Key, v1: seq<byte>, k2: Key, v2: seq<byte>, k3: Key, v3: seq<byte>)
    returns (s: BasicStore)
    ensures fresh(s) && fresh(s.dataF) && fresh(s.indexF) && s.Valid()
    ensures s.DiskNow() == FreshDisk()
    ensures s.memcache == map[][k1 := v1][k2 := v2][k3 := v3] && s.dirty == {} + {k1} + {k2} + {k3}
    ensures s.Contents() == map[][k1 := v1][k2 := v2][k3 := v3]
  {
    var r := Open(None, None);
    s := r.value;
    s.Put(k1, v1);
    s.Put(k2, v2);
    s.Put(k3, v3);
  }

  /** Three puts into a new store, then `close`. */
  method PreFilled(k1: Key, v1: seq<byte>, k2: Key, v2: seq<byte>, k3: Key, v3: seq<byte>)
    returns (s: BasicStore)
    requires k1 != k2 && k1 != k3 && k2 != k3
    requires |k1| < U32Limit && |k2| < U32Limit && |k3| < U32Limit
    requires |v1| < U32Limit && |v2| < U32Limit && |v3| < U32Limit
    ensures fresh(s) && fresh(s.dataF) && fresh(s.indexF) && s.Valid() && s.dirty == {}
    ensures |s.index| <= 3 && |s.dataF.content| <= 4 + 3 * MaxBlockSpan
    ensures s.Contents() == map[k1 := v1, k2 := v2, k3 := v3]
  {
    s := FillNew(k1, v1, k2, v2, k3, v3);
    ghost var d, mc, dy := s.DiskNow(), s.memcache, s.dirty;
    Filled(d, mc, dy, k1, v1, k2, v2, k3, v3);
    s.Close();
  }

  /** What three puts into a new store leave to flush. */
  lemma Filled(d: Disk, mc: map<Key, seq<byte>>, dy: set<Key>,
               k1: Key, v1: seq<byte>, k2: Key, v2: seq<byte>, k3: Key, v3: seq<byte>)
    requires k1 != k2 && k1 != k3 && k2 != k3
    requires |k1| < U32Limit && |k2| < U32Limit && |k3| < U32Limit
    requires |v1| < U32Limit && |v2| < U32Limit && |v3| < U32Limit
    requires d == FreshDisk() && mc == map[][k1 := v1][k2 := v2][k3 := v3]
    requires dy == {} + {k1} + {k2} + {k3}
    ensures Representable(d, mc, dy) && dy == {k1, k2, k3} && |dy| == 3
    ensures |d.data| == 4 && |d.index| == 0 && mc == map[k1 := v1, k2 := v2, k3 := v3]
  {
    assert |dy| == 3 && MaxBlockSpan < 0x4_0000_0000;
  }

  /** A pre-filled store, closed and opened again. */
  method ReopenedPreFilled(k1: Key, v1: seq<byte>, k2: Key, v2: seq<byte>, k3: Key, v3: seq<byte>)
    returns (t: BasicStore)
    requires k1 != k2 && k1 != k3 && k2 != k3
    requires |k1| < U32Limit && |k2| < U32Limit && |k3| < U32Limit
    requires |v1| < U32Limit && |v2| < U32Limit && |v3| < U32Limit
    ensures fresh(t) && fresh(t.dataF) && fresh(t.indexF) && t.Valid() && t.dirty == {}
    ensures |t.index| <= 3 && |t.dataF.content| <= 4 + 3 * MaxBlockSpan
    ensures t.Contents() == map[k1 := v1, k2 := v2, k3 := v3]
  {
    var s := PreFilled(k1, v1, k2, v2, k3, v3);
    t := Reopen(s);
  }

  /** Reopening a pre-filled store gives back every value put. */
  method ReadsBack(k1: Key, v1: seq<byte>, k2: Key, v2: seq<byte>, k3: Key, v3: seq<byte>)
    returns (r1: Result<seq<byte>>, r2: Result<seq<byte>>, r3: Result<seq<byte>>)
    requires k1 != k2 && k1 != k3 && k2 != k3
    requires |k1| < U32Limit && |k2| < U32Limit && |k3| < U32Limit
    requires |v1| < U32Limit && |v2| < U32Limit && |v3| < U32Limit
    ensures r1 == Ok(v1) && r2 == Ok(v2) && r3 == Ok(v3)
  {
    var t := ReopenedPreFilled(k1, v1, k2, v2, k3, v3);
    ghost var c := t.Contents();
    ThreeEntries(c, k1, v1, k2, v2, k3, v3, k1);
    r1 := t.Get(k1);
    r2 := t.Get(k2);
    r3 := t.Get(k3);
  }

  /** A key that was never put is a `NoKeyError`. */
  method MissingKey(k1: Key, v1: seq<byte>, k2: Key, v2: seq<byte>, k3: Key, v3: seq<byte>, other: Key)
    returns (r: Result<seq<byte>>)
    requires k1 != k2 && k1 != k3 && k2 != k3
    requires |k1| < U32Limit && |k2| < U32Limit && |k3| < U32Limit
    requires |v1| < U32Limit && |v2| < U32Limit && |v3| < U32Limit
    requires other != k1 && other != k2 && other != k3
    ensures r == Err(NoKeyError)
  {
    var t := ReopenedPreFilled(k1, v1, k2, v2, k3, v3);
    ghost var c := t.Contents();
    ThreeEntries(c, k1, v1, k2, v2, k3, v3, other);
    r := t.Get(other);
  }

  /** On an open store with nothing dirty: `key` is read, overwritten with
      `v`, read again, and the store is closed. */
  method OverwriteAndClose(t: BasicStore, key: Key, v: seq<byte>)
    returns (before: Result<seq<byte>>, after: Result<seq<byte>>)
    requires t.Valid() && t.dirty == {} && |key| < U32Limit && |v| < U32Limit
    requires |t.index| <= 3 && |t.dataF.content| <= 4 + 3 * MaxBlockSpan
    modifies t, t.dataF, t.indexF
    ensures t.Valid() && t.dirty == {} && t.Contents() == old(t.Contents())[key := v]
    ensures before == if key in old(t.Contents()) then Ok(old(t.Contents())[key]) else Err(NoKeyError)
    ensures after == Ok(v)
  {
    before := t.Get(key);
    t.Put(key, v);
    after := t.Get(key);
    ghost var d, mc, dy := t.DiskNow(), t.memcache, t.dirty;
    OneDirty(d, mc, dy, key, v);
    t.Close();
  }

  /** What one put into a store with nothing dirty leaves to flush. */
  lemma OneDirty(d: Disk, mc: map<Key, seq<byte>>, dy: set<Key>, key: Key, v: seq<byte>)
    requires |key| < U32Limit && |v| < U32Limit && dy == {} + {key} && key in mc && mc[key] == v
    requires |d.index| <= 3 && |d.data| <= 4 + 3 * MaxBlockSpan
    ensures Representable(d, mc, dy)
  {
    assert |dy| == 1 && MaxBlockSpan < 0x4_0000_0000;
  }

  /** Overwriting the second key, with a shorter value written in place or
      a longer one moved to a new block, reads the new value back before and
      after `close` and reopening, and leaves the other keys as they were. */
  method Overwrites(k1: Key, v1: seq<byte>, k2: Key, v2: seq<byte>, k3: Key, v3: seq<byte>,
                    v: seq<byte>)
    returns (before: Result<seq<byte>>, after: Result<seq<byte>>, reopened: Result<seq<byte>>,
             others: Result<seq<byte>>)
    requires k1 != k2 && k1 != k3 && k2 != k3
    requires |k1| < U32Limit && |k2| < U32Limit && |k3| < U32Limit
    requires |v1| < U32Limit && |v2| < U32Limit && |v3| < U32Limit && |v| < U32Limit
    ensures before == Ok(v2) && after == Ok(v) && reopened == Ok(v) && others == Ok(v1)
  {
    var t := ReopenedPreFilled(k1, v1, k2, v2, k3, v3);
    ghost var c := t.Contents();
    ThreeEntries(c, k1, v1, k2, v2, k3, v3, k1);
    before, after := OverwriteAndClose(t, k2, v);
    var u := Reopen(t);
    ghost var c' := u.Contents();
    Updated(c, c', k1, v1, k2, v);
    reopened := u.Get(k2);
    others := u.Get(k1);
  }
}
