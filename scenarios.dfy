/**
 * The scenarios of test/tests.c restated as client methods of `Table`:
 * each method makes the calls of a test on one table and returns what the
 * test reads back, and its contract states the values the test requires.
 * The scenarios hold for any two distinct keys and any 4-byte (`int`)
 * values; the `...AsTested` methods instantiate them with the tests' own
 * keys, C strings passed with their terminating zero byte
 * (`strlen(key) + 1`), and the tests' small `int` values.
 */
module Scenarios {
  import opened Hashing
  import opened Sizing
  import opened ChashMap

  /** "key1" and "key2" with their terminating zero byte. */
  const KEY1: Bytes := [0x6b, 0x65, 0x79, 0x31, 0]
  const KEY2: Bytes := [0x6b, 0x65, 0x79, 0x32, 0]
  /** "" as the tests pass it: a single zero byte, not an empty key. */
  const EMPTY_STRING: Bytes := [0]

  /** The 4 little-endian bytes of a small non-negative `int`. */
  function SmallInt(v: nat): (b: Bytes)
    requires v < 256
    ensures |b| == 4 && LeValue(b) == v
  {
    assert LeValue([0, 0, 0]) == 0 by {
      assert [0, 0, 0][1..] == [0, 0] && [0, 0][1..] == [0];
    }
    assert [v, 0, 0, 0][1..] == [0, 0, 0];
    [v, 0, 0, 0]
  }

  /** `insert_string_to_int` on a table below its scale-up threshold, every
      allocation succeeding: the table maps `key` to `val` and the count
      rises exactly when the key is new. */
  method Put(t: Table, key: Bytes, val: Bytes) returns (ok: bool)
    requires t.Valid() && |key| > 0 && |val| > 0
    requires t.count + 1 < t.upThr
    modifies t, t.buckets
    ensures t.Valid() && ok
    ensures t.buckets == old(t.buckets)
    ensures t.contents == old(t.contents)[key := val]
    ensures t.count == if key in old(t.contents) then old(t.count) else old(t.count) + 1
    ensures t.Sizes() == old(t.Sizes())
  {
    ok := t.Insert(key, val, true, true, true);
  }

  /** `delete_int_from_string` on a table below the shrink floor: the key
      is gone and the count falls exactly when the key was present. */
  method Remove(t: Table, key: Bytes)
    requires t.Valid() && t.cap < MIN_SHRINK_CAPACITY
    modifies t, t.buckets
    ensures t.Valid()
    ensures t.buckets == old(t.buckets)
    ensures t.contents == old(t.contents) - {key}
    ensures t.count == if key in old(t.contents) then old(t.count) - 1 else old(t.count)
    ensures t.Sizes() == old(t.Sizes())
  {
    t.Delete(key, true);
  }

  /** `get_int_from_string`: copies the value of `key` into a 4-byte buffer. */
  method GetInt(t: Table, key: Bytes) returns (ok: bool, v: Bytes)
    requires t.Valid()
    ensures ok <==> |key| > 0 && key in t.contents
    ensures ok && |t.contents[key]| == 4 ==> v == t.contents[key]
  {
    var buf := new Byte[4](_ => 0);
    ok := t.GetCopy(key, buf);
    v := buf[..];
    if ok && |t.contents[key]| == 4 {
      assert forall q | 0 <= q < 4 :: v[q] == t.contents[key][q];
    }
  }

  /** Inserts two distinct keys into an empty table and reads the count. */
  method PutTwo(t: Table, k1: Bytes, k2: Bytes, a: Bytes, b: Bytes) returns (n: nat)
    requires t.Valid() && t.contents == map[] && t.upThr > 2
    requires |k1| > 0 && |k2| > 0 && k1 != k2 && |a| > 0 && |b| > 0
    modifies t, t.buckets
    ensures t.Valid() && t.buckets == old(t.buckets) && t.Sizes() == old(t.Sizes())
    ensures t.contents == map[k1 := a, k2 := b]
    ensures n == 2
  {
    var _ := Put(t, k1, a);
    var _ := Put(t, k2, b);
    n := t.Count();
  }

  /** Reads back the 4-byte values of two present keys. */
  method GetTwo(t: Table, k1: Bytes, k2: Bytes) returns (v1: Bytes, v2: Bytes)
    requires t.Valid() && |k1| > 0 && |k2| > 0 && k1 in t.contents && k2 in t.contents
    requires |t.contents[k1]| == 4 && |t.contents[k2]| == 4
    ensures v1 == t.contents[k1] && v2 == t.contents[k2]
  {
    var _, x := GetInt(t, k1);
    var _, y := GetInt(t, k2);
    v1, v2 := x, y;
  }

  /** Deletes `k1` and `miss` from an empty table and reads the count. */
  method RemoveFromEmpty(t: Table, k1: Bytes, miss: Bytes) returns (n: nat)
    requires t.Valid() && t.cap < MIN_SHRINK_CAPACITY && t.contents == map[]
    modifies t, t.buckets
    ensures t.Valid() && t.buckets == old(t.buckets) && t.Sizes() == old(t.Sizes())
    ensures t.contents == map[]
    ensures n == 0
  {
    Remove(t, k1);
    Remove(t, miss);
    n := t.Count();
  }

  /** Resets the table to a requested capacity `n`, reads the count, then
      inserts two keys and reads them back. */
  method ResetAndRefill(t: Table, n: nat, k1: Bytes, k2: Bytes, c: Bytes, d: Bytes)
      returns (ok: bool, c0: nat, c1: nat, v1: Bytes, v2: Bytes)
    requires t.Valid() && 0 < n <= MAX_CAPACITY && t.upThr > 2
    requires |k1| > 0 && |k2| > 0 && k1 != k2 && |c| == 4 && |d| == 4
    modifies t, t.buckets
    ensures t.Valid() && t.cap == ResetCapacity(n)
    ensures t.buckets == old(t.buckets) || fresh(t.buckets)
    ensures t.upThr == old(t.upThr) && t.downThr == old(t.downThr)
    ensures ok && c0 == 0 && c1 == 2 && v1 == c && v2 == d
  {
    ok := t.Reset(n, true);
    c0 := t.Count();
    c1 := PutTwo(t, k1, k2, c, d);
    v1, v2 := GetTwo(t, k1, k2);
  }

  /**
   * `basic_insertions_and_lookups`: lookups in an empty table fail; the
   * count follows an insert of `k1`, a second insert of `k1` and an insert
   * of `k2`; the second value of `k1` replaced the first.
   */
  method BasicInsertionsAndLookups(k1: Bytes, k2: Bytes, miss: Bytes, a: Bytes, b: Bytes, c: Bytes)
      returns (misses: seq<bool>, counts: seq<nat>, inserted: seq<bool>, values: seq<Bytes>)
    requires |k1| > 0 && |k2| > 0 && k1 != k2
    requires |a| == 4 && |b| == 4 && |c| == 4
    ensures misses == [false, false]
    ensures counts == [0, 1, 1, 2]
    ensures inserted == [true, true, true]
    ensures values == [b, c]
  {
    var t := Table.Create(1, true);
    var m1, _ := GetInt(t, k1);
    var m2, _ := GetInt(t, miss);
    misses := [m1, m2];
    var c0 := t.Count();
    var i1 := Put(t, k1, a);
    var c1 := t.Count();
    var i2 := Put(t, k1, b);
    var c2 := t.Count();
    var i3 := Put(t, k2, c);
    var c3 := t.Count();
    counts, inserted := [c0, c1, c2, c3], [i1, i2, i3];
    var _, v1 := GetInt(t, k1);
    var _, v2 := GetInt(t, k2);
    values := [v1, v2];
  }

  /** test/tests.c:54-78 with its own keys and values. */
  method BasicInsertionsAndLookupsAsTested() returns (values: seq<Bytes>, counts: seq<nat>)
    ensures values == [SmallInt(3), SmallInt(5)]
    ensures counts == [0, 1, 1, 2]
  {
    assert KEY1[3] != KEY2[3];
    var _, cs, _, vs := BasicInsertionsAndLookups(KEY1, KEY2, EMPTY_STRING, SmallInt(2), SmallInt(3), SmallInt(5));
    values, counts := vs, cs;
  }

  /**
   * `basic_deletions`: deleting from an empty table changes nothing; after
   * two inserts, each delete lowers the count and makes the key's lookup
   * fail; deleting again changes nothing.
   */
  method BasicDeletions(k1: Bytes, k2: Bytes, miss: Bytes, a: Bytes, b: Bytes)
      returns (counts: seq<nat>, values: seq<Bytes>, found: seq<bool>)
    requires |k1| > 0 && |k2| > 0 && k1 != k2
    requires |a| == 4 && |b| == 4
    ensures counts == [0, 0, 2, 1, 0, 0]
    ensures values == [a, b]
    ensures found == [false, false]
  {
    var t := Table.Create(1, true);
    var c0 := t.Count();
    var c1 := RemoveFromEmpty(t, k1, miss);
    var c2 := PutTwo(t, k1, k2, a, b);
    var v1, v2 := GetTwo(t, k1, k2);
    var f1, f2, c3, c4, c5 := DeleteBoth(t, k1, k2, miss);
    counts, values, found := [c0, c1, c2, c3, c4, c5], [v1, v2], [f1, f2];
  }

  /** test/tests.c:210-245 with its own keys and values. */
  method BasicDeletionsAsTested() returns (counts: seq<nat>, values: seq<Bytes>)
    ensures counts == [0, 0, 2, 1, 0, 0]
    ensures values == [SmallInt(3), SmallInt(5)]
  {
    assert KEY1[3] != KEY2[3];
    var cs, vs, _ := BasicDeletions(KEY1, KEY2, EMPTY_STRING, SmallInt(3), SmallInt(5));
    counts, values := cs, vs;
  }

  /** The second half of `basic_deletions`: deleting the two keys one after
      the other, then deleting again. */
  method DeleteBoth(t: Table, k1: Bytes, k2: Bytes, miss: Bytes) returns (f1: bool, f2: bool, c3: nat, c4: nat, c5: nat)
    requires t.Valid() && t.cap < MIN_SHRINK_CAPACITY && k1 != k2
    requires t.contents.Keys == {k1, k2}
    modifies t, t.buckets
    ensures !f1 && !f2 && c3 == 1 && c4 == 0 && c5 == 0
  {
    var v: Bytes;
    Remove(t, k1);
    f1, v := GetInt(t, k1);
    c3 := t.Count();
    Remove(t, k2);
    f2, v := GetInt(t, k2);
    c4 := t.Count();
    Remove(t, k1);
    Remove(t, miss);
    c5 := t.Count();
  }

  /** A new table at the least capacity, holding two keys. */
  method CreateWithTwo(k1: Bytes, k2: Bytes, a: Bytes, b: Bytes) returns (t: Table, n: nat)
    requires |k1| > 0 && |k2| > 0 && k1 != k2 && |a| > 0 && |b| > 0
    ensures fresh(t) && fresh(t.buckets) && t.Valid()
    ensures t.Sizes() == Limits(MIN_CAPACITY) && t.contents == map[k1 := a, k2 := b]
    ensures n == 2
  {
    var u := Table.Create(1, true);
    MinCapacityIsPow2();
    assert u.cap == MIN_CAPACITY;
    t := u;
    n := PutTwo(t, k1, k2, a, b);
  }

  /**
   * `reset`: resetting to the same rounded capacity and to a larger one
   * succeeds and empties the table, which then takes new values. After the
   * reset to 8192 the thresholds are still those of capacity 2048.
   */
  method ResetScenario(k1: Bytes, k2: Bytes, a: Bytes, b: Bytes, c: Bytes, d: Bytes)
      returns (resets: seq<bool>, counts: seq<nat>, values: seq<Bytes>, g: Geometry)
    requires |k1| > 0 && |k2| > 0 && k1 != k2
    requires |a| == 4 && |b| == 4 && |c| == 4 && |d| == 4
    ensures resets == [true, true]
    ensures counts == [2, 0, 2, 0, 2]
    ensures values == [c, d, c, d]
    ensures g == Geometry(8192, ScaleUpLimit(MIN_CAPACITY), ScaleDownLimit(MIN_CAPACITY))
  {
    var t, c0 := CreateWithTwo(k1, k2, a, b);
    var r1, c1, c2, v1, v2 := ResetAndRefill(t, 2, k1, k2, c, d);
    assert ResetCapacity(8192) == 8192 by {
      Pow2IsPow2(13);
      assert Pow2(13) == 8192;
    }
    var r2, c3, c4, v3, v4 := ResetAndRefill(t, 8192, k1, k2, c, d);
    resets, counts, values := [r1, r2], [c0, c1, c2, c3, c4], [v1, v2, v3, v4];
    g := t.Sizes();
  }

  /** test/tests.c:284-327 with its own keys and values. */
  method ResetAsTested() returns (counts: seq<nat>, values: seq<Bytes>)
    ensures counts == [2, 0, 2, 0, 2]
    ensures values == [SmallInt(4), SmallInt(6), SmallInt(4), SmallInt(6)]
  {
    assert KEY1[3] != KEY2[3];
    var _, cs, vs, _ := ResetScenario(KEY1, KEY2, SmallInt(3), SmallInt(5), SmallInt(4), SmallInt(6));
    counts, values := cs, vs;
  }
}
