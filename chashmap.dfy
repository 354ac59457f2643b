/**
 * The table of src/chashmap.c (`struct chashmap`) and its public operations.
 *
 * The bucket array is an array of chains; the global list of all nodes is
 * the sequence of their keys, head first; the ghost map `contents` is the
 * finite map the table stands for. Allocation results are parameters: a
 * `false` stands for the `malloc`, `calloc` or `realloc` that returned NULL.
 */
module ChashMap {
  import opened Hashing
  import opened Chains
  import opened GlobalList
  import opened Sizing
  import opened TableInvariant

  /**
   * The loops of `scale_chmap`: walk every chain of `src` from its head and
   * prepend each node to bucket `hash % dst.Length` of the zeroed `dst`
   * (`migrate_llist_node_to_another_llist`). The new array holds the same
   * map, every node placed for the new capacity.
   */
  method MoveAllNodes(src: array<Chain>, dst: array<Chain>, ghost m: map<Bytes, Bytes>)
    requires src != dst
    requires TableInv(src[..], m)
    requires dst.Length > 0 && forall x | 0 <= x < dst.Length :: dst[x] == []
    modifies dst
    ensures TableInv(dst[..], m)
  {
    ghost var bs := src[..];
    assert dst[..] == EmptyBuckets(dst.Length);
    RehashInit(bs, m, dst.Length);
    var i := 0;
    while i < src.Length
      invariant 0 <= i <= src.Length
      invariant RehashInv(bs, m, dst[..], i, 0)
    {
      var c := src[i];
      var p := 0;
      while p < |c|
        invariant 0 <= p <= |c|
        invariant RehashInv(bs, m, dst[..], i, p)
      {
        var e := c[p];
        var x := e.hash % dst.Length;
        RehashStep(bs, m, dst[..], i, p);
        ghost var before := dst[..];
        dst[x] := [e] + dst[x];
        assert dst[..] == before[x := [e] + before[x]];
        p := p + 1;
      }
      RehashNextBucket(bs, m, dst[..], i);
      i := i + 1;
    }
    RehashFinal(bs, m, dst[..]);
  }

  /** The map `cur` is `m0` with `f` applied to the values of the keys
      `order[..j]`, which the walk of the global list has visited. */
  ghost predicate AppliedUpTo(cur: map<Bytes, Bytes>, m0: map<Bytes, Bytes>, order: seq<Bytes>, j: nat,
                              f: (Bytes, Bytes) -> Bytes)
    requires j <= |order|
  {
    && cur.Keys == m0.Keys
    && forall k | k in m0 :: cur[k] == if k in order[..j] then f(k, m0[k]) else m0[k]
  }

  /** Visiting the next listed key applies `f` to its still untouched value. */
  lemma AppliedStep(cur: map<Bytes, Bytes>, m0: map<Bytes, Bytes>, order: seq<Bytes>, j: nat,
                    f: (Bytes, Bytes) -> Bytes)
    requires NoDup(order) && j < |order| && order[j] in m0
    requires AppliedUpTo(cur, m0, order, j, f)
    ensures order[j] in cur && cur[order[j]] == m0[order[j]]
    ensures AppliedUpTo(cur[order[j] := f(order[j], cur[order[j]])], m0, order, j + 1, f)
  {
    assert order[j] !in order[..j];
    assert order[..j + 1] == order[..j] + [order[j]];
  }

  /** After the walk over a list holding every key, every value was mapped. */
  lemma AppliedAll(cur: map<Bytes, Bytes>, m0: map<Bytes, Bytes>, order: seq<Bytes>, f: (Bytes, Bytes) -> Bytes)
    requires forall k :: k in order <==> k in m0
    requires AppliedUpTo(cur, m0, order, |order|, f)
    ensures cur.Keys == m0.Keys
    ensures forall k | k in cur :: cur[k] == f(k, m0[k])
  {
    assert order[..|order|] == order;
  }

  /** `memset` of a bucket array: every bucket becomes empty. */
  method ZeroBuckets(a: array<Chain>)
    modifies a
    ensures a[..] == EmptyBuckets(a.Length)
  {
    forall j | 0 <= j < a.Length {
      a[j] := [];
    }
  }

  /**
   * The loop of `chmap_reset` over the buckets: `destroy_the_whole_llist`
   * on every chain, whose nodes each detach themselves from the global
   * list. Since every listed key has its node in some chain, the global
   * list ends up empty.
   */
  method DetachAllNodes(bs: array<Chain>, order: seq<Bytes>, ghost m: map<Bytes, Bytes>) returns (rest: seq<Bytes>)
    requires TableInv(bs[..], m)
    requires Listed(order, m)
    ensures rest == []
  {
    ghost var s := bs[..];
    ListedNoDup(order, m);
    rest := order;
    var i := 0;
    while i < bs.Length
      invariant 0 <= i <= bs.Length
      invariant NoDup(rest)
      invariant forall k :: k in rest <==> k in m && !Done(s, i, 0, k)
      invariant |rest| == TotalLength(s) - TotalLength(s[..i])
    {
      var c := bs[i];
      var p := 0;
      while p < |c|
        invariant 0 <= p <= |c|
        invariant NoDup(rest)
        invariant forall k :: k in rest <==> k in m && !Done(s, i, p, k)
        invariant |rest| == TotalLength(s) - TotalLength(s[..i]) - p
      {
        DoneStep(s, m, i, p);
        DetachFacts(rest, c[p].key);
        rest := Detach(rest, c[p].key);
        p := p + 1;
      }
      DoneNextBucket(s, m, i);
      TotalLengthPrefix(s, i);
      i := i + 1;
    }
    assert s[..i] == s;
  }

  /** Replaces the chain of one bucket. */
  method SetBucket(a: array<Chain>, i: nat, c: Chain)
    requires i < a.Length
    modifies a
    ensures a[..] == old(a[..])[i := c]
  {
    a[i] := c;
  }

  /**
   * `mem_assign`: copies the first `min(|v|, target.Length)` bytes of `v`
   * into `target` and leaves the rest of `target` as it was (its
   * integer-width fast paths move the same bytes as `memcpy`).
   */
  method CopyValue(v: Bytes, target: array<Byte>)
    modifies target
    ensures var n := if |v| < target.Length then |v| else target.Length;
            && (forall q | 0 <= q < n :: target[q] == v[q])
            && (forall q | n <= q < target.Length :: target[q] == old(target[q]))
  {
    var n := target.Length;
    if |v| < n {
      n := |v|;
    }
    var i := 0;
    while i < n
      invariant 0 <= i <= n
      invariant forall q | 0 <= q < i :: target[q] == v[q]
      invariant forall q | i <= q < target.Length :: target[q] == old(target[q])
    {
      target[i] := v[i];
      i := i + 1;
    }
  }

  class Table {
    /** `bucket_arr`: the head of every bucket's chain. */
    var buckets: array<Chain>
    /** `bucket_arr_size`. */
    var cap: nat
    /** `elem_count`. */
    var count: nat
    /** `elem_count_to_scale_up`. */
    var upThr: nat
    /** `elem_count_to_scale_down`. */
    var downThr: nat
    /** `head_of_all_elems`: the keys of the nodes on the global list, from its head. */
    var order: seq<Bytes>
    /** The map from keys to values the table stands for. */
    ghost var contents: map<Bytes, Bytes>

    /**
     * The table's invariant: the capacity is a power of two within bounds and
     * is the array's length, the chains hold exactly `contents`, and the
     * count, the global list and the chains all have one node per key.
     */
    ghost predicate Valid()
      reads this, buckets
    {
      && buckets.Length == cap
      && IsCapacity(cap)
      && TableInv(buckets[..], contents)
      && count == |contents|
      && Listed(order, contents)
    }

    /** Capacity and thresholds, as the tests read them back. */
    function Sizes(): Geometry
      reads this
    {
      Geometry(cap, upThr, downThr)
    }

    /** An empty table of capacity `c` with its thresholds set. */
    constructor Init(c: nat)
      requires IsCapacity(c)
      ensures Valid() && fresh(buckets)
      ensures cap == c && contents == map[] && order == [] && count == 0
      ensures Sizes() == Limits(c)
    {
      buckets := new Chain[c](_ => []);
      cap := c;
      count := 0;
      order := [];
      contents := map[];
      upThr := ScaleUpLimit(c);
      downThr := ScaleDownLimit(c);
      new;
      assert buckets[..] == EmptyBuckets(c);
      InvEmpty(c);
    }

    /**
     * `chmap_create`: NULL for a requested capacity of 0 or when an
     * allocation (the table, its lock or its bucket array) fails; otherwise
     * an empty table with the rounded capacity and its thresholds.
     */
    static method Create(n: nat, allocOk: bool) returns (t: Table?)
      requires n <= MAX_CAPACITY
      ensures t == null <==> n == 0 || !allocOk
      ensures t != null ==> fresh(t) && fresh(t.buckets) && t.Valid()
      ensures t != null ==> t.cap == CreateCapacity(n) && t.Sizes() == Limits(t.cap)
      ensures t != null ==> t.contents == map[] && t.order == [] && t.count == 0
    {
      if n == 0 {
        return null;
      }
      var c := CreateCapacity(n);
      if !allocOk {
        return null;
      }
      t := new Table.Init(c);
    }

    /** `set_chmap_scaling_limits`: thresholds from the current capacity,
        computed in 32 bits as the source does, which is exact for every
        capacity of the model. */
    method SetScalingLimits()
      requires IsCapacity(cap)
      modifies this
      ensures Sizes() == Limits(cap)
      ensures buckets == old(buckets) && cap == old(cap) && count == old(count)
      ensures order == old(order) && contents == old(contents)
    {
      ScaleUpLimitExact(cap);
      upThr := ScaleUpLimitAsWritten(cap);
      downThr := cap / 8;
    }

    /**
     * `scale_chmap`: allocate a zeroed array of four times (or a quarter of)
     * the capacity, move every node of every chain to bucket
     * `hash % newCap` of the new array, then switch arrays and recompute the
     * thresholds. A failed allocation leaves the table as it was.
     */
    method Scale(up: bool, allocOk: bool)
      requires Valid()
      requires up ==> cap * SCALE_FACTOR <= MAX_CAPACITY
      requires !up ==> cap >= MIN_SHRINK_CAPACITY
      modifies this
      ensures Valid()
      ensures contents == old(contents) && order == old(order) && count == old(count)
      ensures !allocOk ==> buckets == old(buckets) && Sizes() == old(Sizes())
      ensures allocOk ==> fresh(buckets)
      ensures allocOk ==> Sizes() == Limits(if up then old(cap) * SCALE_FACTOR else old(cap) / SCALE_FACTOR)
    {
      var newCap := if up then cap * SCALE_FACTOR else cap / SCALE_FACTOR;
      if !allocOk {
        return;
      }
      Pow2Scale(cap);
      var nb := new Chain[newCap](_ => []);
      MoveAllNodes(buckets, nb, contents);
      buckets := nb;
      cap := newCap;
      SetScalingLimits();
    }

    /**
     * Bucket `index` becomes the chain `c`, and the table then stands for
     * the map `m'` with `n'` keys listed in the order `o'`.
     */
    method Store(index: nat, c: Chain, ghost m': map<Bytes, Bytes>, n': nat, o': seq<Bytes>)
      requires buckets.Length == cap && IsCapacity(cap) && index < cap
      requires TableInv(buckets[..][index := c], m') && n' == |m'| && Listed(o', m')
      modifies this, buckets
      ensures Valid()
      ensures contents == m' && count == n' && order == o'
      ensures Sizes() == old(Sizes()) && buckets == old(buckets)
      ensures buckets[..] == old(buckets[..])[index := c]
    {
      SetBucket(buckets, index, c);
      contents, count, order := m', n', o';
    }

    /**
     * The node of a present key, at position `idx` of bucket `index`, gets
     * the value `val` in place (`reset_val_of_llist_node`, or a callback
     * writing through the value pointer).
     */
    method SetValueAt(key: Bytes, val: Bytes, index: nat, idx: nat)
      requires Valid() && key in contents && |val| > 0
      requires index == Hash(key) % cap && idx == IndexOfKey(buckets[index], key)
      modifies this, buckets
      ensures Valid()
      ensures contents == old(contents)[key := val]
      ensures order == old(order) && count == old(count) && Sizes() == old(Sizes()) && buckets == old(buckets)
      ensures buckets[..] == old(buckets[..])[index := old(buckets[index])[idx := old(buckets[index][idx]).(val := val)]]
    {
      InvReplace(buckets[..], contents, key, val);
      LookupFacts(buckets[..], contents, key);
      var node := buckets[index][idx];
      assert |contents[key := val]| == count;
      assert Listed(order, contents[key := val]);
      Store(index, buckets[index][idx := node.(val := val)], contents[key := val], count, order);
    }

    /**
     * `insert_into_llist` of a new key: its node, built by
     * `create_llist_node`, goes to the head of its bucket's chain and to the
     * head of the global list.
     */
    method AddNode(key: Bytes, val: Bytes, hash: nat, index: nat)
      requires Valid() && key !in contents && |key| > 0 && |val| > 0
      requires hash == Hash(key) && index == hash % cap
      modifies this, buckets
      ensures Valid()
      ensures contents == old(contents)[key := val] && count == old(count) + 1
      ensures order == Attach(old(order), key)
      ensures Sizes() == old(Sizes()) && buckets == old(buckets)
      ensures buckets[..] == old(buckets[..])[index := [Entry(hash, key, val)] + old(buckets[index])]
    {
      InvInsertNew(buckets[..], contents, key, val);
      ListedAttach(order, contents, key, val);
      Store(index, [Entry(hash, key, val)] + buckets[index], contents[key := val], count + 1, Attach(order, key));
    }

    /**
     * `delete_from_llist` of a present key: its node leaves its chain
     * (`rest` is the chain without it) and, destroyed, the global list.
     */
    method Unlink(key: Bytes, index: nat, rest: Chain)
      requires Valid() && key in contents
      requires index == Hash(key) % cap && rest == RemoveFirst(buckets[index], key)
      modifies this, buckets
      ensures Valid()
      ensures contents == old(contents) - {key} && count == old(count) - 1
      ensures order == Detach(old(order), key)
      ensures Sizes() == old(Sizes()) && buckets == old(buckets)
      ensures buckets[..] == old(buckets[..])[index := rest]
    {
      InvRemove(buckets[..], contents, key);
      ListedDetach(order, contents, key);
      Store(index, rest, contents - {key}, count - 1, Detach(order, key));
    }

    /**
     * `chmap_insert_elem`: an empty key or value is refused. An existing key
     * gets the new value (a value of another size needs a `realloc`; when it
     * fails the old value stays and the result is failure). A new key gets a
     * node at the head of its chain and of the global list, the count rises,
     * and reaching the scale-up threshold grows the table.
     */
    method Insert(key: Bytes, val: Bytes, nodeOk: bool, reallocOk: bool, scaleOk: bool) returns (ok: bool)
      requires Valid()
      requires key in contents || count + 1 < upThr || cap * SCALE_FACTOR <= MAX_CAPACITY
      modifies this, buckets
      ensures Valid()
      ensures buckets == old(buckets) || fresh(buckets)
      ensures cap == old(cap) ==> buckets == old(buckets)
      ensures ok <==> |key| > 0 && |val| > 0 &&
                      if key in old(contents) then |old(contents)[key]| == |val| || reallocOk else nodeOk
      ensures contents == if ok then old(contents)[key := val] else old(contents)
      ensures order == if ok && key !in old(contents) then Attach(old(order), key) else old(order)
      ensures Sizes() == if ok && key !in old(contents) && scaleOk
                         then GrowAfterInsert(old(Sizes()), count) else old(Sizes())
    {
      if |key| == 0 || |val| == 0 {
        return false;
      }
      var index, hash := CalculateBucketIndex(cap, key);
      LookupFacts(buckets[..], contents, key);
      var idx := FindInChain(buckets[index], key);
      if idx >= 0 {
        // reset_val_of_llist_node: same size overwrites, another size reallocates
        if |buckets[index][idx].val| == |val| {
          ok := true;
        } else {
          ok := reallocOk;
        }
        if ok {
          SetValueAt(key, val, index, idx);
        }
      } else {
        ok := nodeOk;
        if ok {
          AddNode(key, val, hash, index);
          if count >= upThr {
            Scale(true, scaleOk);
          }
        }
      }
    }

    /**
     * `chmap_get_elem_copy`: for a present key, copies the first
     * `min(stored size, buffer size)` bytes of its value into the buffer.
     * An empty key or buffer, or an absent key, is a failure and leaves the
     * buffer untouched.
     */
    method GetCopy(key: Bytes, target: array<Byte>) returns (ok: bool)
      requires Valid()
      modifies target
      ensures ok <==> |key| > 0 && target.Length > 0 && key in contents
      ensures ok ==> var n := if |contents[key]| < target.Length then |contents[key]| else target.Length;
                     && (forall q | 0 <= q < n :: target[q] == contents[key][q])
                     && (forall q | n <= q < target.Length :: target[q] == old(target[q]))
      ensures !ok ==> forall q | 0 <= q < target.Length :: target[q] == old(target[q])
    {
      if |key| == 0 || target.Length == 0 {
        return false;
      }
      var index, _ := CalculateBucketIndex(cap, key);
      LookupFacts(buckets[..], contents, key);
      var idx := FindInChain(buckets[index], key);
      if idx < 0 {
        return false;
      }
      CopyValue(buckets[index][idx].val, target);
      ok := true;
    }

    /** `chmap_get_elem_ref`: the stored value of a present key. */
    method GetRef(key: Bytes) returns (ok: bool, val: Bytes)
      requires Valid()
      ensures ok <==> |key| > 0 && key in contents
      ensures ok ==> val == contents[key]
      ensures !ok ==> val == []
    {
      if |key| == 0 {
        return false, [];
      }
      var index, _ := CalculateBucketIndex(cap, key);
      LookupFacts(buckets[..], contents, key);
      var idx := FindInChain(buckets[index], key);
      if idx < 0 {
        return false, [];
      }
      return true, buckets[index][idx].val;
    }

    /**
     * `chmap_exec_func_on_elem`: runs the callback on the node of a present
     * key, which rewrites the value in place (same size).
     */
    method ExecFuncOnElem(key: Bytes, f: (Bytes, Bytes) -> Bytes) returns (ok: bool)
      requires Valid()
      requires forall k, v :: |f(k, v)| == |v|
      modifies this, buckets
      ensures Valid()
      ensures ok <==> |key| > 0 && key in old(contents)
      ensures contents == if ok then old(contents)[key := f(key, old(contents)[key])] else old(contents)
      ensures order == old(order) && Sizes() == old(Sizes()) && buckets == old(buckets)
    {
      if |key| == 0 {
        return false;
      }
      var index, _ := CalculateBucketIndex(cap, key);
      LookupFacts(buckets[..], contents, key);
      var idx := FindInChain(buckets[index], key);
      if idx < 0 {
        return false;
      }
      var node := buckets[index][idx];
      SetValueAt(key, f(node.key, node.val), index, idx);
      ok := true;
    }

    /**
     * `chmap_delete_elem`: unlinks the node of a present key from its chain
     * and from the global list and lowers the count; falling below the
     * scale-down threshold at a capacity of at least `MIN_SHRINK_CAPACITY`
     * shrinks the table. An empty or absent key changes nothing.
     */
    method Delete(key: Bytes, scaleOk: bool)
      requires Valid()
      modifies this, buckets
      ensures Valid()
      ensures buckets == old(buckets) || fresh(buckets)
      ensures cap == old(cap) ==> buckets == old(buckets)
      ensures contents == if key in old(contents) then old(contents) - {key} else old(contents)
      ensures order == if key in old(contents) then Detach(old(order), key) else old(order)
      ensures Sizes() == if key in old(contents) && scaleOk
                         then ShrinkAfterDelete(old(Sizes()), count) else old(Sizes())
    {
      if |key| == 0 {
        return;
      }
      var index, _ := CalculateBucketIndex(cap, key);
      LookupFacts(buckets[..], contents, key);
      var rest, found := DeleteFromChain(buckets[index], key);
      if found {
        Unlink(key, index, rest);
        if count < downThr && cap >= MIN_SHRINK_CAPACITY {
          Scale(false, scaleOk);
        }
      }
    }

    /** `chmap_elem_count`: the number of keys. */
    method Count() returns (n: nat)
      requires Valid()
      ensures n == |contents|
    {
      n := count;
    }

    /**
     * `chmap_for_each_elem_wr`: walks the global list from its head and runs
     * the callback on every node, which rewrites the value in place.
     */
    method ForEachWr(f: (Bytes, Bytes) -> Bytes)
      requires Valid()
      requires forall k, v :: |f(k, v)| == |v|
      modifies this, buckets
      ensures Valid()
      ensures contents.Keys == old(contents).Keys
      ensures forall k | k in contents :: contents[k] == f(k, old(contents)[k])
      ensures order == old(order) && Sizes() == old(Sizes()) && buckets == old(buckets)
    {
      ghost var m0 := contents;
      var j := 0;
      while j < |order|
        invariant 0 <= j <= |order|
        invariant Valid()
        invariant order == old(order) && Sizes() == old(Sizes()) && buckets == old(buckets)
        invariant AppliedUpTo(contents, m0, order, j, f)
      {
        VisitNode(j, f, m0);
        j := j + 1;
      }
      ListedNoDup(order, contents);
      AppliedAll(contents, m0, order, f);
    }

    /** One step of `chmap_for_each_elem_wr`: the callback on the node of
        the `j`-th listed key, whose value is still the original one. */
    method VisitNode(j: nat, f: (Bytes, Bytes) -> Bytes, ghost m0: map<Bytes, Bytes>)
      requires Valid() && j < |order|
      requires forall k, v :: |f(k, v)| == |v|
      requires AppliedUpTo(contents, m0, order, j, f)
      modifies this, buckets
      ensures Valid()
      ensures order == old(order) && Sizes() == old(Sizes()) && buckets == old(buckets)
      ensures AppliedUpTo(contents, m0, order, j + 1, f)
    {
      var key := order[j];
      ListedNoDup(order, contents);
      AppliedStep(contents, m0, order, j, f);
      var found := ExecFuncOnElem(key, f);
    }

    /**
     * `chmap_for_each_elem_rd`: walks the global list from its head and hands
     * every node's key and value to the callback; the result is the sequence
     * of pairs the callback sees, in that order.
     */
    method ForEachRd() returns (visited: seq<(Bytes, Bytes)>)
      requires Valid()
      ensures |visited| == |order|
      ensures forall j | 0 <= j < |order| :: order[j] in contents && visited[j] == (order[j], contents[order[j]])
    {
      visited := [];
      var j := 0;
      while j < |order|
        invariant 0 <= j <= |order|
        invariant |visited| == j
        invariant forall q | 0 <= q < j :: order[q] in contents && visited[q] == (order[q], contents[order[q]])
      {
        var key := order[j];
        ListedNoDup(order, contents);
        var found, val := GetRef(key);
        visited := visited + [(key, val)];
        j := j + 1;
      }
    }

    /**
     * The second half of `chmap_reset`, once every node is gone: `realloc`
     * the array to capacity `r` when `r` is nonzero and differs from the
     * current capacity (failure keeps the array and is reported), then
     * `memset` every bucket to empty and zero the count.
     */
    method ReallocAndClear(r: nat, reallocOk: bool) returns (ok: bool)
      requires r == 0 || IsCapacity(r)
      requires buckets.Length == cap && IsCapacity(cap) && order == []
      modifies this, buckets
      ensures Valid()
      ensures buckets == old(buckets) || fresh(buckets)
      ensures cap == old(cap) ==> buckets == old(buckets)
      ensures contents == map[] && order == [] && count == 0
      ensures ok <==> !(r > 0 && r != old(cap) && !reallocOk)
      ensures cap == if ok && r > 0 then r else old(cap)
      ensures upThr == old(upThr) && downThr == old(downThr)
    {
      ok := true;
      if r > 0 && r != cap {
        if reallocOk {
          buckets, cap := new Chain[r], r;
        } else {
          ok := false;
        }
      }
      ZeroBuckets(buckets);
      InvEmpty(cap);
      count := 0;
      contents := map[];
    }

    /**
     * `chmap_reset`: destroys every node (each one is detached from the
     * global list), moves to the rounded requested capacity when it is
     * nonzero and differs from the current one (a failed `realloc` keeps the
     * array and reports failure), zeroes the array and the count. The
     * thresholds are not recomputed.
     */
    method Reset(n: nat, reallocOk: bool) returns (ok: bool)
      requires Valid()
      requires n <= MAX_CAPACITY
      modifies this, buckets
      ensures Valid()
      ensures buckets == old(buckets) || fresh(buckets)
      ensures cap == old(cap) ==> buckets == old(buckets)
      ensures contents == map[] && order == [] && count == 0
      ensures ok <==> !(n > 0 && ResetCapacity(n) != old(cap) && !reallocOk)
      ensures cap == if ok && n > 0 then ResetCapacity(n) else old(cap)
      ensures upThr == old(upThr) && downThr == old(downThr)
    {
      var r := ResetCapacity(n);
      order := DetachAllNodes(buckets, order, contents);
      ok := ReallocAndClear(r, reallocOk);
    }
  }
}
