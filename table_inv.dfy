/**
 * The invariant of the bucket array of src/chashmap.c, stated over the
 * sequence of chains and the map the table stands for, with one lemma per
 * kind of change the table makes to its chains: prepend a new node, replace
 * a node's value, unlink a node, start from empty buckets, and move every
 * node into a new array (`scale_chmap`).
 */
module TableInvariant {
  import opened Hashing
  import opened Chains

  /** The entry sits where lookups look for it: its stored hash is the hash
      of its key, and it is in bucket `hash % n`. */
  predicate Placed(e: Entry, n: nat, i: nat)
  {
    e.hash == Hash(e.key) && n > 0 && e.hash % n == i
  }

  /** Number of nodes over all chains. */
  function TotalLength(bs: seq<Chain>): nat
  {
    if bs == [] then 0 else TotalLength(bs[..|bs| - 1]) + |bs[|bs| - 1]|
  }

  /** Every node is placed in its bucket and agrees with `m`. */
  predicate NodesAgree(bs: seq<Chain>, m: map<Bytes, Bytes>)
  {
    forall i, e | 0 <= i < |bs| && e in bs[i] :: Placed(e, |bs|, i) && e.key in m && m[e.key] == e.val
  }

  /** No chain repeats a key. */
  predicate ChainsDistinct(bs: seq<Chain>)
  {
    forall i | 0 <= i < |bs| :: DistinctKeys(bs[i])
  }

  /** Every key of `m` has its node in bucket `Hash(k) % |bs|`. */
  predicate KeysStored(bs: seq<Chain>, m: map<Bytes, Bytes>)
  {
    |bs| > 0 && forall k | k in m :: Entry(Hash(k), k, m[k]) in bs[Hash(k) % |bs|]
  }

  /** The source rejects empty keys and values, so none is ever stored. */
  predicate NonEmpty(m: map<Bytes, Bytes>)
  {
    forall k | k in m :: |k| > 0 && |m[k]| > 0
  }

  /**
   * The buckets `bs` hold exactly the map `m`: every node is placed in its
   * bucket and agrees with `m`, no chain repeats a key, every key of `m`
   * has its node, keys and values are never empty, and the number of nodes
   * is the number of keys.
   */
  predicate TableInv(bs: seq<Chain>, m: map<Bytes, Bytes>)
  {
    && |bs| > 0
    && NodesAgree(bs, m)
    && ChainsDistinct(bs)
    && KeysStored(bs, m)
    && NonEmpty(m)
    && TotalLength(bs) == |m|
  }

  lemma TotalLengthPrefix(bs: seq<Chain>, i: nat)
    requires i < |bs|
    ensures TotalLength(bs[..i + 1]) == TotalLength(bs[..i]) + |bs[i]|
  {
    assert bs[..i + 1][..i] == bs[..i];
  }

  /** Replacing one chain changes the node count by the difference in length. */
  lemma {:induction false} TotalLengthUpdate(bs: seq<Chain>, x: nat, c: Chain)
    requires x < |bs|
    ensures TotalLength(bs[x := c]) == TotalLength(bs) - |bs[x]| + |c|
  {
    var n := |bs| - 1;
    if x == n {
      assert bs[x := c][..n] == bs[..n];
    } else {
      TotalLengthUpdate(bs[..n], x, c);
      assert bs[x := c][..n] == bs[..n][x := c];
    }
  }

  /** `n` empty buckets. */
  function EmptyBuckets(n: nat): (bs: seq<Chain>)
    ensures |bs| == n && forall i | 0 <= i < n :: bs[i] == []
  {
    seq(n, _ => [])
  }

  lemma {:induction false} TotalLengthEmpty(n: nat)
    ensures TotalLength(EmptyBuckets(n)) == 0
  {
    if n > 0 {
      TotalLengthEmpty(n - 1);
      assert EmptyBuckets(n)[..n - 1] == EmptyBuckets(n - 1);
    }
  }

  /** A freshly zeroed bucket array (`calloc`, `memset`) holds the empty map. */
  lemma InvEmpty(n: nat)
    requires n > 0
    ensures TableInv(EmptyBuckets(n), map[])
  {
    TotalLengthEmpty(n);
  }

  /**
   * Lookup in bucket `Hash(k) % |bs|` is the map's lookup: the first node of
   * that chain with key `k` exists exactly when `k` is a key, and it holds
   * the key's value.
   */
  lemma LookupFacts(bs: seq<Chain>, m: map<Bytes, Bytes>, k: Bytes)
    requires TableInv(bs, m)
    ensures var j := Hash(k) % |bs|;
            var p := IndexOfKey(bs[j], k);
            && (k in m <==> p < |bs[j]|)
            && (p < |bs[j]| ==> bs[j][p] == Entry(Hash(k), k, m[k]))
  {
    var j := Hash(k) % |bs|;
    var c := bs[j];
    var p := IndexOfKey(c, k);
    if k in m {
      var q :| 0 <= q < |c| && c[q] == Entry(Hash(k), k, m[k]);
      IndexOfKeyDistinct(c, q);
    }
    if p < |c| {
      assert c[p] in c;
    }
  }

  /** Every node of a key lies in one bucket and is the same node. */
  lemma OneNodePerKey(bs: seq<Chain>, m: map<Bytes, Bytes>, i: nat, i': nat, e: Entry, e': Entry)
    requires TableInv(bs, m)
    requires i < |bs| && i' < |bs| && e in bs[i] && e' in bs[i'] && e.key == e'.key
    ensures i == i' && e == e'
  {
  }

  /** After prepending the node of a new key every node agrees with the
      extended map. */
  lemma InsertAgree(bs: seq<Chain>, m: map<Bytes, Bytes>, k: Bytes, v: Bytes)
    requires TableInv(bs, m) && k !in m
    ensures var j := Hash(k) % |bs|;
            NodesAgree(bs[j := [Entry(Hash(k), k, v)] + bs[j]], m[k := v])
  {
    var j := Hash(k) % |bs|;
    var ne := Entry(Hash(k), k, v);
    var nbs := bs[j := [ne] + bs[j]];
    forall i, e | 0 <= i < |nbs| && e in nbs[i]
      ensures Placed(e, |nbs|, i) && e.key in m[k := v] && m[k := v][e.key] == e.val
    {
      if e != ne || i != j {
        assert e in bs[i];
      }
    }
  }

  /** The prepended node's key is new to its chain. */
  lemma InsertDistinct(bs: seq<Chain>, m: map<Bytes, Bytes>, k: Bytes, v: Bytes)
    requires TableInv(bs, m) && k !in m
    ensures var j := Hash(k) % |bs|;
            ChainsDistinct(bs[j := [Entry(Hash(k), k, v)] + bs[j]])
  {
    var j := Hash(k) % |bs|;
    var nc := [Entry(Hash(k), k, v)] + bs[j];
    forall q | 0 < q < |nc|
      ensures nc[q].key != k
    {
      assert nc[q] == bs[j][q - 1];
      assert bs[j][q - 1] in bs[j];
    }
    assert DistinctKeys(nc);
  }

  /** After prepending, every key of the extended map has its node. */
  lemma InsertStored(bs: seq<Chain>, m: map<Bytes, Bytes>, k: Bytes, v: Bytes)
    requires TableInv(bs, m) && k !in m
    ensures var j := Hash(k) % |bs|;
            KeysStored(bs[j := [Entry(Hash(k), k, v)] + bs[j]], m[k := v])
  {
    var j := Hash(k) % |bs|;
    var nbs := bs[j := [Entry(Hash(k), k, v)] + bs[j]];
    forall k' | k' in m[k := v]
      ensures Entry(Hash(k'), k', m[k := v][k']) in nbs[Hash(k') % |nbs|]
    {
      if k' != k {
        assert Entry(Hash(k'), k', m[k']) in bs[Hash(k') % |bs|];
      }
    }
  }

  /** `insert_into_llist` of a new key: prepend its node to its bucket. */
  lemma InvInsertNew(bs: seq<Chain>, m: map<Bytes, Bytes>, k: Bytes, v: Bytes)
    requires TableInv(bs, m) && k !in m && |k| > 0 && |v| > 0
    ensures var j := Hash(k) % |bs|;
            TableInv(bs[j := [Entry(Hash(k), k, v)] + bs[j]], m[k := v])
  {
    var j := Hash(k) % |bs|;
    InsertAgree(bs, m, k, v);
    InsertDistinct(bs, m, k, v);
    InsertStored(bs, m, k, v);
    TotalLengthUpdate(bs, j, [Entry(Hash(k), k, v)] + bs[j]);
  }

  /** The nodes of a chain after one position was overwritten. */
  lemma InUpdated(c: Chain, p: nat, x: Entry, e: Entry)
    requires p < |c| && e in c[p := x]
    ensures e == x || exists q | 0 <= q < |c| && q != p :: c[q] == e
  {
    var q :| 0 <= q < |c| && c[p := x][q] == e;
  }

  /** After the value update every node still agrees with the updated map. */
  lemma ReplaceAgree(bs: seq<Chain>, m: map<Bytes, Bytes>, k: Bytes, v: Bytes, p: nat)
    requires TableInv(bs, m) && k in m
    requires p < |bs[Hash(k) % |bs|]| && bs[Hash(k) % |bs|][p].key == k
    ensures var j := Hash(k) % |bs|;
            NodesAgree(bs[j := bs[j][p := Entry(Hash(k), k, v)]], m[k := v])
  {
    var j := Hash(k) % |bs|;
    var c := bs[j];
    var ne := Entry(Hash(k), k, v);
    var nbs := bs[j := c[p := ne]];
    forall i, e | 0 <= i < |nbs| && e in nbs[i]
      ensures Placed(e, |nbs|, i) && e.key in m[k := v] && m[k := v][e.key] == e.val
    {
      if i == j {
        InUpdated(c, p, ne, e);
        if e != ne {
          var q :| 0 <= q < |c| && q != p && c[q] == e;
          assert c[q] in c;
        }
      } else {
        assert e in bs[i];
      }
    }
  }

  /** After the value update every key still has its node. */
  lemma ReplaceStored(bs: seq<Chain>, m: map<Bytes, Bytes>, k: Bytes, v: Bytes, p: nat)
    requires TableInv(bs, m) && k in m
    requires p < |bs[Hash(k) % |bs|]| && bs[Hash(k) % |bs|][p].key == k
    ensures var j := Hash(k) % |bs|;
            KeysStored(bs[j := bs[j][p := Entry(Hash(k), k, v)]], m[k := v])
  {
    var j := Hash(k) % |bs|;
    var c := bs[j];
    var nc := c[p := Entry(Hash(k), k, v)];
    var nbs := bs[j := nc];
    var m' := m[k := v];
    forall k' | k' in m'
      ensures Entry(Hash(k'), k', m'[k']) in nbs[Hash(k') % |nbs|]
    {
      var y := Entry(Hash(k'), k', m'[k']);
      if k' == k {
        assert nc[p] == y;
      } else if Hash(k') % |bs| == j {
        assert y in c;
        var q :| 0 <= q < |c| && c[q] == y;
        assert nc[q] == y;
      } else {
        assert y in bs[Hash(k') % |bs|];
      }
    }
  }

  /** `reset_val_of_llist_node`: the node of an existing key gets a new value. */
  lemma InvReplace(bs: seq<Chain>, m: map<Bytes, Bytes>, k: Bytes, v: Bytes)
    requires TableInv(bs, m) && k in m && |v| > 0
    ensures var j := Hash(k) % |bs|;
            var p := IndexOfKey(bs[j], k);
            && p < |bs[j]|
            && TableInv(bs[j := bs[j][p := Entry(Hash(k), k, v)]], m[k := v])
  {
    LookupFacts(bs, m, k);
    var j := Hash(k) % |bs|;
    var c := bs[j];
    var p := IndexOfKey(c, k);
    var nc := c[p := Entry(Hash(k), k, v)];
    ReplaceAgree(bs, m, k, v, p);
    ReplaceStored(bs, m, k, v, p);
    ReplaceDistinct(bs, j, p, Entry(Hash(k), k, v));
    TotalLengthUpdate(bs, j, nc);
  }

  /** Overwriting a node with one of the same key keeps every chain's keys
      distinct. */
  lemma ReplaceDistinct(bs: seq<Chain>, j: nat, p: nat, ne: Entry)
    requires ChainsDistinct(bs) && j < |bs| && p < |bs[j]| && bs[j][p].key == ne.key
    ensures ChainsDistinct(bs[j := bs[j][p := ne]])
  {
    var c := bs[j];
    var nc := c[p := ne];
    assert forall q | 0 <= q < |nc| :: nc[q].key == c[q].key;
    assert DistinctKeys(nc);
  }

  /** After unlinking, every remaining node agrees with the smaller map. */
  lemma RemoveAgree(bs: seq<Chain>, m: map<Bytes, Bytes>, k: Bytes)
    requires TableInv(bs, m)
    ensures var j := Hash(k) % |bs|;
            NodesAgree(bs[j := RemoveFirst(bs[j], k)], m - {k})
  {
    var j := Hash(k) % |bs|;
    RemoveFirstFacts(bs[j], k);
    var nbs := bs[j := RemoveFirst(bs[j], k)];
    forall i, e | 0 <= i < |nbs| && e in nbs[i]
      ensures Placed(e, |nbs|, i) && e.key in m - {k} && (m - {k})[e.key] == e.val
    {
      assert e in bs[i];
    }
  }

  /** After unlinking, every key of the smaller map still has its node. */
  lemma RemoveStored(bs: seq<Chain>, m: map<Bytes, Bytes>, k: Bytes)
    requires TableInv(bs, m)
    ensures var j := Hash(k) % |bs|;
            KeysStored(bs[j := RemoveFirst(bs[j], k)], m - {k})
  {
    var j := Hash(k) % |bs|;
    RemoveFirstFacts(bs[j], k);
    var nbs := bs[j := RemoveFirst(bs[j], k)];
    forall k' | k' in m - {k}
      ensures Entry(Hash(k'), k', (m - {k})[k']) in nbs[Hash(k') % |nbs|]
    {
      assert Entry(Hash(k'), k', m[k']) in bs[Hash(k') % |bs|];
    }
  }

  /** `delete_from_llist` of a present key: its node leaves its bucket. */
  lemma InvRemove(bs: seq<Chain>, m: map<Bytes, Bytes>, k: Bytes)
    requires TableInv(bs, m) && k in m
    ensures var j := Hash(k) % |bs|;
            TableInv(bs[j := RemoveFirst(bs[j], k)], m - {k})
  {
    LookupFacts(bs, m, k);
    var j := Hash(k) % |bs|;
    RemoveFirstFacts(bs[j], k);
    RemoveAgree(bs, m, k);
    RemoveStored(bs, m, k);
    TotalLengthUpdate(bs, j, RemoveFirst(bs[j], k));
  }

  /**
   * Whether the node of key `k` was already visited by a walk that has
   * finished buckets `0 .. i-1` and the first `p` nodes of bucket `i`.
   */
  predicate Done(bs: seq<Chain>, i: nat, p: nat, k: Bytes)
    requires |bs| > 0
  {
    var j := Hash(k) % |bs|;
    j < i || (j == i && IndexOfKey(bs[j], k) < p)
  }

  /** Visiting node `p` of bucket `i` marks its key, and only its key, visited. */
  lemma DoneStep(bs: seq<Chain>, m: map<Bytes, Bytes>, i: nat, p: nat)
    requires TableInv(bs, m) && i < |bs| && p < |bs[i]|
    ensures bs[i][p].key in m && !Done(bs, i, p, bs[i][p].key) && Done(bs, i, p + 1, bs[i][p].key)
    ensures forall k | k in m :: Done(bs, i, p + 1, k) <==> Done(bs, i, p, k) || k == bs[i][p].key
  {
    var key := bs[i][p].key;
    assert bs[i][p] in bs[i];
    IndexOfKeyDistinct(bs[i], p);
    forall k | k in m
      ensures Done(bs, i, p + 1, k) <==> Done(bs, i, p, k) || k == key
    {
      if k != key && Hash(k) % |bs| == i {
        assert IndexOfKey(bs[i], k) != p;
      }
    }
  }

  /** Finishing bucket `i` is starting bucket `i + 1`. */
  lemma DoneNextBucket(bs: seq<Chain>, m: map<Bytes, Bytes>, i: nat)
    requires TableInv(bs, m) && i < |bs|
    ensures forall k | k in m :: Done(bs, i + 1, 0, k) <==> Done(bs, i, |bs[i]|, k)
  {
    forall k | k in m
      ensures Done(bs, i + 1, 0, k) <==> Done(bs, i, |bs[i]|, k)
    {
      LookupFacts(bs, m, k);
    }
  }

  /** The nodes of `nbs` are placed for `|nbs|`, agree with `m`, and were
      already visited in `bs`. */
  predicate MovedAgree(bs: seq<Chain>, m: map<Bytes, Bytes>, nbs: seq<Chain>, i: nat, p: nat)
    requires |bs| > 0
  {
    forall x, e | 0 <= x < |nbs| && e in nbs[x] ::
      Placed(e, |nbs|, x) && e.key in m && m[e.key] == e.val && Done(bs, i, p, e.key)
  }

  /** Every visited key of `m` has its node in `nbs`. */
  predicate MovedStored(bs: seq<Chain>, m: map<Bytes, Bytes>, nbs: seq<Chain>, i: nat, p: nat)
    requires |bs| > 0 && |nbs| > 0
  {
    forall k | k in m && Done(bs, i, p, k) :: Entry(Hash(k), k, m[k]) in nbs[Hash(k) % |nbs|]
  }

  /**
   * The state of `scale_chmap` after it moved the first `p` nodes of bucket
   * `i` (and all nodes of the buckets before) of `bs` into `nbs`: the moved
   * nodes, and only they, are in `nbs`, each in bucket `hash % |nbs|`.
   */
  predicate RehashInv(bs: seq<Chain>, m: map<Bytes, Bytes>, nbs: seq<Chain>, i: nat, p: nat)
  {
    && TableInv(bs, m)
    && i <= |bs| && (i < |bs| ==> p <= |bs[i]|) && (i == |bs| ==> p == 0)
    && |nbs| > 0
    && MovedAgree(bs, m, nbs, i, p)
    && ChainsDistinct(nbs)
    && MovedStored(bs, m, nbs, i, p)
    && TotalLength(nbs) == TotalLength(bs[..i]) + p
  }

  /** Nothing is moved into a zeroed array yet. */
  lemma RehashInit(bs: seq<Chain>, m: map<Bytes, Bytes>, n: nat)
    requires TableInv(bs, m) && n > 0
    ensures RehashInv(bs, m, EmptyBuckets(n), 0, 0)
  {
    TotalLengthEmpty(n);
    assert bs[..0] == [];
  }

  /** After moving node `p` of bucket `i`, the moved nodes still agree. */
  lemma MovedAgreeStep(bs: seq<Chain>, m: map<Bytes, Bytes>, nbs: seq<Chain>, i: nat, p: nat)
    requires RehashInv(bs, m, nbs, i, p) && i < |bs| && p < |bs[i]|
    ensures var e := bs[i][p];
            MovedAgree(bs, m, nbs[e.hash % |nbs| := [e] + nbs[e.hash % |nbs|]], i, p + 1)
  {
    var e := bs[i][p];
    var x := e.hash % |nbs|;
    var nbs' := nbs[x := [e] + nbs[x]];
    DoneStep(bs, m, i, p);
    assert e in bs[i];
    forall y, d | 0 <= y < |nbs'| && d in nbs'[y]
      ensures Placed(d, |nbs'|, y) && d.key in m && m[d.key] == d.val && Done(bs, i, p + 1, d.key)
    {
      if d != e || y != x {
        assert d in nbs[y];
      }
    }
  }

  /** The moved node's key is not yet in its new chain. */
  lemma MovedDistinctStep(bs: seq<Chain>, m: map<Bytes, Bytes>, nbs: seq<Chain>, i: nat, p: nat)
    requires RehashInv(bs, m, nbs, i, p) && i < |bs| && p < |bs[i]|
    ensures var e := bs[i][p];
            ChainsDistinct(nbs[e.hash % |nbs| := [e] + nbs[e.hash % |nbs|]])
  {
    var e := bs[i][p];
    var x := e.hash % |nbs|;
    var nc := [e] + nbs[x];
    DoneStep(bs, m, i, p);
    forall q | 0 < q < |nc|
      ensures nc[q].key != e.key
    {
      assert nc[q] == nbs[x][q - 1];
      assert nbs[x][q - 1] in nbs[x];
    }
    assert DistinctKeys(nc);
  }

  /** Every key visited after the move has its node in the new array. */
  lemma MovedStoredStep(bs: seq<Chain>, m: map<Bytes, Bytes>, nbs: seq<Chain>, i: nat, p: nat)
    requires RehashInv(bs, m, nbs, i, p) && i < |bs| && p < |bs[i]|
    ensures var e := bs[i][p];
            MovedStored(bs, m, nbs[e.hash % |nbs| := [e] + nbs[e.hash % |nbs|]], i, p + 1)
  {
    var e := bs[i][p];
    var x := e.hash % |nbs|;
    var nbs' := nbs[x := [e] + nbs[x]];
    DoneStep(bs, m, i, p);
    assert e in bs[i];
    forall k | k in m && Done(bs, i, p + 1, k)
      ensures Entry(Hash(k), k, m[k]) in nbs'[Hash(k) % |nbs'|]
    {
      if k != e.key {
        assert Entry(Hash(k), k, m[k]) in nbs[Hash(k) % |nbs|];
      }
    }
  }

  /** `migrate_llist_node_to_another_llist`: node `p` of bucket `i` is
      prepended to bucket `hash % |nbs|` of the new array. */
  lemma RehashStep(bs: seq<Chain>, m: map<Bytes, Bytes>, nbs: seq<Chain>, i: nat, p: nat)
    requires RehashInv(bs, m, nbs, i, p) && i < |bs| && p < |bs[i]|
    ensures var e := bs[i][p];
            var x := e.hash % |nbs|;
            RehashInv(bs, m, nbs[x := [e] + nbs[x]], i, p + 1)
  {
    var e := bs[i][p];
    var x := e.hash % |nbs|;
    MovedAgreeStep(bs, m, nbs, i, p);
    MovedDistinctStep(bs, m, nbs, i, p);
    MovedStoredStep(bs, m, nbs, i, p);
    TotalLengthUpdate(nbs, x, [e] + nbs[x]);
  }

  /** The walk moves on from a finished bucket to the next one. */
  lemma RehashNextBucket(bs: seq<Chain>, m: map<Bytes, Bytes>, nbs: seq<Chain>, i: nat)
    requires i < |bs| && RehashInv(bs, m, nbs, i, |bs[i]|)
    ensures RehashInv(bs, m, nbs, i + 1, 0)
  {
    DoneNextBucket(bs, m, i);
    assert MovedAgree(bs, m, nbs, i + 1, 0) by {
      forall x, e | 0 <= x < |nbs| && e in nbs[x]
        ensures Done(bs, i + 1, 0, e.key)
      {
        assert Done(bs, i, |bs[i]|, e.key) && e.key in m;
      }
    }
    assert MovedStored(bs, m, nbs, i + 1, 0);
    TotalLengthPrefix(bs, i);
  }

  /** Once every bucket was walked, the new array holds the same map. */
  lemma RehashFinal(bs: seq<Chain>, m: map<Bytes, Bytes>, nbs: seq<Chain>)
    requires RehashInv(bs, m, nbs, |bs|, 0)
    ensures TableInv(nbs, m)
  {
    assert bs[..|bs|] == bs;
  }
}
