/**
 * The per-bucket collision chain of src/chashmap.c: a singly-linked list of
 * nodes, head first. The links become positions in a sequence: prepending a
 * node (`insert_into_llist`, `migrate_llist_node_to_another_llist`) is
 * `[e] + c`, unlinking one (`delete_from_llist`) drops that position.
 */
module Chains {
  import opened Hashing

  /** `chmap_entry`: the stored hash, the owned key and the owned value. */
  datatype Entry = Entry(hash: nat, key: Bytes, val: Bytes)

  /** A bucket's chain, from its head node onwards. */
  type Chain = seq<Entry>

  /** No key occurs twice in the chain. */
  predicate DistinctKeys(c: Chain)
  {
    forall p, q | 0 <= p < q < |c| :: c[p].key != c[q].key
  }

  /** Position of the first node whose key is `k`, or `|c|` if there is none. */
  function IndexOfKey(c: Chain, k: Bytes): (r: nat)
    ensures r <= |c|
    ensures r < |c| ==> c[r].key == k
    ensures forall j | 0 <= j < r :: c[j].key != k
  {
    if c == [] then 0
    else if c[0].key == k then 0
    else 1 + IndexOfKey(c[1..], k)
  }

  /** The chain with its first node whose key is `k` unlinked. */
  function RemoveFirst(c: Chain, k: Bytes): (r: Chain)
    ensures r == c <==> forall j | 0 <= j < |c| :: c[j].key != k
    ensures multiset(r) <= multiset(c) && |r| >= |c| - 1
    ensures r != c ==> |r| == |c| - 1
  {
    var p := IndexOfKey(c, k);
    if p < |c| then
      assert c == c[..p] + [c[p]] + c[p + 1..];
      c[..p] + c[p + 1..]
    else c
  }

  /** In a chain without repeated keys the node holding a key is the first one. */
  lemma IndexOfKeyDistinct(c: Chain, j: nat)
    requires DistinctKeys(c) && j < |c|
    ensures IndexOfKey(c, c[j].key) == j
  {
  }

  /** Dropping position `p` shifts every later node down by one. */
  lemma DropAt(c: Chain, p: nat)
    requires p < |c|
    ensures |c[..p] + c[p + 1..]| == |c| - 1
    ensures forall j | 0 <= j < |c| - 1 :: (c[..p] + c[p + 1..])[j] == if j < p then c[j] else c[j + 1]
  {
  }

  /** Dropping a node keeps the keys of a chain distinct. */
  lemma DropAtDistinct(c: Chain, p: nat)
    requires DistinctKeys(c) && p < |c|
    ensures DistinctKeys(c[..p] + c[p + 1..])
  {
    var r := c[..p] + c[p + 1..];
    DropAt(c, p);
    forall i, j | 0 <= i < j < |r|
      ensures r[i].key != r[j].key
    {
      var i', j' := if i < p then i else i + 1, if j < p then j else j + 1;
      assert r[i] == c[i'] && r[j] == c[j'];
    }
  }

  /** The nodes left after dropping position `p` are the others. */
  lemma DropAtMembers(c: Chain, p: nat, e: Entry)
    requires DistinctKeys(c) && p < |c|
    ensures e in c[..p] + c[p + 1..] <==> e in c && e.key != c[p].key
  {
    var r := c[..p] + c[p + 1..];
    DropAt(c, p);
    if e in r {
      var j :| 0 <= j < |r| && r[j] == e;
      if j < p {
        assert c[j] == e;
      } else {
        assert c[j + 1] == e;
      }
    }
    if e in c && e.key != c[p].key {
      var j :| 0 <= j < |c| && c[j] == e;
      if j < p {
        assert r[j] == e;
      } else {
        assert r[j - 1] == e;
      }
    }
  }

  /**
   * Unlinking the node of `k` from a chain without repeated keys removes
   * exactly the node holding `k`, keeps every other node, and leaves a chain
   * without repeated keys one node shorter.
   */
  lemma RemoveFirstFacts(c: Chain, k: Bytes)
    requires DistinctKeys(c)
    ensures DistinctKeys(RemoveFirst(c, k))
    ensures |RemoveFirst(c, k)| == if IndexOfKey(c, k) < |c| then |c| - 1 else |c|
    ensures forall e :: e in RemoveFirst(c, k) <==> e in c && e.key != k
  {
    var p := IndexOfKey(c, k);
    if p < |c| {
      DropAtDistinct(c, p);
      forall e
        ensures e in RemoveFirst(c, k) <==> e in c && e.key != k
      {
        DropAtMembers(c, p, e);
      }
    }
  }

  /**
   * `find_in_llist`: walks the chain from its head and stops at the first
   * node whose key compares equal (`compare_key_pairs`); -1 stands for NULL.
   */
  method FindInChain(c: Chain, k: Bytes) returns (idx: int)
    ensures -1 <= idx < |c|
    ensures 0 <= idx ==> c[idx].key == k && forall j | 0 <= j < idx :: c[j].key != k
    ensures idx < 0 <==> forall j | 0 <= j < |c| :: c[j].key != k
    ensures idx == if IndexOfKey(c, k) < |c| then IndexOfKey(c, k) else -1
  {
    var i := 0;
    while i < |c|
      invariant 0 <= i <= |c|
      invariant forall j | 0 <= j < i :: c[j].key != k
    {
      if KeysEqual(c[i].key, k) {
        return i;
      }
      i := i + 1;
    }
    return -1;
  }

  /**
   * `delete_from_llist`: walks the chain keeping the previous node; at the
   * first node whose size and key match it relinks the previous node (or the
   * head) past it. `found` tells whether a node was unlinked.
   */
  method DeleteFromChain(c: Chain, k: Bytes) returns (rest: Chain, found: bool)
    ensures found <==> exists j | 0 <= j < |c| :: c[j].key == k
    ensures rest == RemoveFirst(c, k)
  {
    found := false;
    var i := 0;
    while i < |c|
      invariant 0 <= i <= |c|
      invariant forall j | 0 <= j < i :: c[j].key != k
    {
      if |c[i].key| == |k| {
        if KeysEqual(c[i].key, k) {
          found := true;
          rest := c[..i] + c[i + 1..];
          return;
        }
      }
      i := i + 1;
    }
    rest := c;
  }
}
