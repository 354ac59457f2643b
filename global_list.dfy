/**
 * The global doubly-linked list of src/chashmap.c that threads through every
 * node of the table (`head_of_all_elems`), independent of the buckets. Only
 * its order matters to the table, so it is the sequence of the nodes' keys
 * from the head: attaching a node prepends its key and detaching a node
 * drops its key and links its neighbours to each other.
 */
module GlobalList {
  import opened Hashing

  /** No key occurs twice in the list. */
  predicate NoDup(s: seq<Bytes>)
  {
    forall i, j | 0 <= i < j < |s| :: s[i] != s[j]
  }

  /** `attach_node_to_dllist`: the new node becomes the head of the list. */
  function Attach(order: seq<Bytes>, k: Bytes): (r: seq<Bytes>)
    ensures |r| == |order| + 1 && r[0] == k
    ensures forall x :: x in r <==> x == k || x in order
    ensures k !in order && NoDup(order) ==> NoDup(r)
  {
    [k] + order
  }

  /**
   * `detach_node_from_dllist`: the node's successor gets its predecessor and
   * vice versa, and the head moves on when the node was the head. Detaching
   * a key that is not listed leaves the list as it is.
   */
  function Detach(order: seq<Bytes>, k: Bytes): (r: seq<Bytes>)
    ensures |r| == if k in order then |order| - 1 else |order|
  {
    if order == [] then []
    else if order[0] == k then order[1..]
    else [order[0]] + Detach(order[1..], k)
  }

  /** Detaching from a list without repeated keys removes that key and only
      that key, and the list stays without repeated keys. */
  lemma {:induction false} DetachFacts(order: seq<Bytes>, k: Bytes)
    requires NoDup(order)
    ensures NoDup(Detach(order, k))
    ensures forall x :: x in Detach(order, k) <==> x in order && x != k
  {
    if order != [] && order[0] != k {
      DetachFacts(order[1..], k);
      var r := Detach(order, k);
      assert r == [order[0]] + Detach(order[1..], k);
      forall i, j | 0 <= i < j < |r|
        ensures r[i] != r[j]
      {
        if i == 0 {
          assert r[j] in Detach(order[1..], k);
        }
      }
    }
  }

  /** Detaching the node at position `p` links `order[p - 1]` to
      `order[p + 1]`: the others keep their order. */
  lemma {:induction false} DetachAt(order: seq<Bytes>, p: nat)
    requires NoDup(order) && p < |order|
    ensures Detach(order, order[p]) == order[..p] + order[p + 1..]
  {
    if p > 0 {
      DetachAt(order[1..], p - 1);
      assert order[1..][p - 1] == order[p];
      assert order[..p] == [order[0]] + order[1..][..p - 1];
      assert order[1..][p..] == order[p + 1..];
    }
  }

  /** Attaching a key that is not listed and detaching it again gives back
      the list: the two operations are inverse. */
  lemma DetachAttach(order: seq<Bytes>, k: Bytes)
    requires k !in order
    ensures Detach(Attach(order, k), k) == order
  {
  }

  /** The keys the list holds. */
  ghost function Elems(s: seq<Bytes>): set<Bytes>
  {
    set x | x in s
  }

  /** A list has at most as many distinct keys as entries, and exactly as
      many only when no key is repeated. */
  lemma {:induction false} ElemsCard(s: seq<Bytes>)
    ensures |Elems(s)| <= |s|
    ensures |Elems(s)| == |s| ==> NoDup(s)
  {
    if s != [] {
      var t := s[1..];
      ElemsCard(t);
      assert Elems(s) == {s[0]} + Elems(t);
      if s[0] in t {
        assert Elems(s) == Elems(t);
      } else if |Elems(s)| == |s| {
        forall i, j | 0 <= i < j < |s|
          ensures s[i] != s[j]
        {
          if i == 0 {
            assert s[j] == t[j - 1];
          } else {
            assert s[i] == t[i - 1] && s[j] == t[j - 1];
          }
        }
      }
    }
  }

  /**
   * The global list holds exactly the keys of `m`, each once: it has as many
   * entries as `m` has keys and no other keys, so none can repeat.
   */
  ghost predicate Listed<V>(order: seq<Bytes>, m: map<Bytes, V>)
  {
    |order| == |m| && Elems(order) == m.Keys
  }

  lemma ListedNoDup<V>(order: seq<Bytes>, m: map<Bytes, V>)
    requires Listed(order, m)
    ensures NoDup(order)
    ensures forall k :: k in order <==> k in m
  {
    ElemsCard(order);
    assert |m.Keys| == |m|;
    forall k
      ensures k in order <==> k in m
    {
      assert k in order <==> k in Elems(order);
    }
  }

  /** Attaching the node of a new key keeps the list in step with the keys. */
  lemma ListedAttach<V>(order: seq<Bytes>, m: map<Bytes, V>, k: Bytes, v: V)
    requires Listed(order, m) && k !in m
    ensures Listed(Attach(order, k), m[k := v])
  {
    ListedNoDup(order, m);
    assert Elems(Attach(order, k)) == m[k := v].Keys;
  }

  /** Detaching the node of a present key keeps the list in step with the keys. */
  lemma ListedDetach<V>(order: seq<Bytes>, m: map<Bytes, V>, k: Bytes)
    requires Listed(order, m) && k in m
    ensures Listed(Detach(order, k), m - {k})
  {
    ListedNoDup(order, m);
    DetachFacts(order, k);
    assert Elems(Detach(order, k)) == (m - {k}).Keys;
  }
}
