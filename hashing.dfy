/**
 * Key comparison, hashing and bucket index of the table (src/chashmap.c).
 *
 * The machine is the little-endian LP64 one the source targets: an
 * `unsigned long` is 8 bytes wide, so a key of at most 8 bytes is read as
 * a little-endian integer, and arithmetic on the hash wraps modulo 2^64.
 */
module Hashing {

  /** One byte of a key or a value. */
  type Byte = b: int | 0 <= b < 256

  /** A length-tagged byte blob (`chmap_pair`). The empty sequence stands for
      both a NULL pointer and a zero size: the source rejects them alike. */
  type Bytes = seq<Byte>

  /** Width of `unsigned long` in bytes, and the number of its values. */
  const WORD_SIZE: nat := 8
  const WORD_RANGE: nat := 0x1_0000_0000_0000_0000

  /** 256^n, the number of values of `n` bytes. */
  function Pow256(n: nat): nat
  {
    if n == 0 then 1 else 256 * Pow256(n - 1)
  }

  /** The unsigned integer whose little-endian byte representation is `s`. */
  function LeValue(s: Bytes): nat
  {
    if s == [] then 0 else s[0] + 256 * LeValue(s[1..])
  }

  lemma {:induction false} Pow256Monotone(m: nat, n: nat)
    requires m <= n
    ensures Pow256(m) <= Pow256(n)
  {
    if m < n {
      Pow256Monotone(m, n - 1);
    }
  }

  /** A little-endian value of `n` bytes fits in `n` bytes. */
  lemma {:induction false} LeValueBound(s: Bytes)
    ensures LeValue(s) < Pow256(|s|)
  {
    if s != [] {
      LeValueBound(s[1..]);
    }
  }

  /** Two byte strings of the same length with the same little-endian value
      are the same string: the integer comparisons are byte comparisons. */
  lemma {:induction false} LeValueInjective(a: Bytes, b: Bytes)
    requires |a| == |b| && LeValue(a) == LeValue(b)
    ensures a == b
  {
    if a != [] {
      var x, y := LeValue(a[1..]), LeValue(b[1..]);
      assert a[0] + 256 * x == b[0] + 256 * y;
      LeValueInjective(a[1..], b[1..]);
      assert a == [a[0]] + a[1..] && b == [b[0]] + b[1..];
    }
  }

  /** Appending a byte adds it at the next byte position. */
  lemma {:induction false} LeValueAppend(s: Bytes, b: Byte)
    ensures LeValue(s + [b]) == LeValue(s) + b * Pow256(|s|)
  {
    if s != [] {
      assert (s + [b])[1..] == s[1..] + [b];
      LeValueAppend(s[1..], b);
      var v, p := LeValue(s[1..]), Pow256(|s| - 1);
      calc {
        LeValue(s + [b]);
        s[0] + 256 * (v + b * p);
        { assert 256 * (v + b * p) == 256 * v + b * (256 * p); }
        s[0] + 256 * v + b * (256 * p);
      }
    }
  }

  /**
   * `compare_key_pairs`: keys of different sizes differ; keys of the size of
   * an int, a long, a char or a short are compared as integers; any other
   * size with memcmp. The result is byte equality in every case.
   */
  function KeysEqual(a: Bytes, b: Bytes): (eq: bool)
    ensures eq <==> a == b
  {
    if |a| != |b| then false
    else if |a| == 4 && LeValue(a) == LeValue(b) then LeValueInjective(a, b); true
    else if |a| == 8 && LeValue(a) == LeValue(b) then LeValueInjective(a, b); true
    else if |a| == 1 && LeValue(a) == LeValue(b) then LeValueInjective(a, b); true
    else if |a| == 2 && LeValue(a) == LeValue(b) then LeValueInjective(a, b); true
    else a == b
  }

  /**
   * `assign_key_to_hash_id`: a key of at most a word is turned into a number.
   * Keys of 4, 8, 1 and 2 bytes are read as integers; other sizes are copied
   * byte by byte into a zeroed word. On a little-endian machine both give the
   * little-endian value of the key.
   */
  method AssignKeyToHashId(key: Bytes) returns (id: nat)
    requires |key| <= WORD_SIZE
    ensures id == LeValue(key)
    ensures id < WORD_RANGE
  {
    if |key| == 4 || |key| == 8 || |key| == 1 || |key| == 2 {
      id := LeValue(key);
    } else {
      id := 0;
      var i := 0;
      while i < |key|
        invariant 0 <= i <= |key|
        invariant id == LeValue(key[..i])
      {
        LeValueAppend(key[..i], key[i]);
        assert key[..i + 1] == key[..i] + [key[i]];
        id := id + key[i] * Pow256(i);
        i := i + 1;
      }
      assert key[..|key|] == key;
    }
    LeValueBound(key);
    Pow256Monotone(|key|, WORD_SIZE);
  }

  /** Bitwise exclusive or of two naturals, one bit at a time from the lowest. */
  function Xor(a: nat, b: nat): nat
    decreases a + b
  {
    if a == 0 && b == 0 then 0
    else (if a % 2 == b % 2 then 0 else 1) + 2 * Xor(a / 2, b / 2)
  }

  function Pow2(n: nat): (r: nat)
    ensures r > 0
  {
    if n == 0 then 1 else 2 * Pow2(n - 1)
  }

  lemma {:induction false} Pow2Pow256(n: nat)
    ensures Pow2(8 * n) == Pow256(n)
  {
    if n > 0 {
      Pow2Pow256(n - 1);
      var m := 8 * (n - 1);
      assert Pow2(m + 8) == 2 * Pow2(m + 7) == 4 * Pow2(m + 6) == 8 * Pow2(m + 5)
        == 16 * Pow2(m + 4) == 32 * Pow2(m + 3) == 64 * Pow2(m + 2) == 128 * Pow2(m + 1)
        == 256 * Pow2(m);
    }
  }

  /** Xor of two `n`-bit numbers is an `n`-bit number: `^=` on a word stays a word. */
  lemma {:induction false} XorBound(a: nat, b: nat, n: nat)
    requires a < Pow2(n) && b < Pow2(n)
    ensures Xor(a, b) < Pow2(n)
  {
    if !(a == 0 && b == 0) {
      assert n > 0;
      XorBound(a / 2, b / 2, n - 1);
    }
  }

  /** The lowest bit of a xor is the xor of the lowest bits. */
  lemma {:induction false} XorParity(a: nat, b: nat)
    ensures Xor(a, b) % 2 == (a + b) % 2
  {
    if a != 0 || b != 0 {
      var low := if a % 2 == b % 2 then 0 else 1;
      var high := Xor(a / 2, b / 2);
      assert Xor(a, b) == low + 2 * high;
      assert a + b == 2 * (a / 2 + b / 2) + a % 2 + b % 2;
      assert (a + b) % 2 == low;
    }
  }

  /** Reducing modulo an even number keeps the parity. */
  lemma ModEvenParity(x: nat, w: nat)
    requires w > 0 && w % 2 == 0
    ensures (x % w) % 2 == x % 2
  {
    var q, r := x / w, x % w;
    assert x == q * w + r;
    assert q * w == 2 * (q * (w / 2));
  }

  /** The term `2 * k[i] + 1` the long-key fold mixes in. */
  function Mix(b: Byte): nat
  {
    2 * b + 1
  }

  /**
   * The fold over the first `n` bytes of a key longer than a word: it starts
   * at `2*k[0]+1`, then adds the term at even positions (wrapping modulo 2^64
   * as `unsigned long` does) and xors it in at odd ones.
   */
  function Fold(k: Bytes, n: nat): (h: nat)
    requires 1 <= n <= |k|
    ensures h < WORD_RANGE
  {
    if n == 1 then Mix(k[0])
    else if (n - 1) % 2 == 0 then (Fold(k, n - 1) + Mix(k[n - 1])) % WORD_RANGE
    else
      Pow2Pow256(WORD_SIZE);
      XorBound(Fold(k, n - 1), Mix(k[n - 1]), 64);
      Xor(Fold(k, n - 1), Mix(k[n - 1]))
  }

  /** The hash the source stores in every entry (`hash_val`). */
  function Hash(key: Bytes): (h: nat)
    ensures h < WORD_RANGE
  {
    if |key| <= WORD_SIZE then
      LeValueBound(key);
      Pow256Monotone(|key|, WORD_SIZE);
      LeValue(key)
    else
      Fold(key, |key|)
  }

  /**
   * `calculate_bucket_index`: computes the hash of the key (a loop over the
   * bytes for a key longer than a word) and reduces it modulo the capacity.
   */
  method CalculateBucketIndex(cap: nat, key: Bytes) returns (index: nat, hash: nat)
    requires cap > 0
    ensures hash == Hash(key) && hash < WORD_RANGE
    ensures index == hash % cap && index < cap
  {
    if |key| <= WORD_SIZE {
      hash := AssignKeyToHashId(key);
    } else {
      hash := Mix(key[0]);
      var i := 1;
      while i < |key|
        invariant 1 <= i <= |key|
        invariant hash == Fold(key, i)
      {
        if i % 2 == 0 {
          hash := (hash + Mix(key[i])) % WORD_RANGE;
        } else {
          hash := Xor(hash, Mix(key[i]));
        }
        i := i + 1;
      }
    }
    index := hash % cap;
  }

  /** Keys of the same length of at most a word never collide: their hashes
      are their integer values. */
  lemma ShortKeysDoNotCollide(a: Bytes, b: Bytes)
    requires |a| == |b| <= WORD_SIZE
    requires Hash(a) == Hash(b)
    ensures a == b
  {
    LeValueInjective(a, b);
  }

  /** Adding an odd term and wrapping modulo 2^64 flips the lowest bit. */
  lemma AddOddFlips(h: nat, m: nat)
    requires m % 2 == 1
    ensures ((h + m) % WORD_RANGE) % 2 == (h + 1) % 2
  {
    ModEvenParity(h + m, WORD_RANGE);
  }

  /** Xoring an odd term flips the lowest bit. */
  lemma XorOddFlips(h: nat, m: nat)
    requires m % 2 == 1
    ensures Xor(h, m) % 2 == (h + 1) % 2
  {
    XorParity(h, m);
  }

  /** One step of the fold: position `n - 1` adds or xors the odd term in. */
  lemma FoldStep(k: Bytes, n: nat)
    requires 2 <= n <= |k|
    ensures Fold(k, n) % 2 == (Fold(k, n - 1) + 1) % 2
  {
    if (n - 1) % 2 == 0 {
      AddOddFlips(Fold(k, n - 1), Mix(k[n - 1]));
    } else {
      XorOddFlips(Fold(k, n - 1), Mix(k[n - 1]));
    }
  }

  /** Every step of the fold flips the lowest bit, since adding or xoring an
      odd term both do: the parity of the fold is the parity of its length. */
  lemma {:induction false} FoldParity(k: Bytes, n: nat)
    requires 1 <= n <= |k|
    ensures Fold(k, n) % 2 == n % 2
  {
    if n > 1 {
      FoldParity(k, n - 1);
      FoldStep(k, n);
    }
  }

  /**
   * A key longer than a word has a hash whose parity is that of its length,
   * so with an even capacity such keys only reach buckets whose index has
   * that parity too: keys of one fixed length above 8 use half the buckets.
   */
  lemma LongKeyIndexParity(key: Bytes, cap: nat)
    requires |key| > WORD_SIZE
    requires cap > 0 && cap % 2 == 0
    ensures Hash(key) % 2 == |key| % 2
    ensures (Hash(key) % cap) % 2 == |key| % 2
  {
    FoldParity(key, |key|);
    ModEvenParity(Hash(key), cap);
  }
}
