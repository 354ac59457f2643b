/**
 * Capacity rounding and the load thresholds of src/chashmap.c: the capacity
 * constants, the power-of-two rounding of `chmap_create` and `chmap_reset`,
 * `set_chmap_scaling_limits`, and the grow/shrink decisions of
 * `chmap_insert_elem` and `chmap_delete_elem` as a small state machine over
 * (capacity, scale-up threshold, scale-down threshold).
 */
module Sizing {
  import opened Hashing

  /** `minimum_allowed_bucket_array_size`. */
  const MIN_CAPACITY: nat := 2048
  /** `scale_factor`: capacity is multiplied or divided by it. */
  const SCALE_FACTOR: nat := 4
  /** `minimum_scale_down_threshold`: a table only shrinks from this capacity up. */
  const MIN_SHRINK_CAPACITY: nat := SCALE_FACTOR * MIN_CAPACITY
  /** Largest capacity of the model, 2^29: up to it `cap * 6` and `cap * 4`
      fit the source's 32-bit arithmetic. */
  const MAX_CAPACITY: nat := 0x2000_0000
  /** Number of values of `uint32_t`. */
  const UINT32_RANGE: nat := 0x1_0000_0000

  predicate IsPow2(n: nat)
    decreases n
  {
    n == 1 || (n > 1 && n % 2 == 0 && IsPow2(n / 2))
  }

  /** What the capacity of a table always is: a power of two between the
      floor and the model's bound. */
  predicate IsCapacity(c: nat)
  {
    IsPow2(c) && MIN_CAPACITY <= c <= MAX_CAPACITY
  }

  /** Between two distinct powers of two there is at least a factor of two. */
  lemma {:induction false} Pow2Gap(p: nat, q: nat)
    requires IsPow2(p) && IsPow2(q) && p < q
    ensures 2 * p <= q
  {
    if p > 1 {
      Pow2Gap(p / 2, q / 2);
    }
  }

  lemma Pow2Double(p: nat)
    requires IsPow2(p)
    ensures IsPow2(2 * p)
  {
    assert (2 * p) / 2 == p;
  }

  lemma Pow2Half(p: nat)
    requires IsPow2(p) && p >= 2
    ensures IsPow2(p / 2) && p / 2 * 2 == p
  {
  }

  /** Growing and shrinking by the scale factor keep a power of two. */
  lemma Pow2Scale(p: nat)
    requires IsPow2(p)
    ensures IsPow2(p * SCALE_FACTOR)
    ensures p >= SCALE_FACTOR ==> IsPow2(p / SCALE_FACTOR) && p / SCALE_FACTOR * SCALE_FACTOR == p
  {
    Pow2Double(p);
    Pow2Double(2 * p);
    if p >= SCALE_FACTOR {
      Pow2Half(p);
      Pow2Half(p / 2);
    }
  }

  lemma {:induction false} Pow2IsPow2(k: nat)
    ensures IsPow2(Pow2(k))
  {
    if k > 0 {
      Pow2IsPow2(k - 1);
      Pow2Double(Pow2(k - 1));
    }
  }

  lemma MinCapacityIsPow2()
    ensures IsPow2(MIN_CAPACITY) && IsPow2(MAX_CAPACITY)
  {
    Pow2IsPow2(11);
    Pow2IsPow2(29);
    assert Pow2(11) == MIN_CAPACITY;
    assert Pow2(20) == 0x10_0000;
    assert Pow2(29) == MAX_CAPACITY;
  }

  /** The least power of two that is at least `n`, searched upwards from `p`. */
  function NextPow2From(p: nat, n: nat): (r: nat)
    requires IsPow2(p)
    ensures IsPow2(r) && r >= n && r >= p
    ensures forall q: nat | IsPow2(q) && q >= n && q >= p :: r <= q
    decreases if p >= n then 0 else n - p
  {
    if p >= n then p
    else
      Pow2Double(p);
      var r := NextPow2From(2 * p, n);
      assert forall q: nat | IsPow2(q) && q >= n && q >= p :: q >= 2 * p by {
        forall q: nat | IsPow2(q) && q >= n && q >= p
          ensures q >= 2 * p
        {
          Pow2Gap(p, q);
        }
      }
      r
  }

  /**
   * `powl(2, ceill(log2l(n)))`: the least power of two that is at least `n`.
   * For `n == 0`, `log2l` gives minus infinity and the result is 0.
   */
  function NextPow2(n: nat): (r: nat)
    ensures n == 0 ==> r == 0
    ensures n > 0 ==> IsPow2(r) && r >= n
    ensures n > 0 ==> forall q: nat | IsPow2(q) && q >= n :: r <= q
  {
    if n == 0 then 0 else NextPow2From(1, n)
  }

  /** `chmap_create`'s rounding of a nonzero requested capacity: the floor
      below it, the next power of two otherwise. */
  function CreateCapacity(n: nat): (r: nat)
    requires n > 0
    ensures IsPow2(r) && r >= n && r >= MIN_CAPACITY
    ensures forall q: nat | IsPow2(q) && q >= n && q >= MIN_CAPACITY :: r <= q
    ensures n <= MAX_CAPACITY ==> IsCapacity(r)
  {
    MinCapacityIsPow2();
    if n < MIN_CAPACITY then MIN_CAPACITY else NextPow2(n)
  }

  /** `chmap_reset`'s rounding: 0 stays 0 (keep the capacity); a nonzero
      request is rounded exactly as `chmap_create` rounds it. */
  function ResetCapacity(n: nat): (r: nat)
    ensures n == 0 ==> r == 0
    ensures n > 0 ==> r == CreateCapacity(n)
  {
    if 0 < n < MIN_CAPACITY then MIN_CAPACITY else NextPow2(n)
  }

  /** `bucket_arr_size * 6 / 4` as the source computes it, in 32 bits. */
  function ScaleUpLimitAsWritten(cap: nat): (r: nat)
    ensures r < UINT32_RANGE / 4
    ensures cap * 6 < UINT32_RANGE ==> r == ScaleUpLimit(cap)
  {
    (cap * 6 % UINT32_RANGE) / 4
  }

  /** The scale-up threshold `cap * 6 / 4` without overflow. */
  function ScaleUpLimit(cap: nat): nat
  {
    cap * 6 / 4
  }

  /** The scale-down threshold `bucket_arr_size / 8`. */
  function ScaleDownLimit(cap: nat): nat
  {
    cap / 8
  }

  /** A capacity of 2^30 (`chmap_create(1 << 30)`) overflows `cap * 6`: the
      threshold comes out as half the capacity instead of one and a half. */
  lemma ScaleUpLimitOverflows()
    ensures ScaleUpLimitAsWritten(0x4000_0000) == 0x2000_0000
    ensures ScaleUpLimit(0x4000_0000) == 0x6000_0000
  {
  }

  /** Within the model's capacities the source's 32-bit threshold is exact,
      and it is one and a half times the capacity. */
  lemma ScaleUpLimitExact(cap: nat)
    requires IsCapacity(cap)
    ensures ScaleUpLimitAsWritten(cap) == ScaleUpLimit(cap)
    ensures ScaleUpLimit(cap) == cap + cap / 2 > cap
    ensures ScaleDownLimit(cap) * 8 == cap
  {
    var q := cap / 8;
    assert cap == 8 * q by {
      Pow2Half(cap);
      Pow2Half(cap / 2);
      Pow2Half(cap / 4);
    }
  }

  /** Capacity and the two thresholds, as `set_chmap_scaling_limits` leaves
      them and as the tests read them back. */
  datatype Geometry = Geometry(cap: nat, up: nat, down: nat)

  /** `set_chmap_scaling_limits` for a capacity. */
  function Limits(cap: nat): Geometry
  {
    Geometry(cap, ScaleUpLimit(cap), ScaleDownLimit(cap))
  }

  /** After an insert of a new key brought the count to `count`: grow by the
      scale factor once the count reached the scale-up threshold (the array
      allocation succeeding). */
  function GrowAfterInsert(g: Geometry, count: nat): (r: Geometry)
    ensures r.cap == g.cap || r.cap == g.cap * SCALE_FACTOR
    ensures g.cap > 0 ==> (r.cap > g.cap <==> count >= g.up)
    ensures r.cap != g.cap ==> r == Limits(r.cap)
    ensures g.cap > 0 && r.cap == g.cap ==> r == g
  {
    if count >= g.up then Limits(g.cap * SCALE_FACTOR) else g
  }

  /** After a delete brought the count to `count`: shrink by the scale factor
      when the count fell below the scale-down threshold and the capacity is
      at least `MIN_SHRINK_CAPACITY` (the array allocation succeeding). */
  function ShrinkAfterDelete(g: Geometry, count: nat): (r: Geometry)
    ensures r.cap == g.cap || r.cap == g.cap / SCALE_FACTOR
    ensures r.cap < g.cap <==> count < g.down && g.cap >= MIN_SHRINK_CAPACITY
    ensures r.cap < g.cap ==> r == Limits(r.cap) && r.cap >= MIN_CAPACITY
    ensures r.cap == g.cap ==> r == g
  {
    if count < g.down && g.cap >= MIN_SHRINK_CAPACITY then Limits(g.cap / SCALE_FACTOR) else g
  }

  /** The geometry after `n` inserts of new keys into a table holding `count`. */
  function InsertRun(g: Geometry, count: nat, n: nat): Geometry
    decreases n
  {
    if n == 0 then g else InsertRun(GrowAfterInsert(g, count + 1), count + 1, n - 1)
  }

  /** The geometry after `n` deletes of present keys from a table holding `count`. */
  function DeleteRun(g: Geometry, count: nat, n: nat): Geometry
    requires n <= count
    decreases n
  {
    if n == 0 then g else DeleteRun(ShrinkAfterDelete(g, count - 1), count - 1, n - 1)
  }

  /** Inserts that keep the count below the scale-up threshold do not grow. */
  lemma {:induction false} InsertRunStable(g: Geometry, count: nat, n: nat)
    requires count + n < g.up
    ensures InsertRun(g, count, n) == g
    decreases n
  {
    if n > 0 {
      InsertRunStable(g, count + 1, n - 1);
    }
  }

  /** Deletes that keep the count at or above the scale-down threshold, or
      that happen below the shrink floor, do not shrink. */
  lemma {:induction false} DeleteRunStable(g: Geometry, count: nat, n: nat)
    requires n <= count
    requires count - n >= g.down || g.cap < MIN_SHRINK_CAPACITY
    ensures DeleteRun(g, count, n) == g
    decreases n
  {
    if n > 0 {
      DeleteRunStable(g, count - 1, n - 1);
    }
  }

  lemma {:induction false} InsertRunSplit(g: Geometry, count: nat, a: nat, b: nat)
    ensures InsertRun(g, count, a + b) == InsertRun(InsertRun(g, count, a), count + a, b)
    decreases a
  {
    if a > 0 {
      InsertRunSplit(GrowAfterInsert(g, count + 1), count + 1, a - 1, b);
    }
  }

  lemma {:induction false} DeleteRunSplit(g: Geometry, count: nat, a: nat, b: nat)
    requires a + b <= count
    ensures DeleteRun(g, count, a + b) == DeleteRun(DeleteRun(g, count, a), count - a, b)
    decreases a
  {
    if a > 0 {
      DeleteRunSplit(ShrinkAfterDelete(g, count - 1), count - 1, a - 1, b);
    }
  }

  /**
   * A table created at the floor capacity grows once its count passes the
   * scale-up threshold, which raises capacity and both thresholds; deleting
   * every key again shrinks it back to exactly the capacity and thresholds
   * it started with.
   */
  lemma ScalingRoundTrip()
    ensures var g0 := Limits(MIN_CAPACITY);
            var n := g0.up + 1;
            var g1 := InsertRun(g0, 0, n);
            && g1.cap > g0.cap && g1.up > g0.up && g1.down > g0.down
            && DeleteRun(g1, n, n) == g0
  {
    var g0 := Limits(MIN_CAPACITY);
    assert g0 == Geometry(2048, 3072, 256);
    var g1 := Limits(MIN_CAPACITY * SCALE_FACTOR);
    assert g1 == Geometry(8192, 12288, 1024);
    // inserts: counts 1..3071 keep g0, count 3072 grows, count 3073 stays
    InsertRunStable(g0, 0, 3071);
    InsertRunSplit(g0, 0, 3071, 2);
    assert InsertRun(g0, 3071, 2) == InsertRun(g1, 3072, 1);
    InsertRunStable(g1, 3072, 1);
    // deletes: counts 3072..1024 keep g1, count 1023 shrinks, the rest stay
    DeleteRunStable(g1, 3073, 2049);
    DeleteRunSplit(g1, 3073, 2049, 1024);
    assert DeleteRun(g1, 1024, 1024) == DeleteRun(g0, 1023, 1023);
    DeleteRunStable(g0, 1023, 1023);
  }
}
