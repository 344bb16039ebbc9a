/**
 The bucket ladder of src/config.rs: the bucket size, in seconds, that a window's duration selects.
 */
module Ladder {
  // Windows are evaluated over at least this many buckets.
  const BUCKET_TARGET_COUNT: nat := 50
  // One day: the largest bucket size the ladder may reach.
  const MAX_BUCKET_SIZE: nat := 86400
  const MIN_WINDOW_SECS: nat := 60
  // 31 days.
  const MAX_WINDOW_SECS: nat := 2678400

  type Size = n: nat | n > 0 witness 1

  /** A rung of the ladder: a power of two not above the one-day cap. */
  predicate Rung(size: nat) {
    size <= MAX_BUCKET_SIZE && PowerOfTwo(size)
  }

  predicate PowerOfTwo(n: nat) {
    n == 1 || (n > 0 && n % 2 == 0 && PowerOfTwo(n / 2))
  }

  /** Whether `secs` seconds span enough buckets of `size` seconds each. */
  predicate Spans(secs: nat, size: Size) {
    secs / size >= BUCKET_TARGET_COUNT
  }

  /** The rung reached by climbing from `size`. */
  function Climb(secs: nat, size: Size): Size
    decreases MAX_BUCKET_SIZE - size
  {
    if size * 2 <= MAX_BUCKET_SIZE && Spans(secs, size * 2) then Climb(secs, size * 2) else size
  }

  function BucketSize(secs: nat): Size {
    Climb(secs, 1)
  }

  /** The loop of `bucket_size`. */
  method ComputeBucketSize(secs: nat) returns (size: Size)
    ensures size == BucketSize(secs)
  {
    size := 1;
    while size * 2 <= MAX_BUCKET_SIZE && Spans(secs, size * 2)
      invariant Climb(secs, size) == BucketSize(secs)
      decreases MAX_BUCKET_SIZE - size
    {
      size := size * 2;
    }
  }

  /** Rungs above a rung are at least twice as large. */
  lemma {:induction false} NextRung(p: nat, q: nat)
    requires PowerOfTwo(p) && PowerOfTwo(q) && p < q
    ensures 2 * p <= q
  {
    if p > 1 {
      NextRung(p / 2, q / 2);
    }
  }

  lemma SpansIsDownward(secs: nat, p: Size, q: Size)
    requires p <= q && Spans(secs, q)
    ensures Spans(secs, p)
  {
    SpansAsProduct(secs, p);
    SpansAsProduct(secs, q);
  }

  lemma SpansAsProduct(secs: nat, p: Size)
    ensures Spans(secs, p) <==> BUCKET_TARGET_COUNT * p <= secs
  {
    var q := secs / p;
    assert secs == p * q + secs % p;
    if q >= BUCKET_TARGET_COUNT {
      assert p * q >= p * BUCKET_TARGET_COUNT;
    } else {
      assert p * (q + 1) <= p * BUCKET_TARGET_COUNT;
    }
  }

  lemma NothingAbove(secs: nat, size: Size)
    requires Rung(size)
    requires !(size * 2 <= MAX_BUCKET_SIZE && Spans(secs, size * 2))
    ensures forall p: Size :: Rung(p) && Spans(secs, p) ==> p <= size
  {
    forall p: Size | Rung(p) && Spans(secs, p)
      ensures p <= size
    {
      if size < p {
        NextRung(size, p);
        SpansIsDownward(secs, size * 2, p);
      }
    }
  }

  lemma {:induction false} ClimbIsLargest(secs: nat, size: Size)
    requires Rung(size) && (size == 1 || Spans(secs, size))
    ensures Rung(Climb(secs, size)) && (Climb(secs, size) == 1 || Spans(secs, Climb(secs, size)))
    ensures forall p: Size :: Rung(p) && Spans(secs, p) ==> p <= Climb(secs, size)
    decreases MAX_BUCKET_SIZE - size
  {
    if size * 2 <= MAX_BUCKET_SIZE && Spans(secs, size * 2) {
      DoubledPower(size);
      ClimbIsLargest(secs, size * 2);
    } else {
      NothingAbove(secs, size);
    }
  }

  /** A power of two, no longer than a day, of which fifty fit into `secs`. */
  predicate Fits(secs: nat, size: Size) {
    PowerOfTwo(size) && size <= 24 * 60 * 60 && 50 * size <= secs
  }

  /** The largest size that fits, or one second when none does. */
  ghost predicate LargestFitting(secs: nat, size: Size) {
    && (size == 1 || Fits(secs, size))
    && forall p: Size :: Fits(secs, p) ==> p <= size
  }

  lemma BucketSizeFits(secs: nat)
    ensures LargestFitting(secs, BucketSize(secs))
  {
    ClimbIsLargest(secs, 1);
    SpansAsProduct(secs, BucketSize(secs));
    forall p: Size | Fits(secs, p)
      ensures p <= BucketSize(secs)
    {
      SpansAsProduct(secs, p);
      assert Rung(p);
    }
  }

  /** The bucket size is the one largest power of two, up to a day, that fits fifty times. */
  lemma BucketSizeIsLargestSpannedRung(secs: nat, size: Size)
    ensures size == BucketSize(secs) <==> LargestFitting(secs, size)
  {
    BucketSizeFits(secs);
  }

  lemma BucketSizeIsMonotone(shorter: nat, longer: nat)
    requires shorter <= longer
    ensures BucketSize(shorter) <= BucketSize(longer)
  {
    ClimbIsLargest(shorter, 1);
    ClimbIsLargest(longer, 1);
    var size := BucketSize(shorter);
    SpansAsProduct(shorter, size);
    SpansAsProduct(longer, size);
  }

  /**
   On every duration the configuration accepts, a bucket is between 1/100 (exclusive) and 1/50 of the
   window, so the one-day cap never stops the climb.
   */
  lemma ValidDurationsSpanFiftyToAHundredBuckets(secs: nat)
    requires 60 <= secs <= 31 * 24 * 60 * 60
    ensures 50 * BucketSize(secs) <= secs < 100 * BucketSize(secs)
    ensures BucketSize(secs) * 2 <= 24 * 60 * 60
  {
    ClimbIsLargest(secs, 1);
    var size := BucketSize(secs);
    SpansAsProduct(secs, size);
    SpansAsProduct(secs, size * 2);
    RungsBelow32768AreDoubled(size);
  }

  lemma RungsBelow32768AreDoubled(size: Size)
    requires Rung(size)
    ensures size <= 32768 ==> Rung(size * 2)
    ensures size > 32768 ==> size == 65536
  {
    DoubledPower(size);
    LargestPowers();
    if size > 32768 {
      NextRung(32768, size);
    }
    if size > 65536 {
      NextRung(65536, size);
    }
  }

  lemma LargestPowers()
    ensures PowerOfTwo(32768) && PowerOfTwo(65536)
  {
    assert PowerOfTwo(8) && PowerOfTwo(64) && PowerOfTwo(512) && PowerOfTwo(4096);
  }

  lemma DoubledPower(n: Size)
    requires PowerOfTwo(n)
    ensures PowerOfTwo(n * 2)
  {
    assert n * 2 / 2 == n && n * 2 % 2 == 0;
  }
}
