/**
 * The batch release schedule of the admission queue. Instants are milliseconds;
 * the schedule itself counts whole seconds.
 */
module AdmissionSchedule {
  import opened Prelude

  datatype PolicyData = PolicyData(batchSize: int, batchInterval: int)

  /** The exam contract admits only batches and intervals of at least one. */
  type Policy = p: PolicyData | p.batchSize >= 1 && p.batchInterval >= 1 witness PolicyData(10, 3)

  datatype Release = Release(releasedBatches: nat, releasedCount: nat)

  function ElapsedSeconds(anchor: int, now: int): nat {
    Max(0, (now - anchor) / 1000)
  }

  function ComputeBatchRelease(anchor: Option<int>, now: int, p: Policy): Release {
    match anchor
    case None => Release(0, 0)
    case Some(a) =>
      var batches := ElapsedSeconds(a, now) / p.batchInterval + 1;
      Release(batches, batches * p.batchSize)
  }

  /** `Math.ceil(ordinal / batchSize)`. */
  function ComputeBatchNumber(ordinal: nat, p: Policy): nat {
    (ordinal + p.batchSize - 1) / p.batchSize
  }

  /** The release predicate of the start gate. */
  predicate Eligible(anchor: Option<int>, ordinal: nat, now: int, p: Policy) {
    ComputeBatchNumber(ordinal, p) <= ComputeBatchRelease(anchor, now, p).releasedBatches
  }

  lemma DivisionBound(a: nat, b: nat, q: nat)
    requires b >= 1
    ensures a / b <= q <==> a < (q + 1) * b
  {
    var d := a / b;
    assert d * b <= a < (d + 1) * b;
    if d <= q {
      assert (d + 1) * b <= (q + 1) * b;
    } else {
      assert (q + 1) * b <= d * b;
    }
  }

  /** A batch is released exactly when every ordinal in it fits the released count. */
  lemma EligibleIffWithinCount(anchor: Option<int>, ordinal: nat, now: int, p: Policy)
    ensures Eligible(anchor, ordinal, now, p) <==> ordinal <= ComputeBatchRelease(anchor, now, p).releasedCount
  {
    var r := ComputeBatchRelease(anchor, now, p).releasedBatches;
    DivisionBound(ordinal + p.batchSize - 1, p.batchSize, r);
    assert (r + 1) * p.batchSize == r * p.batchSize + p.batchSize;
  }

  lemma DivisionMonotone(a: nat, a': nat, b: nat)
    requires b >= 1 && a <= a'
    ensures a / b <= a' / b
  {
    DivisionBound(a, b, a' / b);
    DivisionBound(a', b, a' / b);
  }

  /** Released batches never shrink as time passes. */
  lemma ReleaseMonotone(anchor: Option<int>, now: int, later: int, p: Policy)
    requires now <= later
    ensures ComputeBatchRelease(anchor, now, p).releasedBatches <= ComputeBatchRelease(anchor, later, p).releasedBatches
    ensures ComputeBatchRelease(anchor, now, p).releasedCount <= ComputeBatchRelease(anchor, later, p).releasedCount
  {
    if anchor.Some? {
      DivisionMonotone(ElapsedSeconds(anchor.value, now), ElapsedSeconds(anchor.value, later), p.batchInterval);
      var a, b := ComputeBatchRelease(anchor, now, p).releasedBatches,
        ComputeBatchRelease(anchor, later, p).releasedBatches;
      assert a * p.batchSize <= b * p.batchSize;
    }
  }

  /**
   * The timetable of the release: nothing before the first join, the first batch at once, one
   * more after each interval.
   */
  lemma BatchReleasedFrom(anchor: Option<int>, now: int, p: Policy, batch: nat)
    requires batch >= 1
    ensures batch <= ComputeBatchRelease(anchor, now, p).releasedBatches
       <==> anchor.Some? && (batch == 1 || anchor.value + (batch - 1) * p.batchInterval * 1000 <= now)
  {
    if anchor.Some? && batch >= 2 {
      var elapsed, wait := ElapsedSeconds(anchor.value, now), (batch - 1) * p.batchInterval;
      DivisionBound(elapsed, p.batchInterval, batch - 2);
      assert (batch - 2 + 1) * p.batchInterval == wait;
      assert wait >= 1;
      assert wait <= elapsed <==> wait * 1000 <= now - anchor.value;
    }
  }

  /** A membership of ordinal k is due from the start of interval (k - 1) / batchSize after the anchor. */
  lemma EligibleFromInstant(anchor: Option<int>, ordinal: nat, now: int, p: Policy)
    requires ordinal >= 1
    ensures var intervals := (ordinal - 1) / p.batchSize;
      Eligible(anchor, ordinal, now, p)
      <==> anchor.Some? && (intervals == 0 || anchor.value + intervals * p.batchInterval * 1000 <= now)
  {
    assert ordinal + p.batchSize - 1 == (ordinal - 1) + 1 * p.batchSize;
    ShiftByIntervals(ordinal - 1, 1, p.batchSize);
    BatchReleasedFrom(anchor, now, p, ComputeBatchNumber(ordinal, p));
  }

  function BatchesUntilReady(anchor: Option<int>, ordinal: nat, now: int, p: Policy): nat {
    Max(0, ComputeBatchNumber(ordinal, p) - ComputeBatchRelease(anchor, now, p).releasedBatches)
  }

  function EstimatedWaitSeconds(anchor: Option<int>, ordinal: nat, now: int, p: Policy): nat {
    BatchesUntilReady(anchor, ordinal, now, p) * p.batchInterval
  }

  lemma QuotientUnique(a: nat, b: nat, q: int)
    requires b >= 1 && q * b <= a < q * b + b
    ensures a / b == q
  {
    if q < 0 {
      assert false;
    }
    assert (q + 1) * b == q * b + b;
    DivisionBound(a, b, q);
    if q >= 1 {
      DivisionBound(a, b, q - 1);
    }
  }

  lemma ShiftByIntervals(x: nat, k: int, interval: nat)
    requires interval >= 1 && x + k * interval >= 0
    ensures (x + k * interval) / interval == x / interval + k
  {
    var q := x / interval;
    assert x == q * interval + x % interval;
    assert x + k * interval == (q + k) * interval + x % interval;
    QuotientUnique(x + k * interval, interval, q + k);
  }

  lemma ReleaseAfterIntervals(anchor: int, now: int, k: int, p: Policy)
    requires anchor <= now && anchor <= now + k * p.batchInterval * 1000
    ensures ComputeBatchRelease(Some(anchor), now + k * p.batchInterval * 1000, p).releasedBatches
         == ComputeBatchRelease(Some(anchor), now, p).releasedBatches + k
  {
    var wait := k * p.batchInterval;
    assert (now + wait * 1000 - anchor) / 1000 == (now - anchor) / 1000 + wait;
    ShiftByIntervals((now - anchor) / 1000, k, p.batchInterval);
  }

  /**
   * The wait estimate is exact to one interval. An estimate of zero means the
   * ordinal is eligible now. A positive estimate e, asked at or after the anchor,
   * is enough (eligible at now + e) and no interval too long (not eligible one
   * interval earlier).
   */
  lemma WaitEstimateExact(anchor: int, ordinal: nat, now: int, p: Policy)
    requires anchor <= now
    ensures var e := EstimatedWaitSeconds(Some(anchor), ordinal, now, p);
      && (e == 0 <==> Eligible(Some(anchor), ordinal, now, p))
      && Eligible(Some(anchor), ordinal, now + e * 1000, p)
      && (e > 0 ==> e >= p.batchInterval && !Eligible(Some(anchor), ordinal, now + (e - p.batchInterval) * 1000, p))
  {
    var n := BatchesUntilReady(Some(anchor), ordinal, now, p);
    var e := EstimatedWaitSeconds(Some(anchor), ordinal, now, p);
    assert e == n * p.batchInterval;
    if n > 0 {
      assert n * p.batchInterval >= p.batchInterval by {
        assert (n - 1) * p.batchInterval >= 0;
      }
      ReleaseAfterIntervals(anchor, now, n, p);
      assert (n - 1) * p.batchInterval == e - p.batchInterval;
      ReleaseAfterIntervals(anchor, now, n - 1, p);
    }
  }

  /** Asked before the anchor, a positive estimate falls short: the clock of the schedule has not started. */
  lemma WaitEstimateExactIffAnchorReached(anchor: int, ordinal: nat, now: int, p: Policy)
    ensures var e := EstimatedWaitSeconds(Some(anchor), ordinal, now, p);
      e > 0 ==> (Eligible(Some(anchor), ordinal, now + e * 1000, p) <==> anchor <= now)
  {
    var e := EstimatedWaitSeconds(Some(anchor), ordinal, now, p);
    if anchor <= now {
      WaitEstimateExact(anchor, ordinal, now, p);
    } else if e > 0 {
      var n := BatchesUntilReady(Some(anchor), ordinal, now, p);
      assert ElapsedSeconds(anchor, now) == 0;
      assert ComputeBatchRelease(Some(anchor), now, p).releasedBatches == 1;
      assert (now + e * 1000 - anchor) / 1000 == (now - anchor) / 1000 + e < e;
      var elapsed := ElapsedSeconds(anchor, now + e * 1000);
      assert elapsed < n * p.batchInterval;
      DivisionBound(elapsed, p.batchInterval, n - 1);
    }
  }
}
