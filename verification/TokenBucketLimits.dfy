/** When capacity plus rate times elapsed time limits the bucket as the service keeps it, expiry
    included. */
module TokenBucketLimits {
  import opened Prelude
  import opened TokenBucket
  import opened TokenBucketExpiry
  import Bounds = TokenBucketBounds

  /** The store's clock does not step back and every caller's clock is within `error` milliseconds
      of it. Callers read theirs in seconds. */
  predicate NearClock(tcs: seq<TimedCall>, error: int) {
    && (forall k :: 0 <= k < |tcs| ==>
          (tcs[k].clock - error) / 1000 <= tcs[k].call.now <= (tcs[k].clock + error) / 1000)
    && (forall i, j :: 0 <= i <= j < |tcs| ==> tcs[i].clock <= tcs[j].clock)
  }

  predicate StretchKeepsTextbook(tcs: seq<TimedCall>, capacity: int, rate: int, i: nat, j: nat)
    requires i <= j < |tcs|
  {
    Count(KeptDecisions(tcs), i, j + 1) <= capacity + rate * Max(0, tcs[j].call.now - tcs[i].call.now)
  }

  /** The textbook guarantee for one run of the expiring bucket. */
  ghost predicate KeepsTextbook(tcs: seq<TimedCall>, capacity: int, rate: int) {
    forall i: nat, j: nat :: i <= j < |tcs| ==> StretchKeepsTextbook(tcs, capacity, rate, i, j)
  }

  ghost predicate TextbookHolds(capacity: int, rate: int, error: int) {
    forall tcs: seq<TimedCall> ::
      NearClock(tcs, error) && FixedConfig(Calls(tcs), capacity, rate) ==> KeepsTextbook(tcs, capacity, rate)
  }

  lemma {:induction false} HourRefillsHidesExpiry(tcs: seq<TimedCall>, capacity: int, rate: int)
    requires rate > 0 && 0 < capacity <= BUCKET_TTL * rate
    requires OneClock(tcs) && FixedConfig(Calls(tcs), capacity, rate)
    ensures KeptDecisions(tcs) == Decisions(Calls(tcs)) && Ordered(Calls(tcs))
  {
    forall k: nat | k < |tcs| ensures KeptDecisions(tcs)[k] == Decisions(Calls(tcs))[k] {
      ShortBucketsExpireUnnoticed(tcs, capacity, rate, k);
    }
    forall i: nat, j: nat | i <= j < |tcs| ensures Calls(tcs)[i].now <= Calls(tcs)[j].now {
      assert tcs[i].clock <= tcs[j].clock;
    }
  }

  /** One more admission would break the guarantee for the stretch. */
  predicate WouldExceed(tcs: seq<TimedCall>, capacity: int, rate: int, i: nat, n: nat)
    requires i <= n < |tcs|
  {
    Count(KeptDecisions(tcs), i, n) + 1 > capacity + rate * (tcs[n].call.now - tcs[i].call.now)
  }

  lemma {:induction false} KeptStretchBound(tcs: seq<TimedCall>, capacity: int, rate: int, i: nat, n: nat)
    requires rate > 0 && 0 < capacity <= BUCKET_TTL * rate
    requires OneClock(tcs) && FixedConfig(Calls(tcs), capacity, rate) && i <= n < |tcs|
    ensures StretchKeepsTextbook(tcs, capacity, rate, i, n)
  {
    HourRefillsHidesExpiry(tcs, capacity, rate);
    Bounds.FixedConfigLaw(Calls(tcs), capacity, rate, n);
    assert Calls(tcs)[i].now <= Calls(tcs)[n].now;
  }

  lemma {:induction false} ExceedsIffNoSlack(tcs: seq<TimedCall>, capacity: int, rate: int, i: nat, n: nat)
    requires rate > 0 && 0 < capacity <= BUCKET_TTL * rate
    requires OneClock(tcs) && FixedConfig(Calls(tcs), capacity, rate) && i <= n < |tcs|
    ensures WouldExceed(tcs, capacity, rate, i, n) <==> Bounds.Slack(Calls(tcs), i, n) < 1
  {
    HourRefillsHidesExpiry(tcs, capacity, rate);
    Bounds.FixedBudget(Calls(tcs), capacity, rate, i, n);
  }

  lemma {:induction false} RefusedIffExceeds(tcs: seq<TimedCall>, capacity: int, rate: int, n: nat)
    requires rate > 0 && 0 < capacity <= BUCKET_TTL * rate
    requires OneClock(tcs) && FixedConfig(Calls(tcs), capacity, rate) && n < |tcs|
    ensures !KeptAdmitted(tcs, n) <==> exists i: nat :: i <= n && WouldExceed(tcs, capacity, rate, i, n)
  {
    forall i: nat | i <= n
      ensures WouldExceed(tcs, capacity, rate, i, n) <==> Bounds.Slack(Calls(tcs), i, n) < 1
    {
      ExceedsIffNoSlack(tcs, capacity, rate, i, n);
    }
    ShortBucketsExpireUnnoticed(tcs, capacity, rate, n);
    Bounds.AdmittedIffWithinBudget(Calls(tcs), n);
  }

  /** With one clock and a bucket an hour refills, the textbook guarantee holds, and a call is
      refused exactly when admitting it would break that for some stretch ending at it. */
  lemma {:induction false} KeptFixedConfigLaw(tcs: seq<TimedCall>, capacity: int, rate: int, n: nat)
    requires rate > 0 && 0 < capacity <= BUCKET_TTL * rate
    requires OneClock(tcs) && FixedConfig(Calls(tcs), capacity, rate) && n < |tcs|
    ensures forall i: nat :: i <= n ==> StretchKeepsTextbook(tcs, capacity, rate, i, n)
    ensures !KeptAdmitted(tcs, n) <==> exists i: nat :: i <= n && WouldExceed(tcs, capacity, rate, i, n)
  {
    forall i: nat | i <= n ensures StretchKeepsTextbook(tcs, capacity, rate, i, n) {
      KeptStretchBound(tcs, capacity, rate, i, n);
    }
    RefusedIffExceeds(tcs, capacity, rate, n);
  }

  /** A bucket an hour does not refill: after the hour it has expired and is full again. */
  lemma {:induction false} DrainAndWaitAdmitted(capacity: nat, rate: nat, k: nat)
    requires BUCKET_TTL * rate < capacity && rate > 0 && k <= capacity + BUCKET_TTL * rate
    ensures KeptAdmitted(DrainAndWait(capacity, rate), k)
  {
    if 0 < k <= capacity {
      Draining(capacity, rate, k);
      NothingRefilled(capacity - k, Call(0, capacity, rate));
    } else if k > capacity {
      SecondBurst(capacity, rate, k - capacity);
      NothingRefilled(2 * capacity - k, Call(3600, capacity, rate));
    }
  }

  lemma {:induction false} DrainAndWaitBreaksTextbook(capacity: nat, rate: nat)
    requires BUCKET_TTL * rate < capacity && rate > 0
    ensures !KeepsTextbook(DrainAndWait(capacity, rate), capacity, rate)
  {
    var tcs := DrainAndWait(capacity, rate);
    forall k: nat | k < |tcs| ensures KeptDecisions(tcs)[k] {
      DrainAndWaitAdmitted(capacity, rate, k);
    }
    CountAll(KeptDecisions(tcs), |tcs|);
    assert !StretchKeepsTextbook(tcs, capacity, rate, 0, |tcs| - 1);
  }

  /** Two callers a millisecond apart around a full second: one reads 9, the other 10. */
  function TimedSeesaw(n: nat, capacity: int, rate: int): (tcs: seq<TimedCall>)
    ensures |tcs| == n
    ensures forall k :: 0 <= k < n ==> tcs[k] == TimedCall(Bounds.Seesaw(n, capacity, rate)[k], 10000)
  {
    seq(n, k requires 0 <= k < n => TimedCall(Bounds.Seesaw(n, capacity, rate)[k], 10000))
  }

  /** The store's clock stands still, so nothing expires. */
  lemma {:induction false} SeesawDecides(n: nat, capacity: int, rate: int)
    ensures KeptDecisions(TimedSeesaw(n, capacity, rate)) == Decisions(Bounds.Seesaw(n, capacity, rate))
  {
    var tcs := TimedSeesaw(n, capacity, rate);
    assert Calls(tcs) == Bounds.Seesaw(n, capacity, rate);
    forall k: nat | k < n ensures KeptDecisions(tcs)[k] == Decisions(Calls(tcs))[k] {
      BusyBucketNeverExpires(tcs, k);
    }
  }

  lemma {:induction false} SeesawBreaksTextbook(capacity: int, rate: int)
    requires capacity > 0 && rate > 0
    ensures !KeepsTextbook(TimedSeesaw(2 * (capacity + rate + 1), capacity, rate), capacity, rate)
  {
    var pairs := capacity + rate + 1;
    var tcs := TimedSeesaw(2 * pairs, capacity, rate);
    SeesawDecides(2 * pairs, capacity, rate);
    Bounds.BackwardsClockRefillsAgain(2 * pairs, capacity, rate, pairs);
    assert tcs[0].call.now == 9 && tcs[2 * pairs - 1].call.now == 10;
    assert rate * Max(0, 10 - 9) == rate;
    assert !StretchKeepsTextbook(tcs, capacity, rate, 0, 2 * pairs - 1);
  }

  /** Capacity plus rate times elapsed time limits every stretch of every run of the bucket as the
      service keeps it exactly when no caller's clock is off and an hour refills the bucket. */
  lemma {:induction false} TextbookIff(capacity: int, rate: int, error: int)
    requires capacity > 0 && rate > 0 && error >= 0
    ensures TextbookHolds(capacity, rate, error) <==> error == 0 && capacity <= BUCKET_TTL * rate
  {
    if capacity > BUCKET_TTL * rate {
      var tcs := DrainAndWait(capacity, rate);
      DrainAndWaitBreaksTextbook(capacity, rate);
      assert NearClock(tcs, error) && FixedConfig(Calls(tcs), capacity, rate);
    } else if error > 0 {
      var tcs := TimedSeesaw(2 * (capacity + rate + 1), capacity, rate);
      SeesawBreaksTextbook(capacity, rate);
      assert NearClock(tcs, error) && FixedConfig(Calls(tcs), capacity, rate);
    } else {
      forall tcs: seq<TimedCall> | NearClock(tcs, error) && FixedConfig(Calls(tcs), capacity, rate)
        ensures KeepsTextbook(tcs, capacity, rate)
      {
        forall i: nat, j: nat | i <= j < |tcs| ensures StretchKeepsTextbook(tcs, capacity, rate, i, j) {
          KeptStretchBound(tcs, capacity, rate, i, j);
        }
      }
    }
  }
}
