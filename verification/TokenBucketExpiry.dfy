/** The one-hour expiry of a bucket key, and when it cannot be noticed. */
module TokenBucketExpiry {
  import opened Prelude
  import opened TokenBucket

  /** A key given a time to live is gone once the store's clock, in milliseconds, has passed its
      deadline. */
  datatype Kept = Kept(bucket: Bucket, deadline: int)

  /** A call together with the store's clock when its script runs. */
  datatype TimedCall = TimedCall(call: Call, clock: int)

  const BUCKET_TTL := 3600

  function Live(s: Option<Kept>, clock: int): Option<Bucket> {
    if s.Some? && clock <= s.value.deadline then Some(s.value.bucket) else None
  }

  /** Every call stores the bucket and restarts its hour. */
  function KeptNext(s: Option<Kept>, tc: TimedCall): Kept {
    Kept(Next(Live(s, tc.clock), tc.call), tc.clock + 1000 * BUCKET_TTL)
  }

  function KeptAfter(tcs: seq<TimedCall>, n: nat): Option<Kept>
    requires n <= |tcs|
  {
    if n == 0 then None else Some(KeptNext(KeptAfter(tcs, n - 1), tcs[n - 1]))
  }

  predicate KeptAdmitted(tcs: seq<TimedCall>, k: nat)
    requires k < |tcs|
  {
    Admits(Live(KeptAfter(tcs, k), tcs[k].clock), tcs[k].call)
  }

  function KeptState(tcs: seq<TimedCall>): Option<Kept> {
    KeptAfter(tcs, |tcs|)
  }

  function KeptDecisions(tcs: seq<TimedCall>): (d: seq<bool>)
    ensures |d| == |tcs|
    ensures forall k :: 0 <= k < |tcs| ==> d[k] == KeptAdmitted(tcs, k)
  {
    seq(|tcs|, k requires 0 <= k < |tcs| => KeptAdmitted(tcs, k))
  }

  lemma {:induction false} KeptPrefix(tcs: seq<TimedCall>, more: seq<TimedCall>, n: nat)
    requires n <= |tcs|
    ensures KeptAfter(tcs + more, n) == KeptAfter(tcs, n)
  {
    if n > 0 {
      KeptPrefix(tcs, more, n - 1);
      assert (tcs + more)[n - 1] == tcs[n - 1];
    }
  }

  lemma {:induction false} KeptSnoc(tcs: seq<TimedCall>, tc: TimedCall)
    ensures KeptState(tcs + [tc]) == Some(KeptNext(KeptState(tcs), tc))
    ensures KeptDecisions(tcs + [tc]) == KeptDecisions(tcs) + [Admits(Live(KeptState(tcs), tc.clock), tc.call)]
  {
    KeptPrefix(tcs, [tc], |tcs|);
    forall k: nat | k < |tcs| ensures KeptAdmitted(tcs + [tc], k) == KeptAdmitted(tcs, k) {
      KeptPrefix(tcs, [tc], k);
    }
  }

  /** The same calls on a bucket that never expires. */
  function Calls(tcs: seq<TimedCall>): (calls: seq<Call>)
    ensures |calls| == |tcs|
    ensures forall k :: 0 <= k < |tcs| ==> calls[k] == tcs[k].call
  {
    seq(|tcs|, k requires 0 <= k < |tcs| => tcs[k].call)
  }

  /** Expiry changes no decision of the run. */
  ghost predicate ExpiryUnnoticed(tcs: seq<TimedCall>) {
    forall k: nat :: k < |tcs| ==> KeptAdmitted(tcs, k) == Admitted(Calls(tcs), k)
  }

  /** Callers and store share one clock that does not step back. Callers read it in seconds. */
  predicate OneClock(tcs: seq<TimedCall>) {
    && (forall k :: 0 <= k < |tcs| ==> tcs[k].call.now == tcs[k].clock / 1000)
    && (forall i, j :: 0 <= i <= j < |tcs| ==> tcs[i].clock <= tcs[j].clock)
  }

  ghost predicate ExpiryTransparent(capacity: int, rate: int) {
    forall tcs: seq<TimedCall> ::
      OneClock(tcs) && FixedConfig(Calls(tcs), capacity, rate) ==> ExpiryUnnoticed(tcs)
  }

  /** The stored bucket is the one that never expires, as long as expiry is unnoticed. */
  predicate SameBucket(tcs: seq<TimedCall>, n: nat)
    requires n <= |tcs|
  {
    match KeptAfter(tcs, n)
    case None => After(Calls(tcs), n) == None
    case Some(kept) => After(Calls(tcs), n) == Some(kept.bucket)
  }

  /** An hour refills a bucket whose capacity is at most an hour's refill, so a bucket that has
      just expired and one that has not offer the same tokens. */
  lemma {:induction false} HourRefills(b: Bucket, c: Call)
    requires 0 <= b.tokens && c.refillRate > 0 && c.capacity <= BUCKET_TTL * c.refillRate
    requires c.now - b.lastRefill >= BUCKET_TTL
    ensures Refilled(Some(b), c) == c.capacity
  {
    NonNegativeProduct(c.now - b.lastRefill - BUCKET_TTL, c.refillRate);
  }

  lemma {:induction false} ExpiryInvisibleStep(tcs: seq<TimedCall>, capacity: int, rate: int, n: nat)
    requires 0 < capacity <= BUCKET_TTL * rate && rate > 0
    requires OneClock(tcs) && FixedConfig(Calls(tcs), capacity, rate) && n < |tcs|
    requires SameBucket(tcs, n)
    requires n > 0 ==> KeptAfter(tcs, n).value.deadline == tcs[n - 1].clock + 3600000
    ensures Refilled(Live(KeptAfter(tcs, n), tcs[n].clock), tcs[n].call)
            == Refilled(After(Calls(tcs), n), tcs[n].call)
  {
    if n > 0 && Live(KeptAfter(tcs, n), tcs[n].clock) == None {
      TokensWithinCapacity(Calls(tcs), n);
      HourRefills(After(Calls(tcs), n).value, tcs[n].call);
    }
  }

  lemma {:induction false} ShortBucketsExpireUnnoticed(tcs: seq<TimedCall>, capacity: int, rate: int, n: nat)
    requires 0 < capacity <= BUCKET_TTL * rate && rate > 0
    requires OneClock(tcs) && FixedConfig(Calls(tcs), capacity, rate) && n <= |tcs|
    ensures SameBucket(tcs, n)
    ensures n < |tcs| ==> KeptAdmitted(tcs, n) == Admitted(Calls(tcs), n)
    decreases n
  {
    if n > 0 {
      ShortBucketsExpireUnnoticed(tcs, capacity, rate, n - 1);
      ExpiryInvisibleStep(tcs, capacity, rate, n - 1);
    }
    if n < |tcs| {
      ExpiryInvisibleStep(tcs, capacity, rate, n);
    }
  }

  // ---- A run that notices the expiry ----

  /** `k` calls at one instant of the store's clock. */
  function Burst(k: nat, clock: int, capacity: int, rate: int): (tcs: seq<TimedCall>)
    ensures |tcs| == k
    ensures forall i :: 0 <= i < k ==> tcs[i] == TimedCall(Call(clock / 1000, capacity, rate), clock)
  {
    seq(k, i => TimedCall(Call(clock / 1000, capacity, rate), clock))
  }

  const LATER := 3600001

  /** Empty the bucket, wait until it has just expired, then ask for one token more than an hour
      refills. */
  function DrainAndWait(capacity: nat, rate: nat): (tcs: seq<TimedCall>)
    ensures |tcs| == capacity + BUCKET_TTL * rate + 1
    ensures forall i :: 0 <= i < |tcs| ==>
              tcs[i] == if i < capacity then TimedCall(Call(0, capacity, rate), 0)
                        else TimedCall(Call(3600, capacity, rate), LATER)
  {
    Burst(capacity, 0, capacity, rate) + Burst(BUCKET_TTL * rate + 1, LATER, capacity, rate)
  }

  lemma {:induction false} NothingRefilled(tokens: int, c: Call)
    ensures Refilled(Some(Bucket(tokens, c.now)), c) == Min(c.capacity, tokens)
  {
  }

  /** Within one instant an admission takes one token and nothing is refilled. */
  lemma {:induction false} OneTokenLess(tokens: int, c: Call)
    requires 1 <= tokens <= c.capacity
    ensures Next(Some(Bucket(tokens, c.now)), c) == Bucket(tokens - 1, c.now)
  {
  }

  lemma {:induction false} Draining(capacity: nat, rate: nat, n: nat)
    requires 0 < n <= capacity && rate > 0
    ensures var tcs := DrainAndWait(capacity, rate);
            && KeptAfter(tcs, n) == Some(Kept(Bucket(capacity - n, 0), 3600000))
            && After(Calls(tcs), n) == Some(Bucket(capacity - n, 0))
  {
    if n > 1 {
      Draining(capacity, rate, n - 1);
      OneTokenLess(capacity - n + 1, Call(0, capacity, rate));
    }
  }

  /** The first late call finds the expired bucket full and the kept one with an hour's refill. */
  lemma {:induction false} FirstLateCall(capacity: nat, rate: nat)
    requires BUCKET_TTL * rate < capacity && rate > 0
    ensures var tcs := DrainAndWait(capacity, rate);
            && KeptAfter(tcs, capacity + 1) == Some(Kept(Bucket(capacity - 1, 3600), LATER + 3600000))
            && After(Calls(tcs), capacity + 1) == Some(Bucket(BUCKET_TTL * rate - 1, 3600))
  {
    Draining(capacity, rate, capacity);
  }

  lemma {:induction false} SecondBurst(capacity: nat, rate: nat, n: nat)
    requires BUCKET_TTL * rate < capacity && rate > 0 && 0 < n <= BUCKET_TTL * rate
    ensures var tcs := DrainAndWait(capacity, rate);
            && KeptAfter(tcs, capacity + n) == Some(Kept(Bucket(capacity - n, 3600), LATER + 3600000))
            && After(Calls(tcs), capacity + n) == Some(Bucket(BUCKET_TTL * rate - n, 3600))
  {
    if n > 1 {
      SecondBurst(capacity, rate, n - 1);
      OneTokenLess(capacity - n + 1, Call(3600, capacity, rate));
      OneTokenLess(BUCKET_TTL * rate - n + 1, Call(3600, capacity, rate));
    } else {
      FirstLateCall(capacity, rate);
    }
  }

  lemma {:induction false} ExpiryNoticed(capacity: nat, rate: nat)
    requires BUCKET_TTL * rate < capacity && rate > 0
    ensures var tcs := DrainAndWait(capacity, rate);
            OneClock(tcs) && FixedConfig(Calls(tcs), capacity, rate) && !ExpiryUnnoticed(tcs)
  {
    var tcs := DrainAndWait(capacity, rate);
    var hour := BUCKET_TTL * rate;
    SecondBurst(capacity, rate, hour);
    NothingRefilled(capacity - hour, Call(3600, capacity, rate));
    NothingRefilled(0, Call(3600, capacity, rate));
    assert KeptAdmitted(tcs, capacity + hour) && !Admitted(Calls(tcs), capacity + hour);
  }

  /** The one-hour expiry is unobservable, on every run of one clock, exactly when an hour refills
      the whole bucket. */
  lemma {:induction false} ExpiryTransparentIff(capacity: int, rate: int)
    requires capacity > 0 && rate > 0
    ensures ExpiryTransparent(capacity, rate) <==> capacity <= BUCKET_TTL * rate
  {
    if capacity <= BUCKET_TTL * rate {
      forall tcs: seq<TimedCall> | OneClock(tcs) && FixedConfig(Calls(tcs), capacity, rate)
        ensures ExpiryUnnoticed(tcs)
      {
        forall k: nat | k < |tcs| ensures KeptAdmitted(tcs, k) == Admitted(Calls(tcs), k) {
          ShortBucketsExpireUnnoticed(tcs, capacity, rate, k);
        }
      }
    } else {
      ExpiryNoticed(capacity, rate);
      assert !ExpiryUnnoticed(DrainAndWait(capacity, rate));
    }
  }

  /** With calls at most an hour apart on the store's clock nothing expires, whatever the callers'
      clocks and configurations, so everything proved of `TokenBucket.Decisions` applies. */
  lemma {:induction false} BusyBucketNeverExpires(tcs: seq<TimedCall>, n: nat)
    requires n <= |tcs|
    requires forall k :: 0 < k < |tcs| ==> tcs[k].clock <= tcs[k - 1].clock + 1000 * BUCKET_TTL
    ensures SameBucket(tcs, n)
    ensures n < |tcs| ==> KeptAdmitted(tcs, n) == Admitted(Calls(tcs), n)
    decreases n
  {
    if n > 0 {
      BusyBucketNeverExpires(tcs, n - 1);
    }
  }

  // ---- The bound with expiry ----

  /** The budget of a stretch when a silence of more than an hour fills the bucket up again. */
  function TimedBudget(tcs: seq<TimedCall>, i: nat, j: nat): int
    requires i <= j < |tcs|
    decreases j
  {
    if i == j then tcs[i].call.capacity
    else if tcs[j].clock > tcs[j - 1].clock + 1000 * BUCKET_TTL
    then TimedBudget(tcs, i, j - 1) + tcs[j].call.capacity
    else TimedBudget(tcs, i, j - 1)
         + Max(0, tcs[j].call.now - tcs[j - 1].call.now) * tcs[j].call.refillRate
  }

  lemma {:induction false} KeptTokensNonNegative(tcs: seq<TimedCall>, n: nat)
    requires PositiveConfigs(Calls(tcs)) && 0 < n <= |tcs|
    ensures KeptAfter(tcs, n).value.bucket.tokens >= 0
    ensures KeptAfter(tcs, n).value.bucket.lastRefill == tcs[n - 1].call.now
    ensures KeptAfter(tcs, n).value.deadline == tcs[n - 1].clock + 1000 * BUCKET_TTL
  {
    assert Calls(tcs)[n - 1] == tcs[n - 1].call;
    if n > 1 {
      KeptTokensNonNegative(tcs, n - 1);
      NonNegativeProduct(Max(0, tcs[n - 1].call.now - tcs[n - 2].call.now), tcs[n - 1].call.refillRate);
    }
  }

  /** What a stretch admitted and what the bucket still holds never exceed the stretch's budget:
      for any callers' clocks, any store clock, any configurations and any expiries. */
  lemma {:induction false} TimedStretchBound(tcs: seq<TimedCall>, i: nat, j: nat)
    requires PositiveConfigs(Calls(tcs)) && i <= j < |tcs|
    ensures 0 <= KeptAfter(tcs, j + 1).value.bucket.tokens
    ensures Count(KeptDecisions(tcs), i, j + 1) + KeptAfter(tcs, j + 1).value.bucket.tokens
            <= TimedBudget(tcs, i, j)
    decreases j
  {
    KeptTokensNonNegative(tcs, j + 1);
    assert Calls(tcs)[j] == tcs[j].call;
    assert KeptDecisions(tcs)[j] == KeptAdmitted(tcs, j);
    assert Count(KeptDecisions(tcs), i, i) == 0;
    if i < j {
      TimedStretchBound(tcs, i, j - 1);
      KeptTokensNonNegative(tcs, j);
    }
  }

  // ---- The exact law with expiry ----

  /** The tokens offered to call `n`: a full bucket after an expiry, the refill otherwise. */
  function Offered(tcs: seq<TimedCall>, n: nat): int
    requires n < |tcs|
  {
    Refilled(Live(KeptAfter(tcs, n), tcs[n].clock), tcs[n].call)
  }

  /** What is left of the budget of the stretch starting at `i` when call `n` arrives. */
  function TimedSlack(tcs: seq<TimedCall>, i: nat, n: nat): int
    requires i <= n < |tcs|
  {
    TimedBudget(tcs, i, n) - Count(KeptDecisions(tcs), i, n)
  }

  /** The step of `TokenBucketBounds.SlackStep`, when the bucket may have expired in between. */
  lemma {:induction false} TimedSlackStep(tcs: seq<TimedCall>, i: nat, n: nat)
    requires PositiveConfigs(Calls(tcs)) && i < n < |tcs|
    ensures var spent := if KeptAdmitted(tcs, n - 1) then 1 else 0;
            var left := Offered(tcs, n - 1) - spent;
            var expired := tcs[n].clock > tcs[n - 1].clock + 1000 * BUCKET_TTL;
            var gain := if expired then tcs[n].call.capacity
                        else Max(0, tcs[n].call.now - tcs[n - 1].call.now) * tcs[n].call.refillRate;
            && left >= 0
            && TimedSlack(tcs, i, n) == TimedSlack(tcs, i, n - 1) + gain - spent
            && Offered(tcs, n) == (if expired then tcs[n].call.capacity else Min(tcs[n].call.capacity, left + gain))
  {
    KeptTokensNonNegative(tcs, n);
    assert KeptDecisions(tcs)[n - 1] == KeptAdmitted(tcs, n - 1);
  }

  lemma {:induction false} OfferWithinSlack(tcs: seq<TimedCall>, i: nat, n: nat)
    requires PositiveConfigs(Calls(tcs)) && i <= n < |tcs|
    ensures Offered(tcs, n) <= TimedSlack(tcs, i, n)
    decreases n
  {
    if i < n {
      OfferWithinSlack(tcs, i, n - 1);
      TimedSlackStep(tcs, i, n);
    }
  }

  lemma {:induction false} TightTimedStretch(tcs: seq<TimedCall>, n: nat) returns (i: nat)
    requires PositiveConfigs(Calls(tcs)) && n < |tcs|
    ensures i <= n && Offered(tcs, n) == TimedSlack(tcs, i, n)
  {
    i := n;
    if n > 0 && Offered(tcs, n) != tcs[n].call.capacity {
      i := TightTimedStretch(tcs, n - 1);
      TimedSlackStep(tcs, i, n);
    }
  }

  /** Closed form of the expiring bucket: for any callers' clocks, any store clock and any positive
      configurations, the tokens offered to call `n` are the least slack over all stretches ending at
      it, so it is admitted exactly when one more admission overdraws none of them. */
  lemma {:induction false} OfferIsLeastSlack(tcs: seq<TimedCall>, n: nat)
    requires PositiveConfigs(Calls(tcs)) && n < |tcs|
    ensures forall i: nat :: i <= n ==> Offered(tcs, n) <= TimedSlack(tcs, i, n)
    ensures exists i: nat :: i <= n && Offered(tcs, n) == TimedSlack(tcs, i, n)
    ensures KeptAdmitted(tcs, n) <==> forall i: nat :: i <= n ==> TimedSlack(tcs, i, n) >= 1
  {
    var i := TightTimedStretch(tcs, n);
    forall k: nat | k <= n ensures Offered(tcs, n) <= TimedSlack(tcs, k, n) {
      OfferWithinSlack(tcs, k, n);
    }
  }

  predicate WithinTimedBudget(tcs: seq<TimedCall>, sel: seq<bool>, i: nat, j: nat)
    requires |sel| == |tcs| && i <= j < |tcs|
  {
    Count(sel, i, j + 1) <= TimedBudget(tcs, i, j)
  }

  /** A selection of requests that no stretch of the run overdraws, expiry included. */
  ghost predicate TimedConforms(tcs: seq<TimedCall>, sel: seq<bool>)
    requires |sel| == |tcs|
  {
    forall i: nat, j: nat :: i <= j < |tcs| ==> WithinTimedBudget(tcs, sel, i, j)
  }

  /** The expiring bucket's decisions conform, and no conforming selection is ahead of them in any
      prefix. */
  lemma {:induction false} KeptGreedyOptimal(tcs: seq<TimedCall>, sel: seq<bool>)
    requires PositiveConfigs(Calls(tcs)) && |sel| == |tcs| && TimedConforms(tcs, sel)
    ensures TimedConforms(tcs, KeptDecisions(tcs))
    ensures forall m: nat :: m <= |tcs| ==> Count(sel, 0, m) <= Count(KeptDecisions(tcs), 0, m)
  {
    forall i: nat, j: nat | i <= j < |tcs| ensures WithinTimedBudget(tcs, KeptDecisions(tcs), i, j) {
      TimedStretchBound(tcs, i, j);
    }
    forall n: nat | n < |tcs| && !KeptDecisions(tcs)[n]
      ensures exists i: nat :: Explains(KeptDecisions(tcs), sel, i, n)
    {
      var i := TightTimedStretch(tcs, n);
      assert WithinTimedBudget(tcs, sel, i, n);
      assert Explains(KeptDecisions(tcs), sel, i, n);
    }
    forall m: nat | m <= |tcs| ensures Count(sel, 0, m) <= Count(KeptDecisions(tcs), 0, m) {
      GreedyDominates(KeptDecisions(tcs), sel, m);
    }
  }

  // ---- The observer ----

  /** What `GetBucketState` reports: the stored tokens, and zero for a missing key. */
  function Reported(s: Option<Kept>, clock: int): int {
    match Live(s, clock)
    case None => 0
    case Some(bucket) => bucket.tokens
  }

  /** The stored tokens never exceed the one configured capacity. */
  lemma {:induction false} KeptWithinCapacity(tcs: seq<TimedCall>, capacity: int, rate: int, n: nat)
    requires FixedConfig(Calls(tcs), capacity, rate) && n <= |tcs|
    ensures KeptAfter(tcs, n).Some? ==> KeptAfter(tcs, n).value.bucket.tokens <= capacity
  {
    if n > 0 {
      assert Calls(tcs)[n - 1] == tcs[n - 1].call;
      KeptWithinCapacity(tcs, capacity, rate, n - 1);
    }
  }

  /** After the report only admissions take tokens away, one each. */
  lemma {:induction false} ReportLasts(tcs: seq<TimedCall>, capacity: int, rate: int, q: nat, clock: int, k: nat)
    requires rate >= 0 && FixedConfig(Calls(tcs), capacity, rate) && q <= k <= |tcs|
    requires k - q < Reported(KeptAfter(tcs, q), clock)
    ensures KeptAfter(tcs, k).Some?
    ensures KeptAfter(tcs, k).value.bucket.tokens >= Reported(KeptAfter(tcs, q), clock) - (k - q)
    decreases k
  {
    if k > q {
      ReportLasts(tcs, capacity, rate, q, clock, k - 1);
      ReportedCallAdmitted(tcs, capacity, rate, q, clock, k - 1);
    }
  }

  lemma {:induction false} ReportedCallAdmitted(tcs: seq<TimedCall>, capacity: int, rate: int, q: nat, clock: int,
                                                k: nat)
    requires rate >= 0 && FixedConfig(Calls(tcs), capacity, rate) && q <= k < |tcs|
    requires KeptAfter(tcs, k).Some? && k - q < Reported(KeptAfter(tcs, q), clock)
    requires KeptAfter(tcs, k).value.bucket.tokens >= Reported(KeptAfter(tcs, q), clock) - (k - q)
    ensures KeptAdmitted(tcs, k)
    ensures KeptAfter(tcs, k + 1).value.bucket.tokens >= Reported(KeptAfter(tcs, q), clock) - (k + 1 - q)
  {
    KeptWithinCapacity(tcs, capacity, rate, q);
    assert Calls(tcs)[k] == tcs[k].call;
    var b := KeptAfter(tcs, k).value.bucket;
    NonNegativeProduct(Max(0, tcs[k].call.now - b.lastRefill), rate);
  }

  /** A report of `n` tokens is a promise: the next `n` calls of that configuration are admitted,
      for any callers' clocks, any store clock and any expiries in between. */
  lemma {:induction false} ReportIsAPromise(tcs: seq<TimedCall>, capacity: int, rate: int, q: nat, clock: int, k: nat)
    requires rate >= 0 && FixedConfig(Calls(tcs), capacity, rate)
    requires q <= k < |tcs| && k - q < Reported(KeptAfter(tcs, q), clock)
    ensures KeptAdmitted(tcs, k)
  {
    ReportLasts(tcs, capacity, rate, q, clock, k);
    ReportedCallAdmitted(tcs, capacity, rate, q, clock, k);
  }

  /** From call `q` on, everybody reads the second of the last refill and nothing expires. */
  predicate OneInstantFrom(tcs: seq<TimedCall>, q: nat) {
    forall k :: 0 < q <= k < |tcs| ==>
      tcs[k].call.now == tcs[q - 1].call.now && tcs[k].clock <= tcs[q - 1].clock + 3600000
      && tcs[k].clock >= tcs[q - 1].clock
  }

  lemma {:induction false} ReportRunsDown(tcs: seq<TimedCall>, capacity: int, rate: int, q: nat, clock: int, k: nat)
    requires capacity > 0 && rate > 0 && FixedConfig(Calls(tcs), capacity, rate) && 0 < q <= k <= |tcs|
    requires clock <= tcs[q - 1].clock + 3600000 && OneInstantFrom(tcs, q)
    requires k - q <= Reported(KeptAfter(tcs, q), clock)
    ensures KeptAfter(tcs, k).value.bucket.tokens == Reported(KeptAfter(tcs, q), clock) - (k - q)
    ensures KeptAfter(tcs, k).value.bucket.lastRefill == tcs[q - 1].call.now
    ensures KeptAfter(tcs, k).value.deadline >= tcs[q - 1].clock + 3600000
    decreases k
  {
    KeptTokensNonNegative(tcs, k);
    if k > q {
      ReportRunsDown(tcs, capacity, rate, q, clock, k - 1);
      KeptWithinCapacity(tcs, capacity, rate, k - 1);
      assert Calls(tcs)[k - 1] == tcs[k - 1].call;
    }
  }

  /** The report is exact: of the calls sent in the second of the last refill, while the key lives,
      as many are admitted as were reported, and not one more. */
  lemma {:induction false} ReportIsExact(tcs: seq<TimedCall>, capacity: int, rate: int, q: nat, clock: int, k: nat)
    requires capacity > 0 && rate > 0 && FixedConfig(Calls(tcs), capacity, rate) && 0 < q <= k < |tcs|
    requires clock <= tcs[q - 1].clock + 3600000 && OneInstantFrom(tcs, q)
    requires k - q <= Reported(KeptAfter(tcs, q), clock)
    ensures KeptAdmitted(tcs, k) <==> k - q < Reported(KeptAfter(tcs, q), clock)
  {
    ReportRunsDown(tcs, capacity, rate, q, clock, k);
    KeptWithinCapacity(tcs, capacity, rate, k);
    assert Calls(tcs)[k] == tcs[k].call;
  }

  lemma {:induction false} BurstLeaves(capacity: nat, rate: nat, instant: int, n: nat, k: nat)
    requires 0 < k <= n <= capacity && rate > 0
    ensures KeptAfter(Burst(n, instant, capacity, rate), k)
            == Some(Kept(Bucket(capacity - k, instant / 1000), instant + 3600000))
    decreases k
  {
    if k > 1 {
      BurstLeaves(capacity, rate, instant, n, k - 1);
      OneTokenLess(capacity - (k - 1), Call(instant / 1000, capacity, rate));
    }
  }

  /** After `n` calls of a new user in one instant, as long as the capacity lasts, the report is what
      is left of the capacity; a user without a bucket, or whose bucket has expired, is reported as
      having none. */
  lemma {:induction false} ReportAfterBurst(capacity: nat, rate: nat, instant: int, n: nat, clock: int)
    requires n <= capacity && rate > 0
    ensures Reported(KeptState(Burst(n, instant, capacity, rate)), clock)
            == if n == 0 || clock > instant + 3600000 then 0 else capacity - n
  {
    if n > 0 {
      BurstLeaves(capacity, rate, instant, n, n);
    }
  }
}
