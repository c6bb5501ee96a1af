/** What a token bucket guarantees over whole runs, on a key that never expires. */
module TokenBucketBounds {
  import opened Prelude
  import opened TokenBucket

  /** What the stretch of calls `i..j` may admit: the capacity at its first call plus everything
      refilled by the forward clock steps inside it. */
  function Budget(calls: seq<Call>, i: nat, j: nat): int
    requires i <= j < |calls|
    decreases j
  {
    if i == j then calls[i].capacity
    else Budget(calls, i, j - 1) + Max(0, calls[j].now - calls[j - 1].now) * calls[j].refillRate
  }

  /** A selection of requests that no stretch of the run overdraws. */
  ghost predicate Conforms(calls: seq<Call>, sel: seq<bool>)
    requires |sel| == |calls|
  {
    forall i: nat, j: nat :: i <= j < |calls| ==> WithinBudget(calls, sel, i, j)
  }

  predicate WithinBudget(calls: seq<Call>, sel: seq<bool>, i: nat, j: nat)
    requires |sel| == |calls| && i <= j < |calls|
  {
    Count(sel, i, j + 1) <= Budget(calls, i, j)
  }

  ghost predicate Dominates(d: seq<bool>, sel: seq<bool>)
    requires |d| == |sel|
  {
    forall n: nat :: n <= |d| ==> Count(sel, 0, n) <= Count(d, 0, n)
  }

  /** What is left of the budget of the stretch starting at `i` when call `n` arrives. */
  function Slack(calls: seq<Call>, i: nat, n: nat): int
    requires i <= n < |calls|
  {
    Budget(calls, i, n) - Count(Decisions(calls), i, n)
  }

  /** One call moves the refill and every slack by the same amount, except for the cap. */
  lemma {:induction false} SlackStep(calls: seq<Call>, i: nat, n: nat)
    requires i < n < |calls|
    ensures var gain := Max(0, calls[n].now - calls[n - 1].now) * calls[n].refillRate;
            var spent := if Admitted(calls, n - 1) then 1 else 0;
            && Slack(calls, i, n) == Slack(calls, i, n - 1) + gain - spent
            && Refilled(After(calls, n), calls[n])
               == Min(calls[n].capacity, Refilled(After(calls, n - 1), calls[n - 1]) + gain - spent)
  {
    assert Decisions(calls)[n - 1] == Admitted(calls, n - 1);
  }

  lemma {:induction false} RefillWithinSlack(calls: seq<Call>, i: nat, n: nat)
    requires i <= n < |calls|
    ensures Refilled(After(calls, n), calls[n]) <= Slack(calls, i, n)
    decreases n
  {
    if i < n {
      RefillWithinSlack(calls, i, n - 1);
      SlackStep(calls, i, n);
    }
  }

  lemma {:induction false} TightStretch(calls: seq<Call>, n: nat) returns (i: nat)
    requires n < |calls|
    ensures i <= n && Refilled(After(calls, n), calls[n]) == Slack(calls, i, n)
  {
    i := n;
    if n > 0 && Refilled(After(calls, n), calls[n]) != calls[n].capacity {
      i := TightStretch(calls, n - 1);
      SlackStep(calls, i, n);
    }
  }

  /** Closed form of the refill, for any clock values and any configurations: the tokens offered
      to call `n` are the least slack over all stretches ending at `n`. */
  lemma {:induction false} RefillIsLeastSlack(calls: seq<Call>, n: nat)
    requires n < |calls|
    ensures forall i: nat :: i <= n ==> Refilled(After(calls, n), calls[n]) <= Slack(calls, i, n)
    ensures exists i: nat :: i <= n && Refilled(After(calls, n), calls[n]) == Slack(calls, i, n)
  {
    var i := TightStretch(calls, n);
    forall k: nat | k <= n ensures Refilled(After(calls, n), calls[n]) <= Slack(calls, k, n) {
      RefillWithinSlack(calls, k, n);
    }
  }

  /** A call is admitted exactly when one more admission overdraws no stretch ending at it. */
  lemma {:induction false} AdmittedIffWithinBudget(calls: seq<Call>, n: nat)
    requires n < |calls|
    ensures Admitted(calls, n) <==> forall i: nat :: i <= n ==> Slack(calls, i, n) >= 1
  {
    RefillIsLeastSlack(calls, n);
  }

  /** The bound for arbitrary clocks and changing configurations: in no stretch of a run does the
      bucket admit more than the budget of the stretch. */
  lemma {:induction false} StretchBound(calls: seq<Call>, i: nat, j: nat)
    requires PositiveConfigs(calls) && i <= j < |calls|
    ensures WithinBudget(calls, Decisions(calls), i, j)
    decreases j
  {
    if Admitted(calls, j) {
      RefillWithinSlack(calls, i, j);
    } else if i < j {
      StretchBound(calls, i, j - 1);
      NonNegativeProduct(Max(0, calls[j].now - calls[j - 1].now), calls[j].refillRate);
    }
  }

  /** A refusal is explained, against any conforming selection, by a stretch that is used up. */
  lemma {:induction false} RefusalExplained(calls: seq<Call>, sel: seq<bool>, n: nat)
    requires |sel| == |calls| && Conforms(calls, sel)
    requires n < |calls| && !Admitted(calls, n)
    ensures exists i: nat :: Explains(Decisions(calls), sel, i, n)
  {
    var i := TightStretch(calls, n);
    assert WithinBudget(calls, sel, i, n);
    assert Explains(Decisions(calls), sel, i, n);
  }

  /** The decisions conform, and no conforming selection is ahead of them in any prefix. */
  lemma {:induction false} GreedyOptimal(calls: seq<Call>, sel: seq<bool>)
    requires PositiveConfigs(calls)
    requires |sel| == |calls| && Conforms(calls, sel)
    ensures Conforms(calls, Decisions(calls))
    ensures Dominates(Decisions(calls), sel)
  {
    forall i: nat, j: nat | i <= j < |calls| ensures WithinBudget(calls, Decisions(calls), i, j) {
      StretchBound(calls, i, j);
    }
    forall n: nat | n < |calls| && !Decisions(calls)[n]
      ensures exists i: nat :: Explains(Decisions(calls), sel, i, n)
    {
      RefusalExplained(calls, sel, n);
    }
    forall m: nat | m <= |calls| ensures Count(sel, 0, m) <= Count(Decisions(calls), 0, m) {
      GreedyDominates(Decisions(calls), sel, m);
    }
  }

  /** With one configuration and ordered time the budget is the familiar capacity plus rate times
      elapsed time. */
  lemma {:induction false} FixedBudget(calls: seq<Call>, capacity: int, rate: int, i: nat, j: nat)
    requires FixedConfig(calls, capacity, rate) && Ordered(calls) && i <= j < |calls|
    ensures Budget(calls, i, j) == capacity + rate * (calls[j].now - calls[i].now)
    decreases j
  {
    if i < j {
      FixedBudget(calls, capacity, rate, i, j - 1);
      var step := calls[j].now - calls[j - 1].now;
      var rest := calls[j - 1].now - calls[i].now;
      assert rate * (rest + step) == rate * rest + step * rate;
    }
  }

  /** The textbook guarantee: a stretch admits at most `capacity + rate * elapsed`, and a call is
      refused exactly when admitting it would break that for some stretch ending at it. */
  lemma {:induction false} FixedConfigLaw(calls: seq<Call>, capacity: int, rate: int, n: nat)
    requires capacity > 0 && rate > 0
    requires FixedConfig(calls, capacity, rate) && Ordered(calls) && n < |calls|
    ensures forall i: nat :: i <= n ==>
              Count(Decisions(calls), i, n + 1) <= capacity + rate * (calls[n].now - calls[i].now)
    ensures !Admitted(calls, n) <==>
            exists i: nat :: i <= n &&
              Count(Decisions(calls), i, n) + 1 > capacity + rate * (calls[n].now - calls[i].now)
  {
    forall i: nat | i <= n
      ensures Budget(calls, i, n) == capacity + rate * (calls[n].now - calls[i].now)
      ensures WithinBudget(calls, Decisions(calls), i, n)
    {
      FixedBudget(calls, capacity, rate, i, n);
      StretchBound(calls, i, n);
    }
    AdmittedIffWithinBudget(calls, n);
    if !Admitted(calls, n) {
      var i: nat :| i <= n && Slack(calls, i, n) < 1;
      assert Count(Decisions(calls), i, n) + 1 > capacity + rate * (calls[n].now - calls[i].now);
    }
  }

  /** No selection that keeps every stretch within `capacity + rate * elapsed` is ahead of the
      bucket in any prefix. */
  lemma {:induction false} FixedConfigOptimal(calls: seq<Call>, sel: seq<bool>, capacity: int, rate: int)
    requires capacity > 0 && rate > 0
    requires FixedConfig(calls, capacity, rate) && Ordered(calls) && |sel| == |calls|
    requires forall i: nat, j: nat :: i <= j < |calls| ==>
               Count(sel, i, j + 1) <= capacity + rate * (calls[j].now - calls[i].now)
    ensures Dominates(Decisions(calls), sel)
  {
    forall i: nat, j: nat | i <= j < |calls| ensures WithinBudget(calls, sel, i, j) {
      FixedBudget(calls, capacity, rate, i, j);
    }
    GreedyOptimal(calls, sel);
  }

  // ---- Clocks that step back ----

  /** `n` calls whose clock alternates between 9 and 10. */
  function Seesaw(n: nat, capacity: int, rate: int): (calls: seq<Call>)
    ensures |calls| == n
    ensures forall k :: 0 <= k < n ==> calls[k] == Call(9 + k % 2, capacity, rate)
  {
    seq(n, k => Call(9 + k % 2, capacity, rate))
  }

  /** `last_refill` is overwritten even by a call with an older time, so every step back makes the
      same second refill again and every call at 10 is admitted. */
  lemma {:induction false} SeesawRefillsAgain(n: nat, capacity: int, rate: int, k: nat)
    requires capacity > 0 && rate > 0 && k < n && k % 2 == 1
    ensures Admitted(Seesaw(n, capacity, rate), k)
  {
    TokensWithinCapacity(Seesaw(n, capacity, rate), k);
  }

  /** A clock alternating between two adjacent seconds admits at least half of any number of calls,
      whatever the capacity and rate. */
  lemma {:induction false} BackwardsClockRefillsAgain(n: nat, capacity: int, rate: int, pairs: nat)
    requires capacity > 0 && rate > 0 && 2 * pairs <= n
    ensures Count(Decisions(Seesaw(n, capacity, rate)), 0, 2 * pairs) >= pairs
    decreases pairs
  {
    if pairs > 0 {
      BackwardsClockRefillsAgain(n, capacity, rate, pairs - 1);
      SeesawRefillsAgain(n, capacity, rate, 2 * pairs - 1);
    }
  }

  // ---- Refused requests are invisible ----

  /** Two buckets that offer the same tokens to every call from time `t0` on. */
  ghost predicate SameFuture(a: Option<Bucket>, b: Option<Bucket>, t0: int, capacity: int, rate: int) {
    forall t :: t0 <= t ==> Refilled(a, Call(t, capacity, rate)) == Refilled(b, Call(t, capacity, rate))
  }

  /** Capped refills compose: refilling to `t` and then to a later time is one refill. */
  lemma {:induction false} RefillsCompose(b: Option<Bucket>, t: int, later: int, capacity: int, rate: int)
    requires rate >= 0 && t <= later
    requires b.Some? ==> b.value.lastRefill <= t
    ensures Refilled(Some(Bucket(Refilled(b, Call(t, capacity, rate)), t)), Call(later, capacity, rate))
            == Refilled(b, Call(later, capacity, rate))
  {
    NonNegativeProduct(later - t, rate);
    if b.Some? {
      var x, y := t - b.value.lastRefill, later - t;
      assert (x + y) * rate == x * rate + y * rate;
    }
  }

  /** The run without the requests not kept makes the same decisions and is indistinguishable
      from the full run from time `t0` on. */
  ghost predicate Invisible(calls: seq<Call>, keep: seq<bool>, t0: int, capacity: int, rate: int)
    requires |keep| == |calls|
  {
    && Decisions(Filter(calls, keep)) == Filter(Decisions(calls), keep)
    && SameFuture(State(calls), State(Filter(calls, keep)), t0, capacity, rate)
  }

  /** Deleting any refused requests from an ordered run of one configuration leaves every other
      decision as it was. */
  lemma {:induction false} RefusedAreInvisible(calls: seq<Call>, keep: seq<bool>, t0: int, capacity: int, rate: int)
    requires rate >= 0
    requires FixedConfig(calls, capacity, rate) && Ordered(calls) && |keep| == |calls|
    requires forall k :: 0 <= k < |calls| ==> calls[k].now <= t0
    requires forall k: nat :: k < |calls| && !keep[k] ==> !Admitted(calls, k)
    ensures Invisible(calls, keep, t0, capacity, rate)
    decreases |calls|
  {
    if calls != [] {
      var n := |calls| - 1;
      var front, c := calls[..n], calls[n];
      assert calls == front + [c] && keep == keep[..n] + [keep[n]];
      forall k: nat | k < n && !keep[k] ensures !Admitted(front, k) {
        AdmittedPrefix(front, [c], k);
      }
      RefusedAreInvisible(front, keep[..n], c.now, capacity, rate);
      StateSnoc(front, c);
      InvisibleSnoc(front, keep[..n], c, keep[n]);
    }
  }

  lemma {:induction false} InvisibleSnoc(front: seq<Call>, keep: seq<bool>, c: Call, kept: bool)
    requires |keep| == |front| && c.refillRate >= 0
    requires forall k :: 0 <= k < |front| ==> front[k].now <= c.now
    requires Invisible(front, keep, c.now, c.capacity, c.refillRate)
    requires !kept ==> !Admits(State(front), c)
    ensures Invisible(front + [c], keep + [kept], c.now, c.capacity, c.refillRate)
  {
    FilterSnoc(front, c, keep, kept);
    DecisionsSnoc(front, c);
    StateSnoc(front, c);
    FilterSnoc(Decisions(front), Admits(State(front), c), keep, kept);
    var rest := Filter(front, keep);
    InvisibleStep(State(front), State(rest), c);
    if kept {
      DecisionsSnoc(rest, c);
      StateSnoc(rest, c);
    } else {
      LastRefillIsLatest(front);
      RefusalKeepsFuture(State(front), State(rest), c);
    }
  }

  lemma {:induction false} InvisibleStep(s: Option<Bucket>, s': Option<Bucket>, c: Call)
    requires SameFuture(s, s', c.now, c.capacity, c.refillRate)
    ensures Admits(s, c) == Admits(s', c) && Next(s, c) == Next(s', c)
  {
    assert c == Call(c.now, c.capacity, c.refillRate);
  }

  lemma {:induction false} RefusalKeepsFuture(s: Option<Bucket>, s': Option<Bucket>, c: Call)
    requires c.refillRate >= 0 && !Admits(s, c)
    requires s.Some? ==> s.value.lastRefill <= c.now
    requires SameFuture(s, s', c.now, c.capacity, c.refillRate)
    ensures SameFuture(Some(Next(s, c)), s', c.now, c.capacity, c.refillRate)
  {
    forall t | c.now <= t
      ensures Refilled(Some(Next(s, c)), Call(t, c.capacity, c.refillRate))
              == Refilled(s', Call(t, c.capacity, c.refillRate))
    {
      RefillsCompose(s, c.now, t, c.capacity, c.refillRate);
    }
  }

  lemma {:induction false} LastRefillIsLatest(calls: seq<Call>)
    ensures State(calls).Some? ==> State(calls).value.lastRefill == calls[|calls| - 1].now
  {
  }

  // ---- Integer tokens ----

  /** The script computes in double precision. With 32-bit parameters and less than 2^22 - 1
      seconds since the last call, every intermediate is below 2^53 and hence exact. */
  lemma {:induction false} TokensAreExactDoubles(tokens: int, elapsed: int, rate: int)
    requires 0 <= tokens <= 0x7fff_ffff && 0 <= rate <= 0x7fff_ffff
    requires 0 <= elapsed < 0x3f_ffff
    ensures 0 <= tokens + elapsed * rate < 0x20_0000_0000_0000
  {
    NonNegativeProduct(elapsed, rate);
    NonNegativeProduct(0x3f_ffff - elapsed, rate);
    assert elapsed * rate <= 0x3f_ffff * rate;
  }
}
