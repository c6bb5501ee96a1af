/** One token bucket as a state machine: the value stored under one `tb:` key and what one run
    of the bucket script does to it. Times are whole seconds, tokens are integers. */
module TokenBucket {
  import opened Prelude

  datatype Bucket = Bucket(tokens: int, lastRefill: int)

  /** The arguments of one call. Capacity and rate come from the route's configuration, so they
      may differ from call to call on the same bucket. */
  datatype Call = Call(now: int, capacity: int, refillRate: int)

  /** Tokens available to the call after the refill and the cap. A missing bucket is full, and a
      clock that stepped back refills nothing. */
  function Refilled(b: Option<Bucket>, c: Call): int {
    match b
    case None => c.capacity
    case Some(bucket) =>
      Min(c.capacity, bucket.tokens + Max(0, c.now - bucket.lastRefill) * c.refillRate)
  }

  predicate Admits(b: Option<Bucket>, c: Call) {
    Refilled(b, c) >= 1
  }

  /** The stored bucket after the call. A refused call still stores the refill and its time. */
  function Next(b: Option<Bucket>, c: Call): Bucket {
    Bucket(if Admits(b, c) then Refilled(b, c) - 1 else Refilled(b, c), c.now)
  }

  /** The bucket after the first `n` calls on a key that started absent and never expires. */
  function After(calls: seq<Call>, n: nat): Option<Bucket>
    requires n <= |calls|
  {
    if n == 0 then None else Some(Next(After(calls, n - 1), calls[n - 1]))
  }

  function State(calls: seq<Call>): Option<Bucket> {
    After(calls, |calls|)
  }

  predicate Admitted(calls: seq<Call>, k: nat)
    requires k < |calls|
  {
    Admits(After(calls, k), calls[k])
  }

  function Decisions(calls: seq<Call>): (d: seq<bool>)
    ensures |d| == |calls|
    ensures forall k :: 0 <= k < |calls| ==> d[k] == Admitted(calls, k)
  {
    seq(|calls|, k requires 0 <= k < |calls| => Admitted(calls, k))
  }

  predicate FixedConfig(calls: seq<Call>, capacity: int, refillRate: int) {
    forall k :: 0 <= k < |calls| ==> calls[k].capacity == capacity && calls[k].refillRate == refillRate
  }

  predicate Ordered(calls: seq<Call>) {
    forall i, j :: 0 <= i <= j < |calls| ==> calls[i].now <= calls[j].now
  }

  /** What configuration validation guarantees of the parameters of every call. */
  predicate PositiveConfigs(calls: seq<Call>) {
    forall k :: 0 <= k < |calls| ==> calls[k].capacity > 0 && calls[k].refillRate > 0
  }

  lemma {:induction false} AfterPrefix(calls: seq<Call>, more: seq<Call>, n: nat)
    requires n <= |calls|
    ensures After(calls + more, n) == After(calls, n)
  {
    if n > 0 {
      AfterPrefix(calls, more, n - 1);
    }
  }

  lemma {:induction false} AdmittedPrefix(calls: seq<Call>, more: seq<Call>, k: nat)
    requires k < |calls|
    ensures Admitted(calls + more, k) == Admitted(calls, k)
  {
    AfterPrefix(calls, more, k);
  }

  lemma {:induction false} StateSnoc(calls: seq<Call>, c: Call)
    ensures State(calls + [c]) == Some(Next(State(calls), c))
    ensures Admitted(calls + [c], |calls|) == Admits(State(calls), c)
  {
    AfterPrefix(calls, [c], |calls|);
  }

  lemma {:induction false} DecisionsSnoc(calls: seq<Call>, c: Call)
    ensures Decisions(calls + [c]) == Decisions(calls) + [Admits(State(calls), c)]
  {
    StateSnoc(calls, c);
    forall k: nat | k < |calls| ensures Admitted(calls + [c], k) == Admitted(calls, k) {
      AdmittedPrefix(calls, [c], k);
    }
  }

  /** After every call the stored tokens lie between zero and that call's capacity. */
  lemma {:induction false} TokensWithinCapacity(calls: seq<Call>, n: nat)
    requires PositiveConfigs(calls) && 0 < n <= |calls|
    ensures 0 <= After(calls, n).value.tokens <= calls[n - 1].capacity
    ensures After(calls, n).value.lastRefill == calls[n - 1].now
  {
    if n > 1 {
      TokensWithinCapacity(calls, n - 1);
      NonNegativeProduct(Max(0, calls[n - 1].now - calls[n - 2].now), calls[n - 1].refillRate);
    }
  }

  lemma {:induction false} NonNegativeProduct(x: int, y: int)
    requires 0 <= x && 0 <= y
    ensures 0 <= x * y
  {
  }
}
