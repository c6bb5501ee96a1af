/** The limiters' guarantees for the running service: every run of every kind of request, told in the
    configurations stored, the clocks read and the answers given. */
module ServiceBounds {
  import opened Prelude
  import opened Database
  import opened Interleaving
  import opened ServiceRuns
  import Bucket = TokenBucket
  import BucketExpiry = TokenBucketExpiry
  import BucketLimits = TokenBucketLimits
  import Window = SlidingWindow
  import WindowBounds = SlidingWindowBounds
  import WindowExpiry = SlidingWindowExpiry

  /** No reply of these checks was lost, so the answers are the verdicts. */
  predicate NoneLost(served: seq<Served>) {
    forall m :: 0 <= m < |served| ==> !served[m].lost
  }

  lemma {:induction false} AnswersAreGrants(served: seq<Served>, sliding: bool)
    requires AllWell(served, sliding)
    ensures NoneLost(served) ==> Answers(served) == Grants(served)
    ensures forall m :: 0 <= m < |served| ==> (served[m].yes <==> served[m].granted && !served[m].lost)
  {
  }

  lemma {:induction false} FewerAnswers(served: seq<Served>, sliding: bool, i: nat, j: nat)
    requires AllWell(served, sliding)
    requires i <= j <= |served|
    ensures Count(Answers(served), i, j) <= Count(Grants(served), i, j)
    decreases j
  {
    if i < j {
      FewerAnswers(served, sliding, i, j - 1);
      assert WellServed(served[j - 1]);
    }
  }

  lemma {:induction false} BucketFacts(states: seq<State>, events: seq<Event>, user: string, k: nat,
                                       served: seq<Served>)
    requires IsRun(states, events) && k < |states| && served == Checks(states, events, user, false, k)
    ensures && AllWell(served, false)
            && BucketExpiry.KeptDecisions(BucketCallsOf(served)) == Grants(served)
            && Bucket.PositiveConfigs(BucketExpiry.Calls(BucketCallsOf(served)))
  {
    BucketServes(states, events, user, k);
    ChecksAreWell(states, events, user, false, k);
  }

  /** In every run of the service, between any two of a user's checks with bucket rows, the verdicts
      and so the answers in their favour number at most the budget of the rows and clock steps
      involved. The rows may be changed, deleted and recreated while checks are in progress. */
  lemma {:induction false} ServiceBucketBound(states: seq<State>, events: seq<Event>, user: string, k: nat,
                                              served: seq<Served>, i: nat, j: nat)
    requires IsRun(states, events) && k < |states| && served == Checks(states, events, user, false, k)
    requires i <= j < |served|
    ensures Count(Answers(served), i, j + 1) <= Count(Grants(served), i, j + 1)
            <= BucketExpiry.TimedBudget(BucketCallsOf(served), i, j)
  {
    BucketFacts(states, events, user, k, served);
    BucketExpiry.TimedStretchBound(BucketCallsOf(served), i, j);
    FewerAnswers(served, false, i, j + 1);
  }

  lemma {:induction false} BucketVerdict(served: seq<Served>, n: nat)
    requires n < |served| && BucketExpiry.KeptDecisions(BucketCallsOf(served)) == Grants(served)
    ensures BucketExpiry.KeptAdmitted(BucketCallsOf(served), n) == served[n].granted
  {
    assert BucketExpiry.KeptDecisions(BucketCallsOf(served))[n] == Grants(served)[n];
  }

  /** What is left of the budget of a stretch of the user's checks when check `n` arrives. */
  function Left(served: seq<Served>, i: nat, n: nat): int
    requires i <= n < |served|
  {
    BucketExpiry.TimedBudget(BucketCallsOf(served), i, n) - Count(Grants(served), i, n)
  }

  lemma {:induction false} GrantedIffLeft(served: seq<Served>, n: nat)
    requires n < |served| && BucketExpiry.KeptDecisions(BucketCallsOf(served)) == Grants(served)
    requires Bucket.PositiveConfigs(BucketExpiry.Calls(BucketCallsOf(served)))
    ensures served[n].granted <==> forall i: nat :: i <= n ==> Left(served, i, n) >= 1
  {
    BucketVerdict(served, n);
    BucketExpiry.OfferIsLeastSlack(BucketCallsOf(served), n);
    forall i: nat | i <= n ensures Left(served, i, n) == BucketExpiry.TimedSlack(BucketCallsOf(served), i, n) {
    }
  }

  /** Nor is one refused without need: a check whose reply arrives is answered yes exactly when that
      overdraws no stretch of the user's checks ending at it. */
  lemma {:induction false} ServiceBucketExact(states: seq<State>, events: seq<Event>, user: string, k: nat,
                                              served: seq<Served>, n: nat)
    requires IsRun(states, events) && k < |states| && served == Checks(states, events, user, false, k)
    requires n < |served|
    ensures served[n].yes <==> (!served[n].lost && forall i: nat :: i <= n ==> Left(served, i, n) >= 1)
  {
    BucketFacts(states, events, user, k, served);
    GrantedIffLeft(served, n);
    assert WellServed(served[n]);
  }

  /** No selection of a user's checks that overdraws no stretch is ahead of the verdicts, or of the
      answers as long as no reply is lost, in any prefix. */
  lemma {:induction false} ServiceBucketOptimal(states: seq<State>, events: seq<Event>, user: string, k: nat,
                                                served: seq<Served>, sel: seq<bool>)
    requires IsRun(states, events) && k < |states| && served == Checks(states, events, user, false, k)
    requires |sel| == |served|
    requires BucketExpiry.TimedConforms(BucketCallsOf(served), sel)
    ensures && (forall m: nat :: m <= |sel| ==> Count(sel, 0, m) <= Count(Grants(served), 0, m))
            && (NoneLost(served) ==> forall m: nat :: m <= |sel| ==> Count(sel, 0, m) <= Count(Answers(served), 0, m))
  {
    BucketFacts(states, events, user, k, served);
    BucketExpiry.KeptGreedyOptimal(BucketCallsOf(served), sel);
    AnswersAreGrants(served, false);
  }

  /** Service and store share one clock that does not step back. */
  predicate OneClock(served: seq<Served>) {
    && (forall m :: 0 <= m < |served| ==> served[m].now == served[m].clock)
    && (forall i, j :: 0 <= i <= j < |served| ==> served[i].clock <= served[j].clock)
  }

  /** Whole seconds between two of the checks. */
  function Elapsed(served: seq<Served>, i: nat, n: nat): int
    requires i <= n < |served|
  {
    served[n].now / 1000 - served[i].now / 1000
  }

  /** One more yes at `n` would exceed the row's capacity plus its rate times the elapsed seconds. */
  predicate TooMany(served: seq<Served>, row: ConfigRow, i: nat, n: nat)
    requires i <= n < |served|
  {
    Count(Grants(served), i, n) + 1 > row.capacity + row.refillRate * Elapsed(served, i, n)
  }

  lemma {:induction false} OneRowCalls(served: seq<Served>, row: ConfigRow)
    requires OneClock(served) && AllRead(served, row)
    ensures var tcs := BucketCallsOf(served);
            BucketExpiry.OneClock(tcs) && Bucket.FixedConfig(BucketExpiry.Calls(tcs), row.capacity, row.refillRate)
  {
  }

  lemma {:induction false} SecondsBetween(served: seq<Served>, i: nat, n: nat)
    requires i <= n < |served|
    ensures BucketCallsOf(served)[n].call.now - BucketCallsOf(served)[i].call.now == Elapsed(served, i, n)
  {
  }

  lemma {:induction false} ExceedsAs(tcs: seq<BucketExpiry.TimedCall>, d: seq<bool>, capacity: int, rate: int,
                                     i: nat, n: nat, elapsed: int)
    requires i <= n < |tcs| && BucketExpiry.KeptDecisions(tcs) == d
    requires tcs[n].call.now - tcs[i].call.now == elapsed
    ensures BucketLimits.WouldExceed(tcs, capacity, rate, i, n) <==> Count(d, i, n) + 1 > capacity + rate * elapsed
  {
  }

  lemma {:induction false} TooManyIsExceeding(served: seq<Served>, row: ConfigRow, i: nat, n: nat)
    requires i <= n < |served| && BucketExpiry.KeptDecisions(BucketCallsOf(served)) == Grants(served)
    ensures TooMany(served, row, i, n)
            == BucketLimits.WouldExceed(BucketCallsOf(served), row.capacity, row.refillRate, i, n)
  {
    SecondsBetween(served, i, n);
    ExceedsAs(BucketCallsOf(served), Grants(served), row.capacity, row.refillRate, i, n, Elapsed(served, i, n));
  }

  lemma {:induction false} RefusedIffTooMany(served: seq<Served>, row: ConfigRow, n: nat)
    requires n < |served| && BucketExpiry.KeptDecisions(BucketCallsOf(served)) == Grants(served)
    requires row.refillRate > 0 && 0 < row.capacity <= 3600 * row.refillRate
    requires OneClock(served) && AllRead(served, row)
    ensures !served[n].granted <==> exists i: nat :: i <= n && TooMany(served, row, i, n)
  {
    OneRowCalls(served, row);
    BucketVerdict(served, n);
    BucketLimits.KeptFixedConfigLaw(BucketCallsOf(served), row.capacity, row.refillRate, n);
    forall i: nat | i <= n
      ensures TooMany(served, row, i, n)
              == BucketLimits.WouldExceed(BucketCallsOf(served), row.capacity, row.refillRate, i, n)
    {
      TooManyIsExceeding(served, row, i, n);
    }
  }

  /** The limit in the row's own fields. While the only row stored for a user is one bucket row whose
      capacity an hour refills, and with one clock, a check of the user whose reply arrives is answered
      no exactly when a yes would exceed capacity plus rate times elapsed seconds on some stretch of the
      user's checks ending at it. */
  lemma {:induction false} BucketRowLaw(states: seq<State>, events: seq<Event>, user: string, k: nat,
                                        served: seq<Served>, row: ConfigRow, n: nat)
    requires IsRun(states, events) && k < |states| && served == Checks(states, events, user, false, k)
    requires OneRow(states, user, row, k)
    requires row.capacity <= 3600 * row.refillRate
    requires n < |served| && OneClock(served)
    ensures served[n].yes <==> !served[n].lost && !exists i: nat :: i <= n && TooMany(served, row, i, n)
  {
    BucketFacts(states, events, user, k, served);
    ChecksReadTheRow(states, events, user, false, row, k);
    ChecksAreWell(states, events, user, false, k);
    assert WellServed(served[n]) && served[n].config == row && !Sliding(row);
    RefusedIffTooMany(served, row, n);
  }

  // ---- Windows ----

  lemma {:induction false} WindowFacts(states: seq<State>, events: seq<Event>, user: string, k: nat,
                                       served: seq<Served>)
    requires IsRun(states, events) && k < |states| && served == Checks(states, events, user, true, k)
    ensures && AllWell(served, true)
            && WindowExpiry.KeptDecisions(WindowCallsOf(served)) == Grants(served)
  {
    WindowServes(states, events, user, k);
    ChecksAreWell(states, events, user, true, k);
  }

  /** The distinct times later than `after` of the first `n` checks granted. */
  function GrantTimes(served: seq<Served>, n: nat, after: int): set<int>
    requires n <= |served|
  {
    set m: nat | m < n && served[m].granted && served[m].now > after :: served[m].now
  }

  function GrantCount(served: seq<Served>, n: nat, after: int): nat
    requires n <= |served|
  {
    |GrantTimes(served, n, after)|
  }

  lemma {:induction false} WindowVerdict(served: seq<Served>, n: nat)
    requires n < |served| && WindowExpiry.KeptDecisions(WindowCallsOf(served)) == Grants(served)
    ensures WindowExpiry.KeptAdmitted(WindowCallsOf(served), n) == served[n].granted
    ensures WindowCallsOf(served)[n].call.now == served[n].now
  {
    assert WindowExpiry.KeptDecisions(WindowCallsOf(served))[n] == Grants(served)[n];
  }

  lemma {:induction false} GrantTimesAreStamps(served: seq<Served>, n: nat, after: int)
    requires n <= |served| && WindowExpiry.KeptDecisions(WindowCallsOf(served)) == Grants(served)
    ensures GrantTimes(served, n, after) == WindowExpiry.KeptStamps(WindowCallsOf(served), n, after)
  {
    var tcs := WindowCallsOf(served);
    forall m: nat | m < n
      ensures WindowExpiry.KeptAdmitted(tcs, m) == served[m].granted && tcs[m].call.now == served[m].now
    {
      WindowVerdict(served, m);
    }
  }

  /** Instances are within `error` milliseconds of the store's clock, which does not step back. */
  predicate ClocksNear(served: seq<Served>, error: int) {
    && (forall m :: 0 <= m < |served| ==> -error <= served[m].now - served[m].clock <= error)
    && (forall i, j :: 0 <= i <= j < |served| ==> served[i].clock <= served[j].clock)
  }

  predicate WindowsAtLeast(served: seq<Served>, m: nat, smallest: int) {
    forall n :: 0 <= n <= m && n < |served| ==> served[n].config.windowSize >= smallest
  }

  lemma {:induction false} CallsNear(served: seq<Served>, error: int)
    requires ClocksNear(served, error)
    ensures WindowExpiry.ClocksWithin(WindowCallsOf(served), error)
  {
  }

  lemma {:induction false} CallsAtLeast(served: seq<Served>, m: nat, smallest: int)
    requires m < |served| && WindowsAtLeast(served, m, smallest)
    ensures forall n :: 0 <= n <= m ==> WindowCallsOf(served)[n].call.windowSize >= smallest
    ensures WindowCallsOf(served)[m].call.capacity == served[m].config.limit
  {
  }

  /** A verdict in favour leaves at most the row's limit of distinct such times later than `after`. */
  predicate LimitKept(served: seq<Served>, m: nat, after: int)
    requires m < |served|
  {
    served[m].granted ==> GrantCount(served, m + 1, after) <= served[m].config.limit
  }

  lemma {:induction false} AsManyStamps(served: seq<Served>, n: nat, after: int)
    requires n <= |served| && WindowExpiry.KeptDecisions(WindowCallsOf(served)) == Grants(served)
    ensures GrantCount(served, n, after) == |WindowExpiry.KeptStamps(WindowCallsOf(served), n, after)|
  {
    GrantTimesAreStamps(served, n, after);
  }

  lemma {:induction false} StampsKeepLimit(served: seq<Served>, error: int, smallest: int, m: nat, after: int)
    requires m < |served| && 0 <= error <= 30000 && ClocksNear(served, error)
    requires smallest > 0 && WindowsAtLeast(served, m, smallest)
    requires WindowExpiry.KeptAdmitted(WindowCallsOf(served), m)
    requires after == WindowCallsOf(served)[m].call.now + 2 * error - 1000 * smallest
    ensures |WindowExpiry.KeptStamps(WindowCallsOf(served), m + 1, after)| <= served[m].config.limit
  {
    CallsNear(served, error);
    CallsAtLeast(served, m, smallest);
    WindowExpiry.KeptMixedBound(WindowCallsOf(served), error, smallest, m);
  }

  /** The verdicts are the window's decisions. */
  predicate Decided(served: seq<Served>) {
    WindowExpiry.KeptDecisions(WindowCallsOf(served)) == Grants(served)
  }

  /** What the window counts is what was granted. */
  lemma {:induction false} GrantedAndCounted(served: seq<Served>, m: nat, n: nat, after: int)
    requires Decided(served) && m < |served| && n <= |served|
    ensures WindowExpiry.KeptAdmitted(WindowCallsOf(served), m) == served[m].granted
    ensures WindowCallsOf(served)[m].call.now == served[m].now
    ensures GrantCount(served, n, after) == |WindowExpiry.KeptStamps(WindowCallsOf(served), n, after)|
  {
    WindowVerdict(served, m);
    AsManyStamps(served, n, after);
  }

  lemma {:induction false} GrantKeepsLimit(served: seq<Served>, error: int, smallest: int, m: nat, after: int)
    requires Decided(served)
    requires 0 <= error <= 30000 && ClocksNear(served, error) && smallest > 0 && m < |served|
    requires WindowsAtLeast(served, m, smallest) && after == served[m].now + 2 * error - 1000 * smallest
    ensures LimitKept(served, m, after)
  {
    if served[m].granted {
      GrantedAndCounted(served, m, m + 1, after);
      StampsKeepLimit(served, error, smallest, m, after);
    }
  }

  /** With instances within thirty seconds of the store's clock, a verdict in favour of a check with a
      window row leaves at most the row's limit of distinct such times in the smallest window in use,
      shortened by twice the clock error. */
  lemma {:induction false} ServiceWindowBound(states: seq<State>, events: seq<Event>, user: string, k: nat,
                                              served: seq<Served>, error: int, smallest: int, m: nat, after: int)
    requires IsRun(states, events) && k < |states| && served == Checks(states, events, user, true, k)
    requires m < |served|
    requires 0 <= error <= 30000 && ClocksNear(served, error) && smallest > 0
    requires WindowsAtLeast(served, m, smallest) && after == served[m].now + 2 * error - 1000 * smallest
    ensures LimitKept(served, m, after)
  {
    WindowFacts(states, events, user, k, served);
    GrantKeepsLimit(served, error, smallest, m, after);
  }

  predicate InOrder(served: seq<Served>) {
    forall i, j :: 0 <= i <= j < |served| ==> served[i].now <= served[j].now
  }

  /** The window in use throughout. */
  predicate OneWindow(served: seq<Served>, windowSize: int) {
    forall m :: 0 <= m < |served| ==> served[m].config.windowSize == windowSize
  }

  predicate OneLimit(served: seq<Served>, limit: int) {
    forall m :: 0 <= m < |served| ==> served[m].config.limit == limit
  }

  lemma {:induction false} OrderedCalls(served: seq<Served>, windowSize: int, error: int)
    requires ClocksNear(served, error) && InOrder(served) && OneWindow(served, windowSize)
    ensures var tcs := WindowCallsOf(served);
            && WindowExpiry.ClocksWithin(tcs, error) && Window.Ordered(WindowExpiry.Calls(tcs))
            && Window.FixedWindow(WindowExpiry.Calls(tcs), windowSize)
  {
  }

  /** Fewer distinct times of the user's own grants before check `n` than its row's limit are later than
      `start`. */
  predicate HasRoom(served: seq<Served>, n: nat, start: int)
    requires n < |served|
  {
    GrantCount(served, n, start) < served[n].config.limit
  }

  lemma {:induction false} AdmittedIffStamps(served: seq<Served>, windowSize: int, error: int, n: nat, start: int)
    requires n < |served| && OneWindow(served, windowSize)
    requires 0 <= error <= 30000 && ClocksNear(served, error) && InOrder(served) && windowSize > 0
    requires start == Window.WindowStart(WindowCallsOf(served)[n].call)
    ensures WindowExpiry.KeptAdmitted(WindowCallsOf(served), n) <==>
            |WindowExpiry.KeptStamps(WindowCallsOf(served), n, start)| < served[n].config.limit
  {
    OrderedCalls(served, windowSize, error);
    WindowExpiry.AdmittedIffRoom(WindowCallsOf(served), error, windowSize, n);
  }

  lemma {:induction false} WindowStartOf(served: seq<Served>, windowSize: int, n: nat)
    requires n < |served| && OneWindow(served, windowSize)
    ensures Window.WindowStart(WindowCallsOf(served)[n].call) == served[n].now - 1000 * windowSize
  {
  }

  lemma {:induction false} GrantedIffRoom(served: seq<Served>, windowSize: int, error: int, n: nat, start: int)
    requires n < |served| && Decided(served) && OneWindow(served, windowSize)
    requires 0 <= error <= 30000 && ClocksNear(served, error) && InOrder(served) && windowSize > 0
    requires start == served[n].now - 1000 * windowSize
    ensures served[n].granted <==> HasRoom(served, n, start)
  {
    WindowStartOf(served, windowSize, n);
    AdmittedIffStamps(served, windowSize, error, n, start);
    GrantedAndCounted(served, n, n, start);
  }

  /** With one window and ordered instances within thirty seconds of the store's clock, a check whose
      reply arrives is answered yes exactly when fewer distinct times of the user's own grants than its
      row's limit lie in the window ending at it. */
  lemma {:induction false} ServiceWindowExact(states: seq<State>, events: seq<Event>, user: string, k: nat,
                                              served: seq<Served>, windowSize: int, error: int, n: nat, start: int)
    requires IsRun(states, events) && k < |states| && served == Checks(states, events, user, true, k)
    requires n < |served| && 0 <= error <= 30000 && ClocksNear(served, error) && InOrder(served)
    requires OneWindow(served, windowSize) && start == served[n].now - 1000 * windowSize
    ensures served[n].yes <==> !served[n].lost && HasRoom(served, n, start)
  {
    WindowFacts(states, events, user, k, served);
    assert WellServed(served[n]) && Sliding(served[n].config);
    GrantedIffRoom(served, windowSize, error, n, start);
  }

  /** The limit in the row's own fields. While the only row stored for a user is one window row, a check
      of the user whose reply arrives is answered yes exactly when fewer distinct times of the user's
      own grants than the row's limit lie in the row's window ending at it. */
  lemma {:induction false} WindowRowLaw(states: seq<State>, events: seq<Event>, user: string, k: nat,
                                        served: seq<Served>, row: ConfigRow, error: int, n: nat, start: int)
    requires IsRun(states, events) && k < |states| && served == Checks(states, events, user, true, k)
    requires OneRow(states, user, row, k) && 0 <= error <= 30000
    requires n < |served| && ClocksNear(served, error) && InOrder(served)
    requires start == served[n].now - 1000 * row.windowSize
    ensures served[n].yes <==> !served[n].lost && GrantCount(served, n, start) < row.limit
  {
    ChecksReadTheRow(states, events, user, true, row, k);
    assert served[n].config == row;
    ServiceWindowExact(states, events, user, k, served, row.windowSize, error, n, start);
  }

  /** At most the limit from every stretch of the checks shorter than the window. */
  predicate KeepsLimit(served: seq<Served>, sel: seq<bool>, limit: int, windowSize: int)
    requires |sel| == |served|
  {
    forall i: nat, j: nat :: i <= j < |served| && served[j].now - served[i].now < 1000 * windowSize ==>
      WindowBounds.AtMost(sel, i, j, limit)
  }

  /** And with one limit no selection of the user's checks that keeps it is ahead of the verdicts, or of
      the answers as long as no reply is lost, in any prefix. */
  lemma {:induction false} ServiceWindowOptimal(states: seq<State>, events: seq<Event>, user: string, k: nat,
                                                served: seq<Served>, limit: int, windowSize: int, error: int,
                                                sel: seq<bool>)
    requires IsRun(states, events) && k < |states| && served == Checks(states, events, user, true, k)
    requires OneWindow(served, windowSize) && OneLimit(served, limit) && 0 <= error <= 30000
    requires ClocksNear(served, error) && InOrder(served)
    requires |sel| == |served| && KeepsLimit(served, sel, limit, windowSize)
    ensures forall m: nat :: m <= |sel| ==> Count(sel, 0, m) <= Count(Grants(served), 0, m)
    ensures NoneLost(served) ==> forall m: nat :: m <= |sel| ==> Count(sel, 0, m) <= Count(Answers(served), 0, m)
  {
    var tcs := WindowCallsOf(served);
    WindowFacts(states, events, user, k, served);
    OrderedCalls(served, windowSize, error);
    if |served| > 0 {
      assert WellServed(served[0]) && Sliding(served[0].config);
      assert Window.FixedCapacity(WindowExpiry.Calls(tcs), limit);
      WindowExpiry.KeptGreedyOptimal(tcs, sel, error, windowSize, limit);
    }
    AnswersAreGrants(served, true);
  }
}
