/** The expiry of a window key and the effect of the window observer. */
module SlidingWindowExpiry {
  import opened Prelude
  import opened SlidingWindow
  import Bounds = SlidingWindowBounds

  /** A sorted set with a time to live. The store keeps no empty sets. */
  datatype Kept = Kept(members: set<int>, deadline: int)

  /** A call together with the store's clock, in milliseconds, when its script runs. */
  datatype TimedCall = TimedCall(call: Call, clock: int)

  const WINDOW_SLACK := 60

  function Live(s: Option<Kept>, clock: int): set<int> {
    if s.Some? && clock <= s.value.deadline then s.value.members else {}
  }

  /** Every call restarts the time to live of the set it leaves, if it leaves one. A time to live
      that is not positive deletes the key. */
  function KeptNext(s: Option<Kept>, tc: TimedCall): Option<Kept> {
    var members := Next(Live(s, tc.clock), tc.call);
    var ttl := tc.call.windowSize + WINDOW_SLACK;
    if members == {} || ttl <= 0 then None else Some(Kept(members, tc.clock + 1000 * ttl))
  }

  function KeptAfter(tcs: seq<TimedCall>, n: nat): Option<Kept>
    requires n <= |tcs|
  {
    if n == 0 then None else KeptNext(KeptAfter(tcs, n - 1), tcs[n - 1])
  }

  predicate KeptAdmitted(tcs: seq<TimedCall>, k: nat)
    requires k < |tcs|
  {
    Admits(Live(KeptAfter(tcs, k), tcs[k].clock), tcs[k].call)
  }

  function KeptState(tcs: seq<TimedCall>): Option<Kept> {
    KeptAfter(tcs, |tcs|)
  }

  function KeptDecisions(tcs: seq<TimedCall>): (d: seq<bool>)
    ensures |d| == |tcs|
    ensures forall k :: 0 <= k < |tcs| ==> d[k] == KeptAdmitted(tcs, k)
  {
    seq(|tcs|, k requires 0 <= k < |tcs| => KeptAdmitted(tcs, k))
  }

  lemma {:induction false} KeptPrefix(tcs: seq<TimedCall>, more: seq<TimedCall>, n: nat)
    requires n <= |tcs|
    ensures KeptAfter(tcs + more, n) == KeptAfter(tcs, n)
  {
    if n > 0 {
      KeptPrefix(tcs, more, n - 1);
      assert (tcs + more)[n - 1] == tcs[n - 1];
    }
  }

  lemma {:induction false} KeptSnoc(tcs: seq<TimedCall>, tc: TimedCall)
    ensures KeptState(tcs + [tc]) == KeptNext(KeptState(tcs), tc)
    ensures KeptDecisions(tcs + [tc]) == KeptDecisions(tcs) + [Admits(Live(KeptState(tcs), tc.clock), tc.call)]
  {
    KeptPrefix(tcs, [tc], |tcs|);
    forall k: nat | k < |tcs| ensures KeptAdmitted(tcs + [tc], k) == KeptAdmitted(tcs, k) {
      KeptPrefix(tcs, [tc], k);
    }
  }

  lemma {:induction false} KeptNotEmpty(tcs: seq<TimedCall>)
    ensures KeptState(tcs).Some? ==> KeptState(tcs).value.members != {}
  {
  }

  /** The same calls on a set that never expires. */
  function Calls(tcs: seq<TimedCall>): (calls: seq<Call>)
    ensures |calls| == |tcs|
    ensures forall k :: 0 <= k < |tcs| ==> calls[k] == tcs[k].call
  {
    seq(|tcs|, k requires 0 <= k < |tcs| => tcs[k].call)
  }

  ghost predicate ExpiryUnnoticed(tcs: seq<TimedCall>) {
    forall k: nat :: k < |tcs| ==> KeptAdmitted(tcs, k) == Admitted(Calls(tcs), k)
  }

  /** The store's clock does not step back and every caller is within `error` of it. */
  predicate ClocksWithin(tcs: seq<TimedCall>, error: int) {
    && (forall k :: 0 <= k < |tcs| ==> -error <= tcs[k].call.now - tcs[k].clock <= error)
    && (forall i, j :: 0 <= i <= j < |tcs| ==> tcs[i].clock <= tcs[j].clock)
  }

  ghost predicate ExpiryTransparent(error: int, windowSize: int) {
    forall tcs: seq<TimedCall> ::
      ClocksWithin(tcs, error) && FixedWindow(Calls(tcs), windowSize) ==> ExpiryUnnoticed(tcs)
  }

  function MembersOf(s: Option<Kept>): set<int> {
    if s.Some? then s.value.members else {}
  }

  lemma {:induction false} MembersAreRecent(tcs: seq<TimedCall>, error: int, n: nat)
    requires ClocksWithin(tcs, error) && 0 < n <= |tcs|
    ensures forall s :: s in After(Calls(tcs), n) ==> s <= tcs[n - 1].clock + error
  {
    if n > 1 {
      MembersAreRecent(tcs, error, n - 1);
    }
  }

  lemma {:induction false} DeadlineOf(tcs: seq<TimedCall>, n: nat)
    requires 0 < n <= |tcs| && KeptAfter(tcs, n).Some?
    ensures KeptAfter(tcs, n).value.deadline
            == tcs[n - 1].clock + 1000 * (tcs[n - 1].call.windowSize + WINDOW_SLACK)
  {
  }

  /** Everything dropped by expiry would have been pruned by the next call. */
  lemma {:induction false} ExpiredWouldBePruned(tcs: seq<TimedCall>, error: int, windowSize: int, n: nat)
    requires 0 <= error <= 30000 && ClocksWithin(tcs, error)
    requires FixedWindow(Calls(tcs), windowSize) && n < |tcs|
    requires MembersOf(KeptAfter(tcs, n)) == After(Calls(tcs), n)
    ensures Pruned(Live(KeptAfter(tcs, n), tcs[n].clock), WindowStart(tcs[n].call))
            == Pruned(After(Calls(tcs), n), WindowStart(tcs[n].call))
  {
    if n > 0 && KeptAfter(tcs, n).Some? && tcs[n].clock > KeptAfter(tcs, n).value.deadline {
      DeadlineOf(tcs, n);
      MembersAreRecent(tcs, error, n);
      assert Calls(tcs)[n - 1] == tcs[n - 1].call && Calls(tcs)[n] == tcs[n].call;
      assert Pruned(After(Calls(tcs), n), WindowStart(tcs[n].call)) == {};
    }
  }

  lemma {:induction false} SlackHidesStep(tcs: seq<TimedCall>, error: int, windowSize: int, n: nat)
    requires 0 <= error <= 30000 && ClocksWithin(tcs, error) && windowSize > 0
    requires FixedWindow(Calls(tcs), windowSize) && n < |tcs|
    requires MembersOf(KeptAfter(tcs, n)) == After(Calls(tcs), n)
    ensures KeptAdmitted(tcs, n) == Admitted(Calls(tcs), n)
    ensures MembersOf(KeptAfter(tcs, n + 1)) == After(Calls(tcs), n + 1)
  {
    ExpiredWouldBePruned(tcs, error, windowSize, n);
    assert Calls(tcs)[n] == tcs[n].call;
  }

  lemma {:induction false} SlackHidesExpiry(tcs: seq<TimedCall>, error: int, windowSize: int, n: nat)
    requires 0 <= error <= 30000 && ClocksWithin(tcs, error) && windowSize > 0
    requires FixedWindow(Calls(tcs), windowSize) && n <= |tcs|
    ensures MembersOf(KeptAfter(tcs, n)) == After(Calls(tcs), n)
    ensures n < |tcs| ==> KeptAdmitted(tcs, n) == Admitted(Calls(tcs), n)
    decreases n
  {
    if n > 0 {
      SlackHidesExpiry(tcs, error, windowSize, n - 1);
      SlackHidesStep(tcs, error, windowSize, n - 1);
    }
    if n < |tcs| {
      SlackHidesStep(tcs, error, windowSize, n);
    }
  }

  /** A caller 30001 ms ahead of the store, then one 30001 ms behind it just after expiry. */
  function AheadThenBehind(windowSize: int): seq<TimedCall> {
    var late := 1000 * windowSize + 60001;
    [TimedCall(Call(30001, 1, windowSize), 0), TimedCall(Call(late - 30001, 1, windowSize), late)]
  }

  lemma {:induction false} ExpiryNoticed(windowSize: int)
    requires windowSize > 0
    ensures ClocksWithin(AheadThenBehind(windowSize), 30001)
    ensures FixedWindow(Calls(AheadThenBehind(windowSize)), windowSize)
    ensures !ExpiryUnnoticed(AheadThenBehind(windowSize))
  {
    var tcs := AheadThenBehind(windowSize);
    var first, second := tcs[0].call, tcs[1].call;
    assert Calls(tcs) == [first, second];
    assert Pruned({}, WindowStart(first)) == {} && Pruned({}, WindowStart(second)) == {};
    assert After(Calls(tcs), 1) == {30001};
    assert KeptAfter(tcs, 1) == Some(Kept({30001}, 1000 * (windowSize + WINDOW_SLACK)));
    assert Pruned({30001}, WindowStart(second)) == {30001};
    assert KeptAdmitted(tcs, 1) && !Admitted(Calls(tcs), 1);
  }

  /** The sixty seconds of slack hide the expiry of a window key, on every run with that window
      size, exactly when no caller is more than thirty seconds from the store's clock. */
  lemma {:induction false} ExpiryTransparentIff(error: int, windowSize: int)
    requires error >= 0 && windowSize > 0
    ensures ExpiryTransparent(error, windowSize) <==> error <= 30000
  {
    if error <= 30000 {
      forall tcs: seq<TimedCall> | ClocksWithin(tcs, error) && FixedWindow(Calls(tcs), windowSize)
        ensures ExpiryUnnoticed(tcs)
      {
        forall k: nat | k < |tcs| ensures KeptAdmitted(tcs, k) == Admitted(Calls(tcs), k) {
          SlackHidesExpiry(tcs, error, windowSize, k);
        }
      }
    } else {
      ExpiryNoticed(windowSize);
      assert ClocksWithin(AheadThenBehind(windowSize), error);
    }
  }

  // ---- The exact law with expiry ----

  /** The distinct admission times later than `after` of the first `n` calls. */
  function KeptStamps(tcs: seq<TimedCall>, n: nat, after: int): set<int>
    requires n <= |tcs|
  {
    set k: nat | k < n && KeptAdmitted(tcs, k) && tcs[k].call.now > after :: tcs[k].call.now
  }

  lemma {:induction false} KeptAsRun(tcs: seq<TimedCall>, error: int, windowSize: int)
    requires 0 <= error <= 30000 && ClocksWithin(tcs, error) && windowSize > 0 && FixedWindow(Calls(tcs), windowSize)
    ensures KeptDecisions(tcs) == Decisions(Calls(tcs))
  {
    forall k: nat | k < |tcs| ensures KeptDecisions(tcs)[k] == Decisions(Calls(tcs))[k] {
      SlackHidesExpiry(tcs, error, windowSize, k);
    }
  }

  /** With ordered callers within thirty seconds of the store's clock and one window, a call is
      admitted exactly when fewer distinct admission times than its capacity lie in the window
      ending at it, over the whole history. */
  lemma {:induction false} AdmittedIffRoom(tcs: seq<TimedCall>, error: int, windowSize: int, n: nat)
    requires 0 <= error <= 30000 && ClocksWithin(tcs, error) && windowSize > 0
    requires FixedWindow(Calls(tcs), windowSize) && Ordered(Calls(tcs)) && n < |tcs|
    ensures KeptAdmitted(tcs, n) <==> |KeptStamps(tcs, n, WindowStart(tcs[n].call))| < tcs[n].call.capacity
  {
    KeptAsRun(tcs, error, windowSize);
    forall k: nat | k < |tcs| ensures KeptAdmitted(tcs, k) == Admitted(Calls(tcs), k) {
      assert KeptDecisions(tcs)[k] == Decisions(Calls(tcs))[k];
    }
    Bounds.PrunedSetIsHistory(Calls(tcs), windowSize, n);
    assert KeptStamps(tcs, n, WindowStart(tcs[n].call)) == Bounds.Stamps(Calls(tcs), n, WindowStart(tcs[n].call));
  }

  /** And no selection that takes at most `capacity` from every stretch shorter than the window is
      ahead of the decisions in any prefix. */
  lemma {:induction false} KeptGreedyOptimal(tcs: seq<TimedCall>, sel: seq<bool>, error: int, windowSize: int,
                                             capacity: int)
    requires 0 <= error <= 30000 && ClocksWithin(tcs, error) && windowSize > 0 && capacity >= 0
    requires FixedWindow(Calls(tcs), windowSize) && FixedCapacity(Calls(tcs), capacity) && Ordered(Calls(tcs))
    requires |sel| == |tcs| && Bounds.Conforms(Calls(tcs), sel, capacity, windowSize)
    ensures forall m: nat :: m <= |tcs| ==> Count(sel, 0, m) <= Count(KeptDecisions(tcs), 0, m)
  {
    KeptAsRun(tcs, error, windowSize);
    Bounds.GreedyOptimal(Calls(tcs), sel, capacity, windowSize);
  }

  // ---- The bound with expiry ----

  /** Call `j` neither prunes the time `s` nor finds that the key has expired. */
  predicate Spares(tcs: seq<TimedCall>, j: nat, s: int)
    requires 0 < j < |tcs|
  {
    && WindowStart(tcs[j].call) < s
    && tcs[j].clock <= tcs[j - 1].clock + 1000 * (tcs[j - 1].call.windowSize + WINDOW_SLACK)
  }

  lemma {:induction false} SparedStep(tcs: seq<TimedCall>, j: nat, s: int)
    requires 0 < j < |tcs| && tcs[j].call.windowSize > 0 && Spares(tcs, j, s)
    requires s in MembersOf(KeptAfter(tcs, j))
    ensures s in MembersOf(KeptAfter(tcs, j + 1))
  {
    DeadlineOf(tcs, j);
  }

  lemma {:induction false} SparedIsMember(tcs: seq<TimedCall>, k: nat, n: nat)
    requires k < n <= |tcs| && KeptAdmitted(tcs, k)
    requires forall j :: 0 <= j < n ==> tcs[j].call.windowSize > 0
    requires forall j: nat :: k < j < n ==> Spares(tcs, j, tcs[k].call.now)
    ensures tcs[k].call.now in MembersOf(KeptAfter(tcs, n))
    decreases n
  {
    if k < n - 1 {
      SparedIsMember(tcs, k, n - 1);
      SparedStep(tcs, n - 1, tcs[k].call.now);
    }
  }

  /** A time recent enough at call `k` is spared by every call up to it. */
  lemma {:induction false} RecentIsSpared(tcs: seq<TimedCall>, error: int, smallest: int, i: nat, j: nat, k: nat)
    requires 0 <= error <= 30000 && ClocksWithin(tcs, error) && i < j <= k < |tcs|
    requires forall m :: 0 <= m <= k ==> tcs[m].call.windowSize >= smallest
    requires tcs[i].call.now > tcs[k].call.now + 2 * error - 1000 * smallest
    ensures Spares(tcs, j, tcs[i].call.now)
  {
  }

  /** With callers within thirty seconds of the store's clock, and for any configurations on one
      key, an admission leaves at most its own capacity of distinct admission times in the window
      ending at it, shortened by twice the clock error; expiry included. */
  lemma {:induction false} KeptMixedBound(tcs: seq<TimedCall>, error: int, smallest: int, k: nat)
    requires 0 <= error <= 30000 && ClocksWithin(tcs, error) && smallest > 0
    requires k < |tcs| && KeptAdmitted(tcs, k)
    requires forall m :: 0 <= m <= k ==> tcs[m].call.windowSize >= smallest
    ensures |KeptStamps(tcs, k + 1, tcs[k].call.now + 2 * error - 1000 * smallest)| <= tcs[k].call.capacity
  {
    var start := tcs[k].call.now + 2 * error - 1000 * smallest;
    var stamps, members := KeptStamps(tcs, k + 1, start), MembersOf(KeptAfter(tcs, k + 1));
    forall s | s in stamps ensures s in members {
      var i: nat :| i < k + 1 && KeptAdmitted(tcs, i) && tcs[i].call.now > start && tcs[i].call.now == s;
      RecentIsMember(tcs, error, smallest, i, k);
    }
    KeptFits(tcs, k);
    SubsetSize(stamps, members);
  }

  lemma {:induction false} RecentIsMember(tcs: seq<TimedCall>, error: int, smallest: int, i: nat, k: nat)
    requires 0 <= error <= 30000 && ClocksWithin(tcs, error) && smallest > 0 && i <= k < |tcs|
    requires forall m :: 0 <= m <= k ==> tcs[m].call.windowSize >= smallest
    requires KeptAdmitted(tcs, i) && tcs[i].call.now > tcs[k].call.now + 2 * error - 1000 * smallest
    ensures tcs[i].call.now in MembersOf(KeptAfter(tcs, k + 1))
  {
    forall j: nat | i < j < k + 1 ensures Spares(tcs, j, tcs[i].call.now) {
      RecentIsSpared(tcs, error, smallest, i, j, k);
    }
    SparedIsMember(tcs, i, k + 1);
  }

  lemma {:induction false} KeptFits(tcs: seq<TimedCall>, k: nat)
    requires k < |tcs| && KeptAdmitted(tcs, k)
    ensures |MembersOf(KeptAfter(tcs, k + 1))| <= tcs[k].call.capacity
  {
  }

  // ---- The observer ----

  /** A request, or a run of `GetWindowState`, which prunes with its own window. */
  datatype Event = Request(tc: TimedCall) | Observe(now: int, windowSize: int, clock: int)

  function TimeOf(e: Event): int {
    match e
    case Request(tc) => tc.call.now
    case Observe(now, _, _) => now
  }

  function ClockOf(e: Event): int {
    match e
    case Request(tc) => tc.clock
    case Observe(_, _, clock) => clock
  }

  /** Pruning keeps a running time to live; an emptied or expired key is gone. */
  function ObservedNext(s: Option<Kept>, windowStart: int, clock: int): Option<Kept> {
    var members := Pruned(Live(s, clock), windowStart);
    if members == {} then None else Some(Kept(members, s.value.deadline))
  }

  function EventNext(s: Option<Kept>, e: Event): Option<Kept> {
    match e
    case Request(tc) => KeptNext(s, tc)
    case Observe(now, windowSize, clock) => ObservedNext(s, now - 1000 * windowSize, clock)
  }

  function EventState(events: seq<Event>): Option<Kept> {
    if events == [] then None else
      var n := |events| - 1;
      EventNext(EventState(events[..n]), events[n])
  }

  function EventDecisions(events: seq<Event>): seq<bool> {
    if events == [] then [] else
      var n := |events| - 1;
      EventDecisions(events[..n])
      + (if events[n].Request?
         then [Admits(Live(EventState(events[..n]), events[n].tc.clock), events[n].tc.call)] else [])
  }

  /** The run with the observations left out. */
  function RequestsOnly(events: seq<Event>): seq<TimedCall> {
    if events == [] then [] else
      var n := |events| - 1;
      RequestsOnly(events[..n]) + (if events[n].Request? then [events[n].tc] else [])
  }

  /** Ordered clocks, one configured window and one observed window. */
  predicate ObservedRun(events: seq<Event>, windowSize: int, observed: int) {
    && (forall i, j :: 0 <= i <= j < |events| ==>
          TimeOf(events[i]) <= TimeOf(events[j]) && ClockOf(events[i]) <= ClockOf(events[j]))
    && (forall k :: 0 <= k < |events| ==>
          if events[k].Request? then events[k].tc.call.windowSize == windowSize
          else events[k].windowSize == observed)
  }

  ghost predicate ObserverHarmless(observed: int, windowSize: int) {
    forall events: seq<Event> :: ObservedRun(events, windowSize, observed) ==>
      EventDecisions(events) == KeptDecisions(RequestsOnly(events))
  }

  lemma {:induction false} EventSnoc(front: seq<Event>, e: Event)
    ensures EventState(front + [e]) == EventNext(EventState(front), e)
    ensures EventDecisions(front + [e]) ==
            if e.Request? then EventDecisions(front) + [Admits(Live(EventState(front), e.tc.clock), e.tc.call)]
            else EventDecisions(front)
    ensures RequestsOnly(front + [e]) == if e.Request? then RequestsOnly(front) + [e.tc] else RequestsOnly(front)
  {
    assert (front + [e])[..|front|] == front;
  }

  lemma {:induction false} EventNotEmpty(events: seq<Event>)
    ensures EventState(events).Some? ==> EventState(events).value.members != {}
  {
  }

  /** From the store's time `clock` on, the two keys show the same members after `start`. */
  ghost predicate SameWindow(a: Option<Kept>, b: Option<Kept>, start: int, clock: int) {
    forall c :: clock <= c ==> Pruned(Live(a, c), start) == Pruned(Live(b, c), start)
  }

  lemma {:induction false} SameWindowLater(a: Option<Kept>, b: Option<Kept>, start: int, clock: int, start': int,
                                           clock': int)
    requires SameWindow(a, b, start, clock) && start <= start' && clock <= clock'
    ensures SameWindow(a, b, start', clock')
  {
    forall c | clock' <= c ensures Pruned(Live(a, c), start') == Pruned(Live(b, c), start') {
      PruneAbsorbed(Live(a, c), start, start');
      PruneAbsorbed(Live(b, c), start, start');
    }
  }

  /** A request forgets what an observer pruned before it. */
  lemma {:induction false} RequestAgrees(a: Option<Kept>, b: Option<Kept>, tc: TimedCall)
    requires SameWindow(a, b, WindowStart(tc.call), tc.clock)
    ensures KeptNext(a, tc) == KeptNext(b, tc)
    ensures Admits(Live(a, tc.clock), tc.call) == Admits(Live(b, tc.clock), tc.call)
  {
  }

  /** An observation prunes nothing a later request would count. */
  lemma {:induction false} ObservationAgrees(s: Option<Kept>, windowStart: int, start: int, clock: int)
    requires windowStart <= start
    ensures SameWindow(ObservedNext(s, windowStart, clock), s, start, clock)
  {
    forall c | clock <= c
      ensures Pruned(Live(ObservedNext(s, windowStart, clock), c), start) == Pruned(Live(s, c), start)
    {
      PruneAbsorbed(Live(s, c), windowStart, start);
    }
  }

  /** The observed run has made the decisions of the unobserved one, and will show the same members
      after `start` from the store's time `clock` on. */
  ghost predicate Unnoticed(events: seq<Event>, start: int, clock: int) {
    && EventDecisions(events) == KeptDecisions(RequestsOnly(events))
    && SameWindow(EventState(events), KeptState(RequestsOnly(events)), start, clock)
  }

  lemma {:induction false} RequestUnnoticed(front: seq<Event>, tc: TimedCall)
    requires Unnoticed(front, WindowStart(tc.call), tc.clock)
    ensures Unnoticed(front + [Request(tc)], WindowStart(tc.call), tc.clock)
  {
    EventSnoc(front, Request(tc));
    KeptSnoc(RequestsOnly(front), tc);
    RequestAgrees(EventState(front), KeptState(RequestsOnly(front)), tc);
  }

  lemma {:induction false} ObservationUnnoticed(front: seq<Event>, now: int, observed: int, start: int, clock: int)
    requires now - 1000 * observed <= start && Unnoticed(front, start, clock)
    ensures Unnoticed(front + [Observe(now, observed, clock)], start, clock)
  {
    EventSnoc(front, Observe(now, observed, clock));
    ObservationAgrees(EventState(front), now - 1000 * observed, start, clock);
  }

  lemma {:induction false} WideObserverUnnoticed(events: seq<Event>, windowSize: int, observed: int, start: int,
                                                 clock: int)
    requires ObservedRun(events, windowSize, observed) && observed >= windowSize
    requires forall k :: 0 <= k < |events| ==>
               TimeOf(events[k]) - 1000 * windowSize <= start && ClockOf(events[k]) <= clock
    ensures Unnoticed(events, start, clock)
    decreases |events|
  {
    if events != [] {
      var n := |events| - 1;
      var front, e := events[..n], events[n];
      var here := TimeOf(e) - 1000 * windowSize;
      assert events == front + [e];
      WideObserverUnnoticed(front, windowSize, observed, here, ClockOf(e));
      match e {
        case Request(tc) => RequestUnnoticed(front, tc);
        case Observe(now, w, c) => ObservationUnnoticed(front, now, w, here, c);
      }
      SameWindowLater(EventState(events), KeptState(RequestsOnly(events)), here, ClockOf(e), start, clock);
    }
  }

  /** One admission, an observation with a shorter window just late enough to drop it, and a
      second request still inside the configured window; the store's clock stands still. */
  function NarrowObservation(windowSize: int, observed: int): seq<Event> {
    var late := Max(0, 1000 * observed);
    [Request(TimedCall(Call(0, 1, windowSize), 0)), Observe(late, observed, 0),
     Request(TimedCall(Call(late, 1, windowSize), 0))]
  }

  lemma {:induction false} FirstAdmission(s: Option<Kept>, windowSize: int)
    requires windowSize > 0 && s == None
    ensures KeptNext(s, TimedCall(Call(0, 1, windowSize), 0)) == Some(Kept({0}, 1000 * (windowSize + WINDOW_SLACK)))
    ensures Admits(Live(s, 0), Call(0, 1, windowSize))
  {
    assert Pruned({}, WindowStart(Call(0, 1, windowSize))) == {};
  }

  lemma {:induction false} NarrowPruning(windowSize: int, observed: int)
    requires windowSize > 0
    ensures var s := Some(Kept({0}, 1000 * (windowSize + WINDOW_SLACK)));
            ObservedNext(s, Max(0, 1000 * observed) - 1000 * observed, 0) == None
  {
    assert Pruned({0}, Max(0, 1000 * observed) - 1000 * observed) == {};
  }

  lemma {:induction false} NarrowObservationAdmitsBoth(windowSize: int, observed: int)
    requires windowSize > 0
    ensures EventDecisions(NarrowObservation(windowSize, observed)) == [true, true]
    ensures RequestsOnly(NarrowObservation(windowSize, observed))
            == [TimedCall(Call(0, 1, windowSize), 0), TimedCall(Call(Max(0, 1000 * observed), 1, windowSize), 0)]
  {
    var e := NarrowObservation(windowSize, observed);
    EventSnoc([], e[0]);
    EventSnoc([] + [e[0]], e[1]);
    EventSnoc([] + [e[0]] + [e[1]], e[2]);
    assert e == [] + [e[0]] + [e[1]] + [e[2]];
    FirstAdmission(None, windowSize);
    NarrowPruning(windowSize, observed);
    assert Pruned({}, WindowStart(e[2].tc.call)) == {};
  }

  lemma {:induction false} SecondWouldBeRefused(windowSize: int, late: int)
    requires windowSize > 0 && late < 1000 * windowSize
    ensures !KeptDecisions([TimedCall(Call(0, 1, windowSize), 0), TimedCall(Call(late, 1, windowSize), 0)])[1]
  {
    var first, second := TimedCall(Call(0, 1, windowSize), 0), TimedCall(Call(late, 1, windowSize), 0);
    assert Pruned({}, WindowStart(first.call)) == {};
    assert Pruned({0}, WindowStart(second.call)) == {0};
    assert KeptAfter([first, second], 1).value.members == {0};
  }

  lemma {:induction false} NarrowObserverNoticed(windowSize: int, observed: int)
    requires windowSize > 0 && observed < windowSize
    ensures ObservedRun(NarrowObservation(windowSize, observed), windowSize, observed)
    ensures EventDecisions(NarrowObservation(windowSize, observed))
            != KeptDecisions(RequestsOnly(NarrowObservation(windowSize, observed)))
  {
    NarrowObservationAdmitsBoth(windowSize, observed);
    SecondWouldBeRefused(windowSize, Max(0, 1000 * observed));
  }

  /** Observing never changes a later decision, on any run with ordered clocks, expiry included,
      exactly when the observed window is at least the configured one. */
  lemma {:induction false} ObserverHarmlessIff(observed: int, windowSize: int)
    requires windowSize > 0
    ensures ObserverHarmless(observed, windowSize) <==> observed >= windowSize
  {
    if observed >= windowSize {
      forall events: seq<Event> | ObservedRun(events, windowSize, observed)
        ensures EventDecisions(events) == KeptDecisions(RequestsOnly(events))
      {
        if events != [] {
          var last := events[|events| - 1];
          WideObserverUnnoticed(events, windowSize, observed, TimeOf(last) - 1000 * windowSize, ClockOf(last));
        }
      }
    } else {
      NarrowObserverNoticed(windowSize, observed);
    }
  }
}
