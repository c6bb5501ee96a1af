/** What the window limits as the service keeps it, expiry included: every run is cut where the key
    expires, and between two cuts it is a run on a key that never does. */
module SlidingWindowLimits {
  import opened Prelude
  import opened SlidingWindow
  import opened SlidingWindowExpiry
  import Bounds = SlidingWindowBounds

  // ---- Between two expiries ----

  /** One configuration throughout. */
  predicate OneConfig(tcs: seq<TimedCall>, windowSize: int, capacity: int) {
    forall k :: 0 <= k < |tcs| ==> tcs[k].call.windowSize == windowSize && tcs[k].call.capacity == capacity
  }

  /** The script of call `m` finds no key, because it is the first or the key has just expired. */
  predicate StartsAfresh(tcs: seq<TimedCall>, windowSize: int, m: nat)
    requires m < |tcs|
  {
    m == 0 || tcs[m].clock > tcs[m - 1].clock + 1000 * (windowSize + WINDOW_SLACK)
  }

  /** Call `m` starts afresh and none of the calls after it and up to `n` does. */
  predicate OneSegment(tcs: seq<TimedCall>, windowSize: int, m: nat, n: nat) {
    && m <= n < |tcs|
    && if m == n then StartsAfresh(tcs, windowSize, m)
       else !StartsAfresh(tcs, windowSize, n) && OneSegment(tcs, windowSize, m, n - 1)
  }

  lemma {:induction false} SegmentPrefix(tcs: seq<TimedCall>, windowSize: int, m: nat, k: nat, n: nat)
    requires OneSegment(tcs, windowSize, m, n) && m <= k <= n
    ensures OneSegment(tcs, windowSize, m, k)
    decreases n
  {
    if k < n {
      SegmentPrefix(tcs, windowSize, m, k, n - 1);
    }
  }

  function SegmentStart(tcs: seq<TimedCall>, windowSize: int, n: nat): (m: nat)
    requires n < |tcs|
    ensures OneSegment(tcs, windowSize, m, n) && StartsAfresh(tcs, windowSize, m)
  {
    if StartsAfresh(tcs, windowSize, n) then n else SegmentStart(tcs, windowSize, n - 1)
  }

  /** The calls from `m` on, as a run on a key that starts absent and never expires. */
  function RunFrom(tcs: seq<TimedCall>, m: nat): (calls: seq<Call>)
    requires m <= |tcs|
    ensures |calls| == |tcs| - m
    ensures forall k :: 0 <= k < |calls| ==> calls[k] == tcs[m + k].call
  {
    seq(|tcs| - m, k requires 0 <= k < |tcs| - m => tcs[m + k].call)
  }

  lemma {:induction false} StillThere(s: Option<Kept>, tc: TimedCall, clock: int)
    requires tc.call.windowSize > 0 && clock <= tc.clock + 1000 * (tc.call.windowSize + WINDOW_SLACK)
    ensures Live(KeptNext(s, tc), clock) == Next(Live(s, tc.clock), tc.call)
  {
  }

  lemma {:induction false} GoneByThen(s: Option<Kept>, tc: TimedCall, clock: int)
    requires tc.call.windowSize > 0 && clock > tc.clock + 1000 * (tc.call.windowSize + WINDOW_SLACK)
    ensures Live(KeptNext(s, tc), clock) == {}
  {
  }

  lemma {:induction false} RunStarts(tcs: seq<TimedCall>, windowSize: int, capacity: int, m: nat)
    requires windowSize > 0 && OneConfig(tcs, windowSize, capacity) && m < |tcs| && StartsAfresh(tcs, windowSize, m)
    ensures Live(KeptAfter(tcs, m), tcs[m].clock) == After(RunFrom(tcs, m), 0)
  {
    if m > 0 {
      GoneByThen(KeptAfter(tcs, m - 1), tcs[m - 1], tcs[m].clock);
    }
  }

  lemma {:induction false} RunGoesOn(tcs: seq<TimedCall>, windowSize: int, capacity: int, m: nat, n: nat)
    requires windowSize > 0 && OneConfig(tcs, windowSize, capacity)
    requires m < n < |tcs| && !StartsAfresh(tcs, windowSize, n)
    requires Live(KeptAfter(tcs, n - 1), tcs[n - 1].clock) == After(RunFrom(tcs, m), n - 1 - m)
    ensures Live(KeptAfter(tcs, n), tcs[n].clock) == After(RunFrom(tcs, m), n - m)
  {
    StillThere(KeptAfter(tcs, n - 1), tcs[n - 1], tcs[n].clock);
  }

  lemma {:induction false} SegmentIsRun(tcs: seq<TimedCall>, windowSize: int, capacity: int, m: nat, n: nat)
    requires windowSize > 0 && OneConfig(tcs, windowSize, capacity) && OneSegment(tcs, windowSize, m, n)
    ensures Live(KeptAfter(tcs, n), tcs[n].clock) == After(RunFrom(tcs, m), n - m)
    decreases n
  {
    if m < n {
      SegmentIsRun(tcs, windowSize, capacity, m, n - 1);
      RunGoesOn(tcs, windowSize, capacity, m, n);
    } else {
      RunStarts(tcs, windowSize, capacity, m);
    }
  }

  /** Within a segment the decisions are those of a key that never expires. */
  lemma {:induction false} SegmentDecides(tcs: seq<TimedCall>, windowSize: int, capacity: int, m: nat, k: nat, n: nat)
    requires windowSize > 0 && OneConfig(tcs, windowSize, capacity) && OneSegment(tcs, windowSize, m, n) && m <= k <= n
    ensures KeptAdmitted(tcs, k) == Admitted(RunFrom(tcs, m), k - m)
  {
    SegmentPrefix(tcs, windowSize, m, k, n);
    SegmentIsRun(tcs, windowSize, capacity, m, k);
  }

  lemma {:induction false} RunKeepsConfig(tcs: seq<TimedCall>, error: int, windowSize: int, capacity: int, m: nat)
    requires ClocksWithin(tcs, error) && OneConfig(tcs, windowSize, capacity) && m <= |tcs|
    ensures Bounds.OneConfigRun(RunFrom(tcs, m), 2 * error, windowSize, capacity)
  {
    var calls := RunFrom(tcs, m);
    forall i: nat, j: nat | i < j < |calls| ensures calls[j].now >= calls[i].now - 2 * error {
      assert tcs[m + i].clock <= tcs[m + j].clock;
    }
  }

  /** An expiry lies between distant times. */
  lemma {:induction false} FarApart(tcs: seq<TimedCall>, error: int, windowSize: int, i: nat, m: nat, k: nat)
    requires ClocksWithin(tcs, error) && i < m <= k < |tcs| && StartsAfresh(tcs, windowSize, m)
    ensures tcs[k].call.now >= tcs[i].call.now + 1000 * (windowSize + WINDOW_SLACK) + 1 - 2 * error
  {
  }

  // ---- The bound under clock error ----

  predicate KeptStampWithin(tcs: seq<TimedCall>, k: nat, from: int, length: int)
    requires k < |tcs|
  {
    KeptAdmitted(tcs, k) && from <= tcs[k].call.now < from + length
  }

  /** The distinct times, in the interval of `length` milliseconds from `from` on, at which one of
      the first `n` calls was admitted. */
  function KeptStampsWithin(tcs: seq<TimedCall>, n: nat, from: int, length: int): set<int>
    requires n <= |tcs|
  {
    set k: nat | k < n && KeptStampWithin(tcs, k, from, length) :: tcs[k].call.now
  }

  lemma {:induction false} OlderStampsOnly(tcs: seq<TimedCall>, m: nat, n: nat, from: int, length: int)
    requires m <= n <= |tcs| && forall k: nat :: m <= k < n ==> !KeptStampWithin(tcs, k, from, length)
    ensures KeptStampsWithin(tcs, n, from, length) == KeptStampsWithin(tcs, m, from, length)
  {
  }

  lemma {:induction false} SegmentStamp(tcs: seq<TimedCall>, windowSize: int, capacity: int, m: nat, k: nat, n: nat,
                                        from: int, length: int)
    requires windowSize > 0 && OneConfig(tcs, windowSize, capacity)
    requires m <= k < n <= |tcs| && OneSegment(tcs, windowSize, m, n - 1) && KeptStampWithin(tcs, k, from, length)
    ensures tcs[k].call.now in Bounds.StampsWithin(RunFrom(tcs, m), n - m, from, length)
  {
    SegmentDecides(tcs, windowSize, capacity, m, k, n - 1);
    var calls, i := RunFrom(tcs, m), k - m;
    assert Admitted(calls, i) && calls[i].now == tcs[k].call.now;
  }

  lemma {:induction false} SegmentStamps(tcs: seq<TimedCall>, windowSize: int, capacity: int, m: nat, n: nat,
                                         from: int, length: int)
    requires windowSize > 0 && OneConfig(tcs, windowSize, capacity)
    requires 0 < n <= |tcs| && OneSegment(tcs, windowSize, m, n - 1)
    requires forall i: nat :: i < m ==> !KeptStampWithin(tcs, i, from, length)
    ensures KeptStampsWithin(tcs, n, from, length) <= Bounds.StampsWithin(RunFrom(tcs, m), n - m, from, length)
  {
    forall k: nat | k < n && KeptStampWithin(tcs, k, from, length)
      ensures tcs[k].call.now in Bounds.StampsWithin(RunFrom(tcs, m), n - m, from, length)
    {
      SegmentStamp(tcs, windowSize, capacity, m, k, n, from, length);
    }
  }

  lemma {:induction false} SegmentBound(tcs: seq<TimedCall>, error: int, windowSize: int, capacity: int, from: int,
                                        m: nat, n: nat)
    requires 0 <= 2 * error < 1000 * windowSize && ClocksWithin(tcs, error) && capacity >= 0
    requires OneConfig(tcs, windowSize, capacity) && 0 < n <= |tcs| && OneSegment(tcs, windowSize, m, n - 1)
    requires forall i: nat :: i < m ==> !KeptStampWithin(tcs, i, from, Bounds.SkewedLength(2 * error, windowSize))
    ensures |KeptStampsWithin(tcs, n, from, Bounds.SkewedLength(2 * error, windowSize))| <= capacity
  {
    var length := Bounds.SkewedLength(2 * error, windowSize);
    SegmentStamps(tcs, windowSize, capacity, m, n, from, length);
    SubsetSize(KeptStampsWithin(tcs, n, from, length), Bounds.StampsWithin(RunFrom(tcs, m), n - m, from, length));
    RunKeepsConfig(tcs, error, windowSize, capacity, m);
    Bounds.SkewBound(RunFrom(tcs, m), 2 * error, windowSize, capacity, from, n - m);
  }

  /** With callers within `error` of the store's clock, expiry included, every interval as long as
      the window shortened by a skew of twice the error holds at most `capacity` distinct admission
      times: an interval that short never reaches across an expiry. */
  lemma {:induction false} KeptSkewBound(tcs: seq<TimedCall>, error: int, windowSize: int, capacity: int, from: int,
                                         n: nat)
    requires 0 <= 2 * error < 1000 * windowSize && ClocksWithin(tcs, error) && capacity >= 0
    requires OneConfig(tcs, windowSize, capacity) && n <= |tcs|
    ensures |KeptStampsWithin(tcs, n, from, Bounds.SkewedLength(2 * error, windowSize))| <= capacity
    decreases n
  {
    var length := Bounds.SkewedLength(2 * error, windowSize);
    if n > 0 {
      var m := SegmentStart(tcs, windowSize, n - 1);
      if i: nat :| i < m && KeptStampWithin(tcs, i, from, length) {
        forall k: nat | m <= k < n ensures !KeptStampWithin(tcs, k, from, length) {
          FarApart(tcs, error, windowSize, i, m, k);
        }
        OlderStampsOnly(tcs, m, n, from, length);
        KeptSkewBound(tcs, error, windowSize, capacity, from, m);
      } else {
        SegmentBound(tcs, error, windowSize, capacity, from, m, n);
      }
    }
  }

  // ---- A limit of one ----

  /** How far apart a limit of one keeps admissions: a window, unless an expiry under clock error
      comes sooner. */
  function Gap(error: int, windowSize: int): int {
    Min(1000 * windowSize, 1000 * (windowSize + WINDOW_SLACK) + 1 - 2 * error)
  }

  /** A call with a limit of one turns a set with one member into another. */
  lemma {:induction false} MemberStep(s: Option<Kept>, tc: TimedCall, clock: int, member: int)
    requires tc.call.windowSize > 0 && tc.call.capacity == 1 && Live(s, tc.clock) == {member}
    requires clock <= tc.clock + 1000 * (tc.call.windowSize + WINDOW_SLACK)
    ensures Live(KeptNext(s, tc), clock) == {Bounds.LaterOf(member, tc.call)}
    ensures Bounds.LaterOf(member, tc.call) >= member
  {
    StillThere(s, tc, clock);
    Bounds.OneMemberNext(Live(s, tc.clock), member, tc.call);
  }

  lemma {:induction false} MemberAdded(s: Option<Kept>, tc: TimedCall, clock: int)
    requires tc.call.windowSize > 0 && tc.call.capacity == 1 && Admits(Live(s, tc.clock), tc.call)
    requires clock <= tc.clock + 1000 * (tc.call.windowSize + WINDOW_SLACK)
    ensures Live(KeptNext(s, tc), clock) == {tc.call.now}
  {
    StillThere(s, tc, clock);
    Bounds.FirstMember(Live(s, tc.clock), tc.call);
  }

  lemma {:induction false} SinceFirst(tcs: seq<TimedCall>, windowSize: int, i: nat)
    requires windowSize > 0 && OneConfig(tcs, windowSize, 1) && i + 1 < |tcs| && !StartsAfresh(tcs, windowSize, i + 1)
    requires KeptAdmitted(tcs, i)
    ensures Live(KeptAfter(tcs, i + 1), tcs[i + 1].clock) == {tcs[i].call.now}
  {
    MemberAdded(KeptAfter(tcs, i), tcs[i], tcs[i + 1].clock);
  }

  lemma {:induction false} SinceStep(tcs: seq<TimedCall>, windowSize: int, k: nat, before: int) returns (s: int)
    requires windowSize > 0 && OneConfig(tcs, windowSize, 1) && 0 < k < |tcs| && !StartsAfresh(tcs, windowSize, k)
    requires Live(KeptAfter(tcs, k - 1), tcs[k - 1].clock) == {before}
    ensures Live(KeptAfter(tcs, k), tcs[k].clock) == {s} && s >= before
  {
    s := Bounds.LaterOf(before, tcs[k - 1].call);
    MemberStep(KeptAfter(tcs, k - 1), tcs[k - 1], tcs[k].clock, before);
  }

  /** An admission leaves one member, itself or a later time, until the key expires. */
  lemma {:induction false} OneMemberSince(tcs: seq<TimedCall>, windowSize: int, m: nat, i: nat, k: nat) returns (s: int)
    requires windowSize > 0 && OneConfig(tcs, windowSize, 1) && OneSegment(tcs, windowSize, m, k) && m <= i < k
    requires KeptAdmitted(tcs, i)
    ensures Live(KeptAfter(tcs, k), tcs[k].clock) == {s} && s >= tcs[i].call.now
    decreases k
  {
    if i == k - 1 {
      s := tcs[i].call.now;
      SinceFirst(tcs, windowSize, i);
    } else {
      var before := OneMemberSince(tcs, windowSize, m, i, k - 1);
      s := SinceStep(tcs, windowSize, k, before);
    }
  }

  lemma {:induction false} NextIsApart(members: set<int>, c: Call, s: int)
    requires c.capacity == 1 && members == {s} && Admits(members, c)
    ensures c.now >= s + 1000 * c.windowSize
  {
    Bounds.OneMemberNext(members, s, c);
  }

  lemma {:induction false} KeptOneAtATime(tcs: seq<TimedCall>, error: int, windowSize: int, i: nat, k: nat)
    requires windowSize > 0 && ClocksWithin(tcs, error) && OneConfig(tcs, windowSize, 1)
    requires i < k < |tcs| && KeptAdmitted(tcs, i) && KeptAdmitted(tcs, k)
    ensures tcs[k].call.now >= tcs[i].call.now + Gap(error, windowSize)
  {
    var m := SegmentStart(tcs, windowSize, k);
    if i < m {
      FarApart(tcs, error, windowSize, i, m, k);
    } else {
      var s := OneMemberSince(tcs, windowSize, m, i, k);
      NextIsApart(Live(KeptAfter(tcs, k), tcs[k].clock), tcs[k].call, s);
    }
  }

  predicate ApartBy(tcs: seq<TimedCall>, gap: int, i: nat, k: nat)
    requires i < k < |tcs|
  {
    KeptAdmitted(tcs, i) && KeptAdmitted(tcs, k) ==> tcs[k].call.now >= tcs[i].call.now + gap
  }

  /** On every run with a limit of one, any two admissions are at least `gap` milliseconds apart. */
  ghost predicate KeepsApart(gap: int, error: int, windowSize: int) {
    forall tcs: seq<TimedCall>, i: nat, k: nat ::
      ClocksWithin(tcs, error) && OneConfig(tcs, windowSize, 1) && i < k < |tcs| ==> ApartBy(tcs, gap, i, k)
  }

  /** Two calls of a limit of one that are both admitted, as close as can be: the second comes when
      the first is a window old, or just after the key has expired, the first caller as far ahead of
      the store as allowed and the second as far behind. */
  function Closest(error: int, windowSize: int): seq<TimedCall> {
    var next := 1000 * windowSize;
    var late := 1000 * (windowSize + WINDOW_SLACK) + 1;
    if error <= 30000
    then [TimedCall(Call(0, 1, windowSize), 0), TimedCall(Call(next, 1, windowSize), next)]
    else [TimedCall(Call(error, 1, windowSize), 0), TimedCall(Call(late - error, 1, windowSize), late)]
  }

  lemma {:induction false} ClosestAdmitted(error: int, windowSize: int)
    requires windowSize > 0 && error >= 0
    ensures var tcs := Closest(error, windowSize);
            && ClocksWithin(tcs, error) && OneConfig(tcs, windowSize, 1)
            && KeptAdmitted(tcs, 0) && KeptAdmitted(tcs, 1)
            && tcs[1].call.now == tcs[0].call.now + Gap(error, windowSize)
  {
    var tcs := Closest(error, windowSize);
    assert Pruned({}, WindowStart(tcs[0].call)) == {} && Pruned({}, WindowStart(tcs[1].call)) == {};
    assert KeptAfter(tcs, 1) == Some(Kept({tcs[0].call.now}, 1000 * (windowSize + WINDOW_SLACK)));
    assert error <= 30000 ==> Pruned({0}, WindowStart(tcs[1].call)) == {};
  }

  /** A limit of one keeps admissions exactly that far apart on every run. */
  lemma {:induction false} GapIsSharp(gap: int, error: int, windowSize: int)
    requires windowSize > 0 && error >= 0
    ensures KeepsApart(gap, error, windowSize) <==> gap <= Gap(error, windowSize)
  {
    if gap <= Gap(error, windowSize) {
      forall tcs: seq<TimedCall>, i: nat, k: nat
        | ClocksWithin(tcs, error) && OneConfig(tcs, windowSize, 1) && i < k < |tcs|
        ensures ApartBy(tcs, gap, i, k)
      {
        if KeptAdmitted(tcs, i) && KeptAdmitted(tcs, k) {
          KeptOneAtATime(tcs, error, windowSize, i, k);
        }
      }
    } else {
      ClosestAdmitted(error, windowSize);
      assert !ApartBy(Closest(error, windowSize), gap, 0, 1);
    }
  }

  /** In particular a full window, exactly when no caller is more than thirty seconds from the
      store's clock. */
  lemma {:induction false} FullWindowApartIff(error: int, windowSize: int)
    requires windowSize > 0 && error >= 0
    ensures KeepsApart(1000 * windowSize, error, windowSize) <==> error <= 30000
  {
    GapIsSharp(1000 * windowSize, error, windowSize);
  }

  // ---- How long an interval stays limited ----

  ghost predicate KeptLimited(tcs: seq<TimedCall>, capacity: int, length: int) {
    forall from :: |KeptStampsWithin(tcs, |tcs|, from, length)| <= capacity
  }

  ghost predicate LengthIsSafe(length: int, error: int, windowSize: int, capacity: int) {
    forall tcs: seq<TimedCall> ::
      ClocksWithin(tcs, error) && OneConfig(tcs, windowSize, capacity) ==> KeptLimited(tcs, capacity, length)
  }

  /** The longest interval that stays limited. No interval holds more distinct milliseconds than its
      length. */
  function SafeLength(error: int, windowSize: int, capacity: int): int {
    Max(capacity, if capacity == 1 then Gap(error, windowSize) else Bounds.SkewedLength(2 * error, windowSize))
  }

  lemma {:induction false} StampedAt(tcs: seq<TimedCall>, from: int, length: int, s: int) returns (k: nat)
    requires s in KeptStampsWithin(tcs, |tcs|, from, length)
    ensures k < |tcs| && KeptAdmitted(tcs, k) && tcs[k].call.now == s && from <= s < from + length
  {
    k :| k < |tcs| && KeptStampWithin(tcs, k, from, length) && tcs[k].call.now == s;
  }

  lemma {:induction false} SameStamp(tcs: seq<TimedCall>, error: int, windowSize: int, from: int, s: int, t: int)
    requires windowSize > 0 && ClocksWithin(tcs, error) && OneConfig(tcs, windowSize, 1)
    requires s in KeptStampsWithin(tcs, |tcs|, from, Gap(error, windowSize))
    requires t in KeptStampsWithin(tcs, |tcs|, from, Gap(error, windowSize))
    ensures s == t
  {
    var i := StampedAt(tcs, from, Gap(error, windowSize), s);
    var k := StampedAt(tcs, from, Gap(error, windowSize), t);
    if i < k {
      KeptOneAtATime(tcs, error, windowSize, i, k);
    } else if k < i {
      KeptOneAtATime(tcs, error, windowSize, k, i);
    }
  }

  lemma {:induction false} KeptOneStamp(tcs: seq<TimedCall>, error: int, windowSize: int, from: int)
    requires windowSize > 0 && ClocksWithin(tcs, error) && OneConfig(tcs, windowSize, 1)
    ensures |KeptStampsWithin(tcs, |tcs|, from, Gap(error, windowSize))| <= 1
  {
    var stamps := KeptStampsWithin(tcs, |tcs|, from, Gap(error, windowSize));
    forall s, t | s in stamps && t in stamps ensures s == t {
      SameStamp(tcs, error, windowSize, from, s, t);
    }
    AllTheSame(stamps);
  }

  lemma {:induction false} SafeIsLimited(tcs: seq<TimedCall>, error: int, windowSize: int, capacity: int, from: int)
    requires 0 <= 2 * error < 1000 * windowSize && capacity > 0
    requires ClocksWithin(tcs, error) && OneConfig(tcs, windowSize, capacity)
    ensures |KeptStampsWithin(tcs, |tcs|, from, SafeLength(error, windowSize, capacity))| <= capacity
  {
    if SafeLength(error, windowSize, capacity) == capacity {
      Bounds.FewMilliseconds(KeptStampsWithin(tcs, |tcs|, from, capacity), from, capacity);
    } else if capacity == 1 {
      KeptOneStamp(tcs, error, windowSize, from);
    } else {
      KeptSkewBound(tcs, error, windowSize, capacity, from, |tcs|);
    }
  }

  lemma {:induction false} KeptStampsGrow(tcs: seq<TimedCall>, from: int, length: int, longer: int)
    requires length <= longer
    ensures |KeptStampsWithin(tcs, |tcs|, from, length)| <= |KeptStampsWithin(tcs, |tcs|, from, longer)|
  {
    assert forall k: nat ::
        k < |tcs| && KeptStampWithin(tcs, k, from, length) ==> KeptStampWithin(tcs, k, from, longer);
    SubsetSize(KeptStampsWithin(tcs, |tcs|, from, length), KeptStampsWithin(tcs, |tcs|, from, longer));
  }

  /** The store's clock for call `k` of `Bounds.OverfullRun`: the callers' time, except that the fast
      caller and the slow one are that far ahead of it and behind it. */
  function OverfullClock(error: int, windowSize: int, capacity: nat, k: nat, now: int): int {
    var meeting := 1000 * windowSize + 1 - error;
    if capacity >= 1000 * windowSize || capacity == 1 || error == 0 then now
    else if k < capacity then Min(now, meeting) else meeting
  }

  function Overfull(error: int, windowSize: int, capacity: nat): (tcs: seq<TimedCall>) {
    var calls := Bounds.OverfullRun(2 * error, windowSize, capacity);
    seq(|calls|, k requires 0 <= k < |calls| =>
      TimedCall(calls[k], OverfullClock(error, windowSize, capacity, k, calls[k].now)))
  }

  lemma {:induction false} OverfullCall(error: int, windowSize: int, capacity: nat, k: nat)
    requires 0 <= 2 * error < 1000 * windowSize && capacity > 0 && k < |Overfull(error, windowSize, capacity)|
    ensures var tc := Overfull(error, windowSize, capacity)[k];
            && tc.call.windowSize == windowSize && tc.call.capacity == capacity
            && -error <= tc.call.now - tc.clock <= error
  {
  }

  lemma {:induction false} OverfullStep(error: int, windowSize: int, capacity: nat, j: nat, k: nat)
    requires 0 <= 2 * error < 1000 * windowSize && capacity > 0 && j <= k < |Overfull(error, windowSize, capacity)|
    ensures var tcs := Overfull(error, windowSize, capacity);
            && tcs[j].clock <= tcs[k].clock
            && (k == j + 1 ==> tcs[k].clock <= tcs[j].clock + 1000 * windowSize + 1)
  {
  }

  lemma {:induction false} OverfullClocks(error: int, windowSize: int, capacity: nat)
    requires 0 <= 2 * error < 1000 * windowSize && capacity > 0
    ensures var tcs := Overfull(error, windowSize, capacity);
            && ClocksWithin(tcs, error) && OneConfig(tcs, windowSize, capacity)
            && Calls(tcs) == Bounds.OverfullRun(2 * error, windowSize, capacity)
  {
    var tcs := Overfull(error, windowSize, capacity);
    forall k: nat | k < |tcs|
      ensures tcs[k].call.windowSize == windowSize && tcs[k].call.capacity == capacity
      ensures -error <= tcs[k].call.now - tcs[k].clock <= error
    {
      OverfullCall(error, windowSize, capacity, k);
    }
    forall j: nat, k: nat | j <= k < |tcs| ensures tcs[j].clock <= tcs[k].clock {
      OverfullStep(error, windowSize, capacity, j, k);
    }
  }

  lemma {:induction false} OverfullSegment(error: int, windowSize: int, capacity: nat, k: nat)
    requires 0 <= 2 * error < 1000 * windowSize && capacity > 0 && k < |Overfull(error, windowSize, capacity)|
    ensures OneSegment(Overfull(error, windowSize, capacity), windowSize, 0, k)
  {
    if k > 0 {
      OverfullSegment(error, windowSize, capacity, k - 1);
      OverfullStep(error, windowSize, capacity, k - 1, k);
    }
  }

  lemma {:induction false} OverfullAdmitted(error: int, windowSize: int, capacity: nat, k: nat)
    requires 0 <= 2 * error < 1000 * windowSize && capacity > 0 && k < |Overfull(error, windowSize, capacity)|
    ensures KeptAdmitted(Overfull(error, windowSize, capacity), k)
  {
    var tcs := Overfull(error, windowSize, capacity);
    OverfullClocks(error, windowSize, capacity);
    OverfullSegment(error, windowSize, capacity, k);
    SegmentDecides(tcs, windowSize, capacity, 0, k, k);
    assert RunFrom(tcs, 0) == Calls(tcs);
    Bounds.OverfullRunAdmitted(2 * error, windowSize, capacity);
  }

  lemma {:induction false} AllStamps(tcs: seq<TimedCall>, from: int, length: int)
    requires forall k: nat :: k < |tcs| ==> KeptAdmitted(tcs, k)
    ensures Bounds.StampsWithin(Calls(tcs), |tcs|, from, length) <= KeptStampsWithin(tcs, |tcs|, from, length)
  {
    forall s | s in Bounds.StampsWithin(Calls(tcs), |tcs|, from, length)
      ensures s in KeptStampsWithin(tcs, |tcs|, from, length)
    {
      var k: nat :| k < |tcs| && from <= Calls(tcs)[k].now < from + length && Calls(tcs)[k].now == s;
      assert KeptStampWithin(tcs, k, from, length);
    }
  }

  lemma {:induction false} OverfullRunStamps(error: int, windowSize: int, capacity: nat, length: int)
    requires 0 <= 2 * error < 1000 * windowSize && capacity > 1 && length > SafeLength(error, windowSize, capacity)
    ensures var calls := Bounds.OverfullRun(2 * error, windowSize, capacity);
            |Bounds.StampsWithin(calls, |calls|, 0, length)| > capacity
  {
    Bounds.OverfullRunAdmitted(2 * error, windowSize, capacity);
    Bounds.OverfullTimes(2 * error, windowSize, capacity);
    Bounds.OverfullStamps(Bounds.OverfullRun(2 * error, windowSize, capacity), capacity, length);
  }

  lemma {:induction false} OverfullOverflows(error: int, windowSize: int, capacity: nat, length: int)
    requires 0 <= 2 * error < 1000 * windowSize && capacity > 1 && length > SafeLength(error, windowSize, capacity)
    ensures !KeptLimited(Overfull(error, windowSize, capacity), capacity, length)
  {
    var tcs := Overfull(error, windowSize, capacity);
    forall k: nat | k < |tcs| ensures KeptAdmitted(tcs, k) {
      OverfullAdmitted(error, windowSize, capacity, k);
    }
    AllStamps(tcs, 0, length);
    SubsetSize(Bounds.StampsWithin(Calls(tcs), |tcs|, 0, length), KeptStampsWithin(tcs, |tcs|, 0, length));
    OverfullClocks(error, windowSize, capacity);
    OverfullRunStamps(error, windowSize, capacity, length);
  }

  lemma {:induction false} ClosestOverflows(error: int, windowSize: int, length: int)
    requires windowSize > 0 && error >= 0 && length > Gap(error, windowSize) > 0
    ensures !KeptLimited(Closest(error, windowSize), 1, length)
  {
    var tcs := Closest(error, windowSize);
    ClosestAdmitted(error, windowSize);
    var first, second := tcs[0].call.now, tcs[1].call.now;
    var stamps := KeptStampsWithin(tcs, |tcs|, first, length);
    assert KeptStampWithin(tcs, 0, first, length) && KeptStampWithin(tcs, 1, first, length);
    SubsetSize({first, second}, stamps);
    assert |{first, second}| == 2;
  }

  /** How long an interval may be and still hold at most `capacity` distinct admission times, on
      every run of the window as the service keeps it with callers within `error` of the store's
      clock: exactly up to the safe length, for every capacity. */
  lemma {:induction false} SafeLengthIsSharp(length: int, error: int, windowSize: int, capacity: int)
    requires 0 <= 2 * error < 1000 * windowSize && capacity > 0
    ensures LengthIsSafe(length, error, windowSize, capacity) <==> length <= SafeLength(error, windowSize, capacity)
  {
    if length <= SafeLength(error, windowSize, capacity) {
      forall tcs: seq<TimedCall>, from | ClocksWithin(tcs, error) && OneConfig(tcs, windowSize, capacity)
        ensures |KeptStampsWithin(tcs, |tcs|, from, length)| <= capacity
      {
        SafeIsLimited(tcs, error, windowSize, capacity, from);
        KeptStampsGrow(tcs, from, length, SafeLength(error, windowSize, capacity));
      }
    } else if capacity == 1 {
      ClosestAdmitted(error, windowSize);
      ClosestOverflows(error, windowSize, length);
    } else {
      OverfullClocks(error, windowSize, capacity);
      OverfullOverflows(error, windowSize, capacity, length);
    }
  }

  // ---- The limit on requests ----

  /** The limit as documented, of the window as the service keeps it: on every run of one
      configuration with ordered callers within `error` of the store's clock, every stretch shorter
      than the window admits at most `capacity` requests. */
  ghost predicate LimitsRequests(capacity: int, windowSize: int, error: int) {
    forall tcs: seq<TimedCall> ::
      ClocksWithin(tcs, error) && Ordered(Calls(tcs)) && OneConfig(tcs, windowSize, capacity) ==>
        Bounds.Conforms(Calls(tcs), KeptDecisions(tcs), capacity, windowSize)
  }

  lemma {:induction false} OrderedTimes(tcs: seq<TimedCall>, i: nat, j: nat)
    requires Ordered(Calls(tcs)) && i <= j < |tcs|
    ensures tcs[i].call.now <= tcs[j].call.now
  {
    assert Calls(tcs)[i].now <= Calls(tcs)[j].now;
  }

  lemma {:induction false} TwoAdmitted(tcs: seq<TimedCall>, i: nat, j: nat) returns (p: nat, q: nat)
    requires i <= j < |tcs| && Count(KeptDecisions(tcs), i, j + 1) >= 2
    ensures i <= p < q <= j && KeptAdmitted(tcs, p) && KeptAdmitted(tcs, q)
  {
    p, q := TwoCounted(KeptDecisions(tcs), i, j + 1);
  }

  lemma {:induction false} KeptTwoNeedAWindow(tcs: seq<TimedCall>, error: int, windowSize: int, i: nat, j: nat)
    requires windowSize > 0 && 0 <= error <= 30000 && ClocksWithin(tcs, error) && Ordered(Calls(tcs))
    requires OneConfig(tcs, windowSize, 1) && i <= j < |tcs| && Count(KeptDecisions(tcs), i, j + 1) >= 2
    ensures tcs[j].call.now - tcs[i].call.now >= 1000 * windowSize
  {
    var p, q := TwoAdmitted(tcs, i, j);
    KeptOneAtATime(tcs, error, windowSize, p, q);
    OrderedTimes(tcs, i, p);
    OrderedTimes(tcs, q, j);
  }

  /** All at one instant, on the store's clock too. */
  function AtOnce(n: nat, capacity: int, windowSize: int): (tcs: seq<TimedCall>)
    ensures |tcs| == n
    ensures forall k :: 0 <= k < n ==> tcs[k] == TimedCall(Call(0, capacity, windowSize), 0)
  {
    seq(n, k => TimedCall(Call(0, capacity, windowSize), 0))
  }

  lemma {:induction false} AtOnceBreaksLimit(capacity: int, windowSize: int)
    requires capacity >= 2 && windowSize > 0
    ensures var tcs := AtOnce(capacity + 1, capacity, windowSize);
            !Bounds.AtMost(KeptDecisions(tcs), 0, capacity, capacity)
  {
    var tcs := AtOnce(capacity + 1, capacity, windowSize);
    assert Calls(tcs) == Bounds.SameInstant(capacity + 1, capacity, windowSize);
    forall k: nat | k < |tcs| ensures KeptDecisions(tcs)[k] {
      SlackHidesExpiry(tcs, 0, windowSize, k);
      Bounds.SameInstantUnlimited(capacity + 1, capacity, windowSize, k);
    }
    CountAll(KeptDecisions(tcs), capacity + 1);
  }

  lemma {:induction false} ClosestBreaksLimit(windowSize: int)
    requires windowSize > 0
    ensures var tcs := Closest(30001, windowSize);
            Ordered(Calls(tcs)) && !Bounds.Conforms(Calls(tcs), KeptDecisions(tcs), 1, windowSize)
  {
    var tcs := Closest(30001, windowSize);
    ClosestAdmitted(30001, windowSize);
    assert KeptDecisions(tcs)[0] && KeptDecisions(tcs)[1];
    CountAll(KeptDecisions(tcs), 2);
    assert !Bounds.AtMost(KeptDecisions(tcs), 0, 1, 1);
  }

  /** The window limits requests, and not just their distinct times, exactly when its limit is one
      and no caller is more than thirty seconds from the store's clock. */
  lemma {:induction false} LimitsRequestsIff(capacity: int, windowSize: int, error: int)
    requires capacity > 0 && windowSize > 0 && error >= 0
    ensures LimitsRequests(capacity, windowSize, error) <==> capacity == 1 && error <= 30000
  {
    if capacity > 1 {
      var tcs := AtOnce(capacity + 1, capacity, windowSize);
      AtOnceBreaksLimit(capacity, windowSize);
      assert !Bounds.Conforms(Calls(tcs), KeptDecisions(tcs), capacity, windowSize);
      assert ClocksWithin(tcs, error) && Ordered(Calls(tcs)) && OneConfig(tcs, windowSize, capacity);
    } else if error > 30000 {
      ClosestAdmitted(30001, windowSize);
      ClosestBreaksLimit(windowSize);
      assert ClocksWithin(Closest(30001, windowSize), error);
    } else {
      forall tcs: seq<TimedCall>
        | ClocksWithin(tcs, error) && Ordered(Calls(tcs)) && OneConfig(tcs, windowSize, capacity)
        ensures Bounds.Conforms(Calls(tcs), KeptDecisions(tcs), capacity, windowSize)
      {
        forall i: nat, j: nat | i <= j < |tcs| && Calls(tcs)[j].now - Calls(tcs)[i].now < 1000 * windowSize
          ensures Bounds.AtMost(KeptDecisions(tcs), i, j, capacity)
        {
          if Count(KeptDecisions(tcs), i, j + 1) >= 2 {
            KeptTwoNeedAWindow(tcs, error, windowSize, i, j);
          }
        }
      }
    }
  }
}
