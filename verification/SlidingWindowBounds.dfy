/** What a sliding window guarantees over whole runs, on a key that never expires. */
module SlidingWindowBounds {
  import opened Prelude
  import opened SlidingWindow

  // ---- The pruned set and the history ----

  /** Call `k` was admitted and none of the calls after it and before `n` pruned its time. */
  predicate Survives(calls: seq<Call>, k: nat, n: nat)
    requires k < n <= |calls|
  {
    Admitted(calls, k) && forall j :: k < j < n ==> WindowStart(calls[j]) < calls[k].now
  }

  lemma {:induction false} SurvivorIsMember(calls: seq<Call>, k: nat, n: nat)
    requires k < n <= |calls| && Survives(calls, k, n)
    ensures calls[k].now in After(calls, n)
    decreases n
  {
    if k < n - 1 {
      SurvivorIsMember(calls, k, n - 1);
    }
  }

  lemma {:induction false} MemberSurvived(calls: seq<Call>, s: int, n: nat) returns (k: nat)
    requires n <= |calls| && s in After(calls, n)
    ensures k < n && Survives(calls, k, n) && calls[k].now == s
  {
    if Admitted(calls, n - 1) && calls[n - 1].now == s {
      k := n - 1;
    } else {
      k := MemberSurvived(calls, s, n - 1);
    }
  }

  /** Exactly which times the set holds, for any clock values and any configurations. */
  lemma {:induction false} MembersAreSurvivors(calls: seq<Call>, s: int, n: nat)
    requires n <= |calls|
    ensures s in After(calls, n) <==>
            exists k: nat :: k < n && Survives(calls, k, n) && calls[k].now == s
  {
    if s in After(calls, n) {
      var k := MemberSurvived(calls, s, n);
    }
    forall k: nat | k < n && Survives(calls, k, n) ensures calls[k].now in After(calls, n) {
      SurvivorIsMember(calls, k, n);
    }
  }

  /** The distinct admission times later than `after`, over the whole history before call `n`. */
  function Stamps(calls: seq<Call>, n: nat, after: int): set<int>
    requires n <= |calls|
  {
    set k: nat | k < n && Admitted(calls, k) && calls[k].now > after :: calls[k].now
  }

  /** The number of admitted requests with a time later than `after`. */
  function Requests(calls: seq<Call>, n: nat, after: int): nat
    requires n <= |calls|
  {
    if n == 0 then 0
    else Requests(calls, n - 1, after)
         + (if Admitted(calls, n - 1) && calls[n - 1].now > after then 1 else 0)
  }

  /** The pruned set refines the full history: with ordered time and one window size, what the
      script counts at call `n` is the set of distinct admission times of the whole history in the
      half-open window ending at that call. */
  lemma {:induction false} PrunedSetIsHistory(calls: seq<Call>, windowSize: int, n: nat)
    requires Ordered(calls) && FixedWindow(calls, windowSize) && n < |calls|
    ensures Pruned(After(calls, n), WindowStart(calls[n])) == Stamps(calls, n, WindowStart(calls[n]))
    ensures Admitted(calls, n) <==> |Stamps(calls, n, WindowStart(calls[n]))| < calls[n].capacity
    ensures forall s :: s in Stamps(calls, n, WindowStart(calls[n])) ==>
              calls[n].now - 1000 * windowSize < s <= calls[n].now
  {
    var start := WindowStart(calls[n]);
    forall s | s in Stamps(calls, n, start) ensures s in Pruned(After(calls, n), start) {
      var k: nat :| k < n && Admitted(calls, k) && calls[k].now > start && calls[k].now == s;
      SurvivorIsMember(calls, k, n);
    }
    forall s | s in Pruned(After(calls, n), start) ensures s in Stamps(calls, n, start) {
      var k := MemberSurvived(calls, s, n);
    }
    assert Pruned(After(calls, n), start) == Stamps(calls, n, start);
  }

  predicate DistinctStamps(calls: seq<Call>, n: nat, after: int)
    requires n <= |calls|
  {
    forall i: nat, j: nat :: i < j < n && Admitted(calls, i) && Admitted(calls, j) && calls[i].now > after ==>
      calls[i].now != calls[j].now
  }

  lemma {:induction false} StampsStep(calls: seq<Call>, n: nat, after: int)
    requires 0 < n <= |calls|
    ensures Stamps(calls, n, after) ==
            if Admitted(calls, n - 1) && calls[n - 1].now > after
            then Stamps(calls, n - 1, after) + {calls[n - 1].now} else Stamps(calls, n - 1, after)
  {
  }

  lemma {:induction false} StampedAt(calls: seq<Call>, n: nat, after: int, s: int) returns (k: nat)
    requires n <= |calls| && s in Stamps(calls, n, after)
    ensures k < n && Admitted(calls, k) && calls[k].now == s > after
  {
    k :| k < n && Admitted(calls, k) && calls[k].now > after && calls[k].now == s;
  }

  lemma {:induction false} DistinctStep(calls: seq<Call>, n: nat, after: int)
    requires 0 < n <= |calls|
    ensures DistinctStamps(calls, n, after) <==>
            DistinctStamps(calls, n - 1, after) &&
            !(Admitted(calls, n - 1) && calls[n - 1].now in Stamps(calls, n - 1, after))
  {
    if Admitted(calls, n - 1) && calls[n - 1].now in Stamps(calls, n - 1, after) {
      var i := StampedAt(calls, n - 1, after, calls[n - 1].now);
    }
  }

  /** The same, one call at a time: no counted call repeated an earlier counted time. */
  predicate NoneRepeated(calls: seq<Call>, n: nat, after: int)
    requires n <= |calls|
  {
    n == 0 ||
    (NoneRepeated(calls, n - 1, after)
     && !(Admitted(calls, n - 1) && calls[n - 1].now in Stamps(calls, n - 1, after)))
  }

  lemma {:induction false} NoneRepeatedIsDistinct(calls: seq<Call>, n: nat, after: int)
    requires n <= |calls|
    ensures NoneRepeated(calls, n, after) <==> DistinctStamps(calls, n, after)
  {
    if n > 0 {
      NoneRepeatedIsDistinct(calls, n - 1, after);
      DistinctStep(calls, n, after);
    }
  }

  lemma {:induction false} StampsCountStep(calls: seq<Call>, n: nat, after: int)
    requires 0 < n <= |calls|
    ensures var now := calls[n - 1].now;
            var counted := Admitted(calls, n - 1) && now > after;
            |Stamps(calls, n, after)| == |Stamps(calls, n - 1, after)|
                                         + (if counted && now !in Stamps(calls, n - 1, after) then 1 else 0)
  {
    StampsStep(calls, n, after);
  }

  lemma {:induction false} CountIsRequestsIffNoneRepeated(calls: seq<Call>, n: nat, after: int)
    requires n <= |calls|
    ensures |Stamps(calls, n, after)| <= Requests(calls, n, after)
    ensures |Stamps(calls, n, after)| == Requests(calls, n, after) <==> NoneRepeated(calls, n, after)
  {
    if n == 0 {
      assert Stamps(calls, n, after) == {};
    } else {
      CountIsRequestsIffNoneRepeated(calls, n - 1, after);
      StampsCountStep(calls, n, after);
      StampsAreLater(calls, n - 1, after);
    }
  }

  lemma {:induction false} StampsAreLater(calls: seq<Call>, n: nat, after: int)
    requires n <= |calls|
    ensures forall s :: s in Stamps(calls, n, after) ==> s > after
  {
  }

  /** Requests of one millisecond share a member, so the count is the number of requests exactly
      when the counted requests have distinct times. */
  lemma {:induction false} CountIsRequestsIffDistinct(calls: seq<Call>, n: nat, after: int)
    requires n <= |calls|
    ensures |Stamps(calls, n, after)| <= Requests(calls, n, after)
    ensures |Stamps(calls, n, after)| == Requests(calls, n, after) <==> DistinctStamps(calls, n, after)
  {
    CountIsRequestsIffNoneRepeated(calls, n, after);
    NoneRepeatedIsDistinct(calls, n, after);
  }

  /** The script agrees with the plain request count, whatever the capacity, exactly when the
      requests it counts have distinct times. */
  lemma {:induction false} PlainCountIff(calls: seq<Call>, windowSize: int, n: nat)
    requires Ordered(calls) && FixedWindow(calls, windowSize) && n < |calls|
    ensures (forall capacity ::
               Admits(After(calls, n), Call(calls[n].now, capacity, windowSize))
               <==> Requests(calls, n, WindowStart(calls[n])) < capacity)
            <==> DistinctStamps(calls, n, WindowStart(calls[n]))
  {
    var start := WindowStart(calls[n]);
    PrunedSetIsHistory(calls, windowSize, n);
    CountIsRequestsIffDistinct(calls, n, start);
    var most := Call(calls[n].now, Requests(calls, n, start), windowSize);
    assert WindowStart(most) == start;
    assert Admits(After(calls, n), most) <==> |Stamps(calls, n, start)| < Requests(calls, n, start);
  }

  /** `n` calls in one millisecond. */
  function SameInstant(n: nat, capacity: int, windowSize: int): (calls: seq<Call>)
    ensures |calls| == n
    ensures forall k :: 0 <= k < n ==> calls[k] == Call(0, capacity, windowSize)
  {
    seq(n, k => Call(0, capacity, windowSize))
  }

  /** The documented limit on requests fails for requests of one millisecond: with a capacity of
      two or more every one of them is admitted. */
  lemma {:induction false} SameInstantUnlimited(n: nat, capacity: int, windowSize: int, m: nat)
    requires capacity >= 2 && windowSize > 0 && m <= n
    ensures After(SameInstant(n, capacity, windowSize), m) == (if m == 0 then {} else {0})
    ensures m < n ==> Admitted(SameInstant(n, capacity, windowSize), m)
    decreases m
  {
    if m > 0 {
      SameInstantUnlimited(n, capacity, windowSize, m - 1);
    }
    var calls := SameInstant(n, capacity, windowSize);
    if m > 0 {
      assert Pruned({0}, WindowStart(calls[m - 1])) <= {0};
      assert After(calls, m) == {0};
      assert Pruned({0}, -1000 * windowSize) == {0};
    }
  }

  // ---- Greedy optimality ----

  /** A selection that takes at most `capacity` requests from every stretch shorter than the
      window. */
  ghost predicate Conforms(calls: seq<Call>, sel: seq<bool>, capacity: int, windowSize: int)
    requires |sel| == |calls|
  {
    forall i: nat, j: nat :: i <= j < |calls| && calls[j].now - calls[i].now < 1000 * windowSize ==>
      AtMost(sel, i, j, capacity)
  }

  predicate AtMost(sel: seq<bool>, i: nat, j: nat, capacity: int)
    requires i <= j < |sel|
  {
    Count(sel, i, j + 1) <= capacity
  }

  predicate StrictlyOrdered(calls: seq<Call>) {
    forall i, j :: 0 <= i < j < |calls| ==> calls[i].now < calls[j].now
  }

  /** The first call at or before `n` that lies inside the window ending at `n`. */
  lemma {:induction false} FirstInWindow(calls: seq<Call>, n: nat, start: int) returns (i: nat)
    requires Ordered(calls) && n < |calls| && start < calls[n].now
    ensures i <= n && start < calls[i].now
    ensures forall k :: 0 <= k < i ==> calls[k].now <= start
    decreases n
  {
    if n > 0 && start < calls[n - 1].now {
      i := FirstInWindow(calls, n - 1, start);
    } else {
      i := n;
      assert n > 0 ==> forall k :: 0 <= k < n ==> calls[k].now <= calls[n - 1].now;
    }
  }

  lemma {:induction false} RequestsAreCount(calls: seq<Call>, i: nat, n: nat, start: int)
    requires Ordered(calls) && i <= n <= |calls|
    requires forall k :: 0 <= k < i ==> calls[k].now <= start
    requires forall k :: i <= k < n ==> calls[k].now > start
    ensures Requests(calls, n, start) == Count(Decisions(calls), i, n)
    decreases n
  {
    if n > i {
      RequestsAreCount(calls, i, n - 1, start);
    } else if n > 0 {
      RequestsAreCount(calls, i - 1, n - 1, start);
    }
  }

  lemma {:induction false} RefusalExplained(calls: seq<Call>, sel: seq<bool>, capacity: int, windowSize: int, n: nat)
    requires windowSize > 0 && Ordered(calls) && FixedWindow(calls, windowSize) && FixedCapacity(calls, capacity)
    requires |sel| == |calls| && Conforms(calls, sel, capacity, windowSize)
    requires n < |calls| && !Admitted(calls, n)
    ensures exists i: nat :: Explains(Decisions(calls), sel, i, n)
  {
    var start := WindowStart(calls[n]);
    var i := FirstInWindow(calls, n, start);
    PrunedSetIsHistory(calls, windowSize, n);
    CountIsRequestsIffDistinct(calls, n, start);
    RequestsAreCount(calls, i, n, start);
    assert AtMost(sel, i, n, capacity);
    assert Explains(Decisions(calls), sel, i, n);
  }

  /** The usual guarantee: with one configuration and distinct increasing times, every stretch
      shorter than the window admits at most `capacity` requests. */
  lemma {:induction false} StretchBound(calls: seq<Call>, capacity: int, windowSize: int, i: nat, j: nat)
    requires capacity >= 0 && windowSize > 0 && StrictlyOrdered(calls)
    requires FixedWindow(calls, windowSize) && FixedCapacity(calls, capacity)
    requires i <= j < |calls| && calls[j].now - calls[i].now < 1000 * windowSize
    ensures AtMost(Decisions(calls), i, j, capacity)
    decreases j
  {
    if Admitted(calls, j) {
      var start := WindowStart(calls[j]);
      var first := FirstInWindow(calls, j, start);
      assert first <= i;
      PrunedSetIsHistory(calls, windowSize, j);
      CountIsRequestsIffDistinct(calls, j, start);
      RequestsAreCount(calls, first, j, start);
      CountSplit(Decisions(calls), first, i, j);
    } else if i < j {
      StretchBound(calls, capacity, windowSize, i, j - 1);
    }
  }

  // ---- A limit of one ----

  /** What a set with one member becomes under a limit of one. */
  function LaterOf(s: int, c: Call): int {
    if s <= WindowStart(c) then c.now else s
  }

  lemma {:induction false} OneMemberNext(members: set<int>, s: int, c: Call)
    requires c.capacity == 1 && members == {s}
    ensures Admits(members, c) <==> s <= WindowStart(c)
    ensures Next(members, c) == {LaterOf(s, c)}
  {
    assert Pruned(members, WindowStart(c)) == if s <= WindowStart(c) then {} else {s};
  }

  lemma {:induction false} FirstMember(members: set<int>, c: Call)
    requires c.capacity == 1 && Admits(members, c)
    ensures Next(members, c) == {c.now}
  {
    assert Pruned(members, WindowStart(c)) == {};
  }

  lemma {:induction false} OneMemberStep(calls: seq<Call>, n: nat, s: int)
    requires 0 < n <= |calls| && calls[n - 1].capacity == 1 && After(calls, n - 1) == {s}
    ensures After(calls, n) == {LaterOf(s, calls[n - 1])}
  {
    OneMemberNext(After(calls, n - 1), s, calls[n - 1]);
  }

  lemma {:induction false} LaterIsLater(s: int, c: Call)
    requires c.windowSize > 0
    ensures LaterOf(s, c) >= s
  {
  }

  /** With a limit of one the set holds exactly the latest admission time, for any clocks. */
  lemma {:induction false} OneMember(calls: seq<Call>, i: nat, n: nat) returns (s: int)
    requires FixedCapacity(calls, 1) && forall k :: 0 <= k < |calls| ==> calls[k].windowSize > 0
    requires i < n <= |calls| && Admitted(calls, i)
    ensures After(calls, n) == {s} && s >= calls[i].now
    decreases n
  {
    if i == n - 1 {
      s := calls[i].now;
      FirstMember(After(calls, i), calls[i]);
    } else {
      var before := OneMember(calls, i, n - 1);
      s := LaterOf(before, calls[n - 1]);
      OneMemberStep(calls, n, before);
      LaterIsLater(before, calls[n - 1]);
    }
  }

  /** With a limit of one any two admissions are a full window apart, whatever the clocks do. */
  lemma {:induction false} OneAtATime(calls: seq<Call>, windowSize: int, i: nat, k: nat)
    requires windowSize > 0 && FixedWindow(calls, windowSize) && FixedCapacity(calls, 1)
    requires i < k < |calls| && Admitted(calls, i) && Admitted(calls, k)
    ensures calls[k].now >= calls[i].now + 1000 * windowSize
  {
    var s := OneMember(calls, i, k);
    OneMemberNext(After(calls, k), s, calls[k]);
  }

  lemma {:induction false} TwoAdmitted(calls: seq<Call>, i: nat, j: nat) returns (p: nat, q: nat)
    requires i <= j < |calls| && Count(Decisions(calls), i, j + 1) >= 2
    ensures i <= p < q <= j && Admitted(calls, p) && Admitted(calls, q)
  {
    p, q := TwoCounted(Decisions(calls), i, j + 1);
  }

  lemma {:induction false} TwoNeedAWindow(calls: seq<Call>, windowSize: int, i: nat, j: nat)
    requires windowSize > 0 && Ordered(calls) && FixedWindow(calls, windowSize) && FixedCapacity(calls, 1)
    requires i <= j < |calls| && Count(Decisions(calls), i, j + 1) >= 2
    ensures calls[j].now - calls[i].now >= 1000 * windowSize
  {
    var p, q := TwoAdmitted(calls, i, j);
    OneAtATime(calls, windowSize, p, q);
  }

  // ---- Optimality ----

  /** No selection that keeps the limit is ahead of the decisions in any prefix, and with distinct
      times, or a limit of one, they keep it themselves. */
  lemma {:induction false} GreedyOptimal(calls: seq<Call>, sel: seq<bool>, capacity: int, windowSize: int)
    requires capacity >= 0 && windowSize > 0 && Ordered(calls)
    requires FixedWindow(calls, windowSize) && FixedCapacity(calls, capacity)
    requires |sel| == |calls| && Conforms(calls, sel, capacity, windowSize)
    ensures forall m: nat :: m <= |calls| ==> Count(sel, 0, m) <= Count(Decisions(calls), 0, m)
    ensures StrictlyOrdered(calls) || capacity == 1 ==> Conforms(calls, Decisions(calls), capacity, windowSize)
  {
    forall n: nat | n < |calls| && !Decisions(calls)[n]
      ensures exists i: nat :: Explains(Decisions(calls), sel, i, n)
    {
      RefusalExplained(calls, sel, capacity, windowSize, n);
    }
    forall m: nat | m <= |calls| ensures Count(sel, 0, m) <= Count(Decisions(calls), 0, m) {
      GreedyDominates(Decisions(calls), sel, m);
    }
    forall i: nat, j: nat | (StrictlyOrdered(calls) || capacity == 1) && i <= j < |calls|
                            && calls[j].now - calls[i].now < 1000 * windowSize
      ensures AtMost(Decisions(calls), i, j, capacity)
    {
      if capacity == 1 {
        if Count(Decisions(calls), i, j + 1) >= 2 {
          TwoNeedAWindow(calls, windowSize, i, j);
        }
      } else {
        StretchBound(calls, capacity, windowSize, i, j);
      }
    }
  }

  // ---- Clocks that disagree ----

  /** No caller's clock is more than `skew` milliseconds behind an earlier call's. */
  predicate SkewWithin(calls: seq<Call>, skew: int) {
    forall i, j :: 0 <= i < j < |calls| ==> calls[j].now >= calls[i].now - skew
  }

  lemma {:induction false} AdmissionFits(calls: seq<Call>, k: nat)
    requires k < |calls| && Admitted(calls, k)
    ensures |After(calls, k + 1)| <= calls[k].capacity
  {
  }

  lemma {:induction false} RecentIsMember(calls: seq<Call>, skew: int, smallest: int, i: nat, k: nat)
    requires skew >= 0 && SkewWithin(calls, skew) && i <= k < |calls| && Admitted(calls, i)
    requires forall j :: 0 <= j <= k ==> calls[j].windowSize >= smallest
    requires calls[i].now > calls[k].now + skew - 1000 * smallest
    ensures calls[i].now in After(calls, k + 1)
  {
    forall j | i < j < k + 1 ensures WindowStart(calls[j]) < calls[i].now {
      assert j == k || calls[k].now >= calls[j].now - skew;
    }
    SurvivorIsMember(calls, i, k + 1);
  }

  lemma {:induction false} RecentStampsAreMembers(calls: seq<Call>, skew: int, smallest: int, k: nat)
    requires skew >= 0 && SkewWithin(calls, skew) && k < |calls|
    requires forall j :: 0 <= j <= k ==> calls[j].windowSize >= smallest
    ensures Stamps(calls, k + 1, calls[k].now + skew - 1000 * smallest) <= After(calls, k + 1)
  {
    var start := calls[k].now + skew - 1000 * smallest;
    var stamps := Stamps(calls, k + 1, start);
    forall s | s in stamps ensures s in After(calls, k + 1) {
      var i := StampedAt(calls, k + 1, start, s);
      RecentIsMember(calls, skew, smallest, i, k);
    }
  }

  /** Mixed configurations and skewed clocks on one key: an admission by a call with capacity `C`
      leaves at most `C` distinct admission times later than its own time plus the skew minus the
      smallest window used. */
  lemma {:induction false} MixedConfigBound(calls: seq<Call>, skew: int, smallest: int, k: nat)
    requires skew >= 0 && SkewWithin(calls, skew) && k < |calls| && Admitted(calls, k)
    requires forall j :: 0 <= j <= k ==> calls[j].windowSize >= smallest
    ensures |Stamps(calls, k + 1, calls[k].now + skew - 1000 * smallest)| <= calls[k].capacity
  {
    RecentStampsAreMembers(calls, skew, smallest, k);
    AdmissionFits(calls, k);
    SubsetSize(Stamps(calls, k + 1, calls[k].now + skew - 1000 * smallest), After(calls, k + 1));
  }

  /** The distinct times, in the interval of `length` milliseconds from `from` on, at which one of
      the first `n` calls was admitted. */
  function StampsWithin(calls: seq<Call>, n: nat, from: int, length: int): set<int>
    requires n <= |calls|
  {
    set k: nat | k < n && Admitted(calls, k) && from <= calls[k].now < from + length :: calls[k].now
  }

  /** The window shortened by what a clock skew can take from it. */
  function SkewedLength(skew: int, windowSize: int): int {
    1000 * windowSize - Max(skew - 1, 0)
  }

  /** Members later than every window start in between stay. */
  lemma {:induction false} MembersStay(calls: seq<Call>, n: nat, m: nat, start: int)
    requires n <= m <= |calls|
    requires forall s :: s in After(calls, n) ==> s > start
    requires forall i :: n <= i < m ==> WindowStart(calls[i]) <= start
    ensures After(calls, n) <= After(calls, m)
    decreases m
  {
    if n < m {
      MembersStay(calls, n, m - 1, start);
    }
  }

  /** A call that a refusal at `j` already had no room for is refused too, as long as no window
      start has moved past that of the refusal. */
  lemma {:induction false} RefusalPersists(calls: seq<Call>, j: nat, k: nat, capacity: int)
    requires FixedCapacity(calls, capacity) && j < k < |calls| && !Admitted(calls, j)
    requires forall i :: j < i <= k ==> WindowStart(calls[i]) <= WindowStart(calls[j])
    ensures !Admitted(calls, k)
  {
    var full := After(calls, j + 1);
    MembersStay(calls, j + 1, k, WindowStart(calls[j]));
    assert full <= Pruned(After(calls, k), WindowStart(calls[k]));
    SubsetSize(full, Pruned(After(calls, k), WindowStart(calls[k])));
  }

  /** The one admission time of the interval that an admission at `k` may find pruned. */
  function EdgeOf(c: Call, skew: int): int {
    WindowStart(c) + skew
  }

  /** Everything else of the interval is still a member. */
  lemma {:induction false} OnlyEdgePruned(calls: seq<Call>, skew: int, windowSize: int, from: int, i: nat, k: nat)
    requires 0 <= skew < 1000 * windowSize && SkewWithin(calls, skew) && FixedWindow(calls, windowSize)
    requires i <= k < |calls| && Admitted(calls, i) && Admitted(calls, k)
    requires from <= calls[i].now && calls[k].now < from + SkewedLength(skew, windowSize)
    ensures calls[i].now in After(calls, k + 1) ||
            (skew > 0 && calls[i].now == EdgeOf(calls[k], skew) &&
             exists j: nat :: i < j < k && calls[j].now == calls[k].now + skew)
  {
    if j: nat :| i < j <= k && WindowStart(calls[j]) >= calls[i].now {
      assert j == k || calls[k].now >= calls[j].now - skew;
    } else {
      SurvivorIsMember(calls, i, k + 1);
    }
  }

  /** If the edge was pruned, the call that pruned it is a member outside the interval. */
  lemma {:induction false} PrunerIsMember(calls: seq<Call>, skew: int, windowSize: int, capacity: int, j: nat, k: nat)
    requires 0 < skew < 1000 * windowSize && SkewWithin(calls, skew)
    requires FixedWindow(calls, windowSize) && FixedCapacity(calls, capacity)
    requires j < k < |calls| && Admitted(calls, k) && calls[j].now == calls[k].now + skew
    ensures calls[j].now in After(calls, k + 1)
  {
    forall i | j < i <= k ensures WindowStart(calls[i]) <= WindowStart(calls[j]) {
      assert i == k || calls[k].now >= calls[i].now - skew;
    }
    if !Admitted(calls, j) {
      RefusalPersists(calls, j, k, capacity);
    }
    SurvivorIsMember(calls, j, k + 1);
  }

  lemma {:induction false} StampedWithin(calls: seq<Call>, n: nat, from: int, length: int, s: int) returns (k: nat)
    requires n <= |calls| && s in StampsWithin(calls, n, from, length)
    ensures k < n && Admitted(calls, k) && calls[k].now == s && from <= s < from + length
  {
    k :| k < n && Admitted(calls, k) && from <= calls[k].now < from + length && calls[k].now == s;
  }

  /** Of the interval only the edge may be missing from the set, and then its pruner, a time outside
      the interval, is in the set instead. */
  lemma {:induction false} MissingIsEdge(calls: seq<Call>, skew: int, windowSize: int, capacity: int, from: int,
                                         k: nat, s: int)
    returns (pruner: int)
    requires 0 <= skew < 1000 * windowSize && SkewWithin(calls, skew)
    requires FixedWindow(calls, windowSize) && FixedCapacity(calls, capacity)
    requires k < |calls| && Admitted(calls, k)
    requires from <= calls[k].now < from + SkewedLength(skew, windowSize)
    requires s in StampsWithin(calls, k + 1, from, SkewedLength(skew, windowSize)) && s !in After(calls, k + 1)
    ensures s == EdgeOf(calls[k], skew)
    ensures pruner in After(calls, k + 1) && pruner >= from + SkewedLength(skew, windowSize)
  {
    var i := StampedWithin(calls, k + 1, from, SkewedLength(skew, windowSize), s);
    OnlyEdgePruned(calls, skew, windowSize, from, i, k);
    var j: nat :| i < j < k && calls[j].now == calls[k].now + skew;
    PrunerIsMember(calls, skew, windowSize, capacity, j, k);
    pruner := calls[j].now;
  }

  lemma {:induction false} StampsAtAdmission(calls: seq<Call>, skew: int, windowSize: int, capacity: int, from: int,
                                             k: nat)
    requires 0 <= skew < 1000 * windowSize && SkewWithin(calls, skew)
    requires FixedWindow(calls, windowSize) && FixedCapacity(calls, capacity)
    requires k < |calls| && Admitted(calls, k)
    requires from <= calls[k].now < from + SkewedLength(skew, windowSize)
    ensures |StampsWithin(calls, k + 1, from, SkewedLength(skew, windowSize))| <= capacity
  {
    var stamps, members := StampsWithin(calls, k + 1, from, SkewedLength(skew, windowSize)), After(calls, k + 1);
    AdmissionFits(calls, k);
    if stamps <= members {
      SubsetSize(stamps, members);
    } else {
      var s :| s in stamps && s !in members;
      var pruner := MissingIsEdge(calls, skew, windowSize, capacity, from, k, s);
      forall t | t in stamps && t !in members ensures t == s {
        var _ := MissingIsEdge(calls, skew, windowSize, capacity, from, k, t);
      }
      OneForOne(stamps, members, s, pruner);
    }
  }

  lemma {:induction false} NothingNewWithin(calls: seq<Call>, n: nat, from: int, length: int)
    requires 0 < n <= |calls|
    requires !(Admitted(calls, n - 1) && from <= calls[n - 1].now < from + length)
    ensures StampsWithin(calls, n, from, length) == StampsWithin(calls, n - 1, from, length)
  {
  }

  /** The bound under clock skew: every interval of the shortened window's length holds at
      most `capacity` distinct admission times. Without skew that is the window itself. */
  lemma {:induction false} SkewBound(calls: seq<Call>, skew: int, windowSize: int, capacity: int, from: int, n: nat)
    requires 0 <= skew < 1000 * windowSize && SkewWithin(calls, skew) && capacity >= 0
    requires FixedWindow(calls, windowSize) && FixedCapacity(calls, capacity) && n <= |calls|
    ensures |StampsWithin(calls, n, from, SkewedLength(skew, windowSize))| <= capacity
    decreases n
  {
    var length := SkewedLength(skew, windowSize);
    if n > 0 {
      if Admitted(calls, n - 1) && from <= calls[n - 1].now < from + length {
        StampsAtAdmission(calls, skew, windowSize, capacity, from, n - 1);
      } else {
        SkewBound(calls, skew, windowSize, capacity, from, n - 1);
        NothingNewWithin(calls, n, from, length);
      }
    }
  }

  /** A run of one configuration whose clocks are within the skew. */
  predicate OneConfigRun(calls: seq<Call>, skew: int, windowSize: int, capacity: int) {
    SkewWithin(calls, skew) && FixedWindow(calls, windowSize) && FixedCapacity(calls, capacity)
  }

  lemma {:induction false} FewMilliseconds(times: set<int>, from: int, length: nat)
    requires forall s :: s in times ==> from <= s < from + length
    ensures |times| <= length
    decreases length
  {
    if length == 0 {
      assert !exists s :: s in times;
    } else {
      var last := from + length - 1;
      FewMilliseconds(times - {last}, from, length - 1);
      assert times <= (times - {last}) + {last};
      SubsetSize(times, (times - {last}) + {last});
    }
  }

  // ---- Runs that overfill anything longer ----

  function FirstTimes(n: nat): (times: set<int>)
    ensures forall s :: s in times <==> 0 <= s < n
    ensures |times| == n
  {
    if n == 0 then {} else FirstTimes(n - 1) + {n - 1}
  }

  /** One call in each of the first `n` milliseconds. */
  function EveryMillisecond(n: nat, capacity: int, windowSize: int): (calls: seq<Call>)
    ensures |calls| == n
    ensures forall k :: 0 <= k < n ==> calls[k] == Call(k, capacity, windowSize)
  {
    seq(n, k => Call(k, capacity, windowSize))
  }

  /** As many early admissions as the limit allows; with skew a fast clock that prunes two of them;
      and one call more. */
  function OverfullRun(skew: int, windowSize: int, capacity: nat): seq<Call> {
    var early := EveryMillisecond(capacity, capacity, windowSize);
    if capacity >= 1000 * windowSize then EveryMillisecond(capacity + 1, capacity, windowSize)
    else if capacity == 1 || skew == 0 then early + [Call(1000 * windowSize, capacity, windowSize)]
    else early + [Call(1000 * windowSize + 1, capacity, windowSize),
                  Call(Max(capacity, 1000 * windowSize + 1 - skew), capacity, windowSize)]
  }

  lemma {:induction false} EarlyStep(n: nat, c: Call)
    requires c.now == n < c.capacity && WindowStart(c) < 0
    ensures Admits(FirstTimes(n), c) && Next(FirstTimes(n), c) == FirstTimes(n + 1)
  {
    assert Pruned(FirstTimes(n), WindowStart(c)) == FirstTimes(n);
  }

  /** One call a millisecond, up to the limit. */
  predicate StartsEarly(calls: seq<Call>, windowSize: int, capacity: nat) {
    capacity < |calls| && forall k :: 0 <= k < capacity ==> calls[k] == Call(k, capacity, windowSize)
  }

  /** While none of them is a window old, all are admitted and stay. */
  lemma {:induction false} OneMoreMember(calls: seq<Call>, n: nat)
    requires n < |calls| && After(calls, n) == FirstTimes(n)
    requires calls[n].now == n < calls[n].capacity && WindowStart(calls[n]) < 0
    ensures After(calls, n + 1) == FirstTimes(n + 1)
  {
    EarlyStep(n, calls[n]);
  }

  lemma {:induction false} EarlyCall(calls: seq<Call>, windowSize: int, capacity: nat, k: nat)
    requires StartsEarly(calls, windowSize, capacity) && k < capacity <= 1000 * windowSize
    ensures calls[k].now == k < calls[k].capacity && WindowStart(calls[k]) < 0
  {
  }

  lemma {:induction false} EarlyMembers(calls: seq<Call>, windowSize: int, capacity: nat, n: nat)
    requires StartsEarly(calls, windowSize, capacity) && n <= capacity <= 1000 * windowSize
    ensures After(calls, n) == FirstTimes(n)
    decreases n
  {
    if n > 0 {
      EarlyMembers(calls, windowSize, capacity, n - 1);
      EarlyCall(calls, windowSize, capacity, n - 1);
      OneMoreMember(calls, n - 1);
    }
  }

  lemma {:induction false} EarlyAdmitted(calls: seq<Call>, windowSize: int, capacity: nat, k: nat)
    requires StartsEarly(calls, windowSize, capacity) && k < capacity <= 1000 * windowSize
    ensures Admitted(calls, k)
  {
    EarlyMembers(calls, windowSize, capacity, k);
    EarlyStep(k, calls[k]);
  }

  /** A limit of a whole window of milliseconds refuses none of them. */
  lemma {:induction false} WideLimitAdmits(calls: seq<Call>, windowSize: int, capacity: int, k: nat)
    requires capacity >= 1000 * windowSize > 0 && k < |calls|
    requires forall i :: 0 <= i < |calls| ==> calls[i] == Call(i, capacity, windowSize)
    ensures Admitted(calls, k)
  {
    var start := WindowStart(calls[k]);
    var left := Pruned(After(calls, k), start);
    forall s | s in left ensures start + 1 <= s < k {
      var i := MemberSurvived(calls, s, k);
    }
    FewMilliseconds(left, start + 1, 1000 * windowSize - 1);
  }

  /** Without skew, or with a limit of one: a whole window later the first one is pruned. */
  lemma {:induction false} WindowLaterAdmitted(calls: seq<Call>, windowSize: int, capacity: nat)
    requires 0 < capacity < 1000 * windowSize
    requires calls == EveryMillisecond(capacity, capacity, windowSize) + [Call(1000 * windowSize, capacity, windowSize)]
    ensures forall k: nat :: k < |calls| ==> Admitted(calls, k)
  {
    forall k: nat | k < |calls| ensures Admitted(calls, k) {
      if k < capacity {
        EarlyAdmitted(calls, windowSize, capacity, k);
      } else {
        EarlyMembers(calls, windowSize, capacity, capacity);
        assert Pruned(FirstTimes(capacity), WindowStart(calls[capacity])) == FirstTimes(capacity) - {0};
      }
    }
  }

  lemma {:induction false} FirstTwoPruned(n: nat)
    requires n >= 2
    ensures Pruned(FirstTimes(n), 1) == FirstTimes(n) - {0, 1}
    ensures |FirstTimes(n) - {0, 1}| == n - 2
  {
    assert FirstTimes(n) == (FirstTimes(n) - {0, 1}) + {0, 1};
    assert |{0, 1}| == 2;
  }

  /** With skew: the fast clock makes room for itself and for the slow one. */
  lemma {:induction false} FastThenSlow(members: set<int>, fast: Call, slow: Call, capacity: nat)
    requires members == FirstTimes(capacity) && capacity >= 2
    requires fast.capacity == capacity == slow.capacity
    requires WindowStart(fast) == 1 && fast.now > 1 && WindowStart(slow) <= 0
    ensures Admits(members, fast) && Admits(Next(members, fast), slow)
  {
    FirstTwoPruned(capacity);
    var left := FirstTimes(capacity) - {0, 1};
    assert Next(members, fast) == left + {fast.now};
    SubsetSize(Pruned(left + {fast.now}, WindowStart(slow)), left + {fast.now});
  }

  lemma {:induction false} FastThenSlowAdmitted(calls: seq<Call>, skew: int, windowSize: int, capacity: nat)
    requires 2 <= capacity < 1000 * windowSize && 0 < skew < 1000 * windowSize
    requires calls == OverfullRun(skew, windowSize, capacity)
    ensures forall k: nat :: k < |calls| ==> Admitted(calls, k)
  {
    forall k: nat | k < |calls| ensures Admitted(calls, k) {
      if k < capacity {
        EarlyAdmitted(calls, windowSize, capacity, k);
      } else {
        EarlyMembers(calls, windowSize, capacity, capacity);
        FastThenSlow(After(calls, capacity), calls[capacity], calls[capacity + 1], capacity);
      }
    }
  }

  lemma {:induction false} OverfullRunAdmitted(skew: int, windowSize: int, capacity: nat)
    requires 0 <= skew < 1000 * windowSize && capacity > 0
    ensures var calls := OverfullRun(skew, windowSize, capacity);
            OneConfigRun(calls, skew, windowSize, capacity) && forall k: nat :: k < |calls| ==> Admitted(calls, k)
  {
    var calls := OverfullRun(skew, windowSize, capacity);
    if capacity >= 1000 * windowSize {
      forall k: nat | k < |calls| ensures Admitted(calls, k) {
        WideLimitAdmits(calls, windowSize, capacity, k);
      }
    } else if capacity == 1 || skew == 0 {
      WindowLaterAdmitted(calls, windowSize, capacity);
    } else {
      FastThenSlowAdmitted(calls, skew, windowSize, capacity);
    }
  }

  lemma {:induction false} OverfullTimes(skew: int, windowSize: int, capacity: nat)
    requires 0 <= skew < 1000 * windowSize && capacity > 0
    ensures var calls := OverfullRun(skew, windowSize, capacity);
            && |calls| > capacity && (forall k: nat :: k < capacity ==> calls[k].now == k)
            && calls[|calls| - 1].now
               == Max(capacity, if capacity == 1 then 1000 * windowSize else SkewedLength(skew, windowSize))
  {
  }

  lemma {:induction false} OverfullStamps(calls: seq<Call>, capacity: nat, length: int)
    requires |calls| > capacity && forall k: nat :: k < capacity ==> calls[k].now == k
    requires forall k: nat :: k < |calls| ==> Admitted(calls, k)
    requires capacity <= calls[|calls| - 1].now < length
    ensures |StampsWithin(calls, |calls|, 0, length)| > capacity
  {
    var last := calls[|calls| - 1].now;
    var stamps := StampsWithin(calls, |calls|, 0, length);
    forall s | s in FirstTimes(capacity) ensures s in stamps {
      assert calls[s].now == s;
    }
    SubsetSize(FirstTimes(capacity) + {last}, stamps);
  }

  // ---- Refused requests are invisible ----

  ghost predicate Invisible(calls: seq<Call>, keep: seq<bool>, start: int)
    requires |keep| == |calls|
  {
    && Decisions(Filter(calls, keep)) == Filter(Decisions(calls), keep)
    && Pruned(State(calls), start) == Pruned(State(Filter(calls, keep)), start)
  }

  lemma {:induction false} InvisibleSnoc(front: seq<Call>, keep: seq<bool>, c: Call, kept: bool)
    requires |keep| == |front| && Invisible(front, keep, WindowStart(c))
    requires !kept ==> !Admits(State(front), c)
    ensures Invisible(front + [c], keep + [kept], WindowStart(c))
  {
    FilterSnoc(front, c, keep, kept);
    DecisionsSnoc(front, c);
    StateSnoc(front, c);
    FilterSnoc(Decisions(front), Admits(State(front), c), keep, kept);
    var rest := Filter(front, keep);
    DecisionsSnoc(rest, c);
    StateSnoc(rest, c);
    PruneAbsorbed(State(front), WindowStart(c), WindowStart(c));
  }

  /** Deleting any refused requests from an ordered run with one window size leaves every other
      decision as it was. */
  lemma {:induction false} RefusedAreInvisible(calls: seq<Call>, keep: seq<bool>, windowSize: int, start: int)
    requires Ordered(calls) && FixedWindow(calls, windowSize) && |keep| == |calls|
    requires forall k :: 0 <= k < |calls| ==> WindowStart(calls[k]) <= start
    requires forall k: nat :: k < |calls| && !keep[k] ==> !Admitted(calls, k)
    ensures Invisible(calls, keep, start)
    decreases |calls|
  {
    if calls != [] {
      var n := |calls| - 1;
      var front, c := calls[..n], calls[n];
      assert calls == front + [c] && keep == keep[..n] + [keep[n]];
      forall k: nat | k < n && !keep[k] ensures !Admitted(front, k) {
        AdmittedPrefix(front, [c], k);
      }
      RefusedAreInvisible(front, keep[..n], windowSize, WindowStart(c));
      StateSnoc(front, c);
      InvisibleSnoc(front, keep[..n], c, keep[n]);
      PruneAbsorbed(State(calls), WindowStart(c), start);
      PruneAbsorbed(State(Filter(calls, keep)), WindowStart(c), start);
    }
  }
}
