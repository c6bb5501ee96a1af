/** What the checks of one user look like in a run of the whole service: which configuration each had
    read, when it reached the limiter, and how it was answered. */
module ServiceRuns {
  import opened Prelude
  import opened Database
  import opened Interleaving
  import K = Keyspace
  import Bucket = TokenBucket
  import BucketExpiry = TokenBucketExpiry
  import Window = SlidingWindow
  import WindowExpiry = SlidingWindowExpiry

  /** One run of a limiter script for a check: the configuration the check had read, its caller's
      clock and the store's in milliseconds, the verdict, whether the reply was lost, and whether the
      check was answered yes. */
  datatype Served = Served(config: ConfigRow, now: int, clock: int, granted: bool, lost: bool, yes: bool)

  /** At step `j` a limiter script runs for a check of the user. */
  predicate ServesAt(states: seq<State>, events: seq<Event>, user: string, j: nat)
    requires |states| == |events| + 1
  {
    j < |events| && events[j].Run? && TurnsToLimiter(states, events, events[j].i, user, j) && !events[j].ch.fault
  }

  function ServedAt(states: seq<State>, events: seq<Event>, user: string, j: nat): Served
    requires |states| == |events| + 1 && ServesAt(states, events, user, j)
  {
    var i, ch := events[j].i, events[j].ch;
    Served(states[j].procs[i].stage.config, ch.now, ch.clock,
           GrantedAt(states, events, i, user, j), ch.lost, states[j + 1].procs[i].stage == Finished(true))
  }

  predicate Sliding(config: ConfigRow) {
    config.algorithm == "sliding_window"
  }

  /** The user's checks served by the one limiter or the other in the first `n` steps, in order. */
  function Checks(states: seq<State>, events: seq<Event>, user: string, sliding: bool, n: nat): seq<Served>
    requires |states| == |events| + 1 && n <= |events|
  {
    if n == 0 then [] else
      Checks(states, events, user, sliding, n - 1)
      + (if ServesAt(states, events, user, n - 1) && Sliding(ServedAt(states, events, user, n - 1).config) == sliding
         then [ServedAt(states, events, user, n - 1)] else [])
  }

  function Grants(served: seq<Served>): (d: seq<bool>)
    ensures |d| == |served| && forall m :: 0 <= m < |served| ==> d[m] == served[m].granted
  {
    seq(|served|, m requires 0 <= m < |served| => served[m].granted)
  }

  function Answers(served: seq<Served>): (d: seq<bool>)
    ensures |d| == |served| && forall m :: 0 <= m < |served| ==> d[m] == served[m].yes
  {
    seq(|served|, m requires 0 <= m < |served| => served[m].yes)
  }

  /** The calls the token bucket is owed: capacity and rate of the row, and the time in seconds. */
  function BucketCallsOf(served: seq<Served>): (tcs: seq<BucketExpiry.TimedCall>)
    ensures |tcs| == |served|
    ensures forall m :: 0 <= m < |served| ==>
              tcs[m] == BucketExpiry.TimedCall(
                          Bucket.Call(served[m].now / 1000, served[m].config.capacity, served[m].config.refillRate),
                          served[m].clock)
  {
    seq(|served|, m requires 0 <= m < |served| =>
      BucketExpiry.TimedCall(Bucket.Call(served[m].now / 1000, served[m].config.capacity, served[m].config.refillRate),
                             served[m].clock))
  }

  /** The calls the sliding window is owed: limit and window of the row, and the time in
      milliseconds. */
  function WindowCallsOf(served: seq<Served>): (tcs: seq<WindowExpiry.TimedCall>)
    ensures |tcs| == |served|
    ensures forall m :: 0 <= m < |served| ==>
              tcs[m] == WindowExpiry.TimedCall(
                          Window.Call(served[m].now, served[m].config.limit, served[m].config.windowSize),
                          served[m].clock)
  {
    seq(|served|, m requires 0 <= m < |served| =>
      WindowExpiry.TimedCall(Window.Call(served[m].now, served[m].config.limit, served[m].config.windowSize),
                             served[m].clock))
  }

  // ---- The store has executed exactly these calls, with these verdicts ----

  lemma {:induction false} CallsOfSnoc(served: seq<Served>, c: Served)
    ensures BucketCallsOf(served + [c]) == BucketCallsOf(served) + BucketCallsOf([c])
    ensures WindowCallsOf(served + [c]) == WindowCallsOf(served) + WindowCallsOf([c])
    ensures Grants(served + [c]) == Grants(served) + [c.granted]
  {
  }

  /** A step that serves the user logs the call of the row the check had read, and its verdict is the
      next decision on those calls. */
  lemma {:induction false} ServedStep(states: seq<State>, events: seq<Event>, user: string, j: nat)
    requires IsRun(states, events) && ServesAt(states, events, user, j)
    ensures var c := ServedAt(states, events, user, j);
            var cmd := CommandFor(user, c.config, c.now, c.clock);
            && states[j + 1].log == states[j].log + [cmd] && c.granted == K.Grants(states[j].log, cmd)
            && cmd == (if Sliding(c.config)
                       then K.SlideWindow(user, WindowCallsOf([c])[0].call, c.clock)
                       else K.TakeToken(user, BucketCallsOf([c])[0].call, c.clock))
  {
    assert StepOf(states, events, j);
  }

  /** Any other step leaves the user's calls as they were. */
  lemma {:induction false} OtherStep(states: seq<State>, events: seq<Event>, user: string, j: nat)
    requires IsRun(states, events) && j < |events| && !ServesAt(states, events, user, j)
    ensures K.BucketCalls(states[j + 1].log, user) == K.BucketCalls(states[j].log, user)
    ensures K.WindowCalls(states[j + 1].log, user) == K.WindowCalls(states[j].log, user)
  {
    assert StepOf(states, events, j);
    var s, e := states[j], events[j];
    if e.Run? && s.procs[e.i].op.Check? && s.procs[e.i].stage.Configured? && !e.ch.fault {
      var p := s.procs[e.i];
      K.CallsSnoc(s.log, CommandFor(p.op.user, p.stage.config, e.ch.now, e.ch.clock), user);
    }
  }

  /** One step adds at most the check it serves to the checks served by a limiter. */
  lemma {:induction false} ChecksSnoc(states: seq<State>, events: seq<Event>, user: string, sliding: bool, j: nat)
    requires |states| == |events| + 1 && j < |events|
    ensures Checks(states, events, user, sliding, j + 1) ==
            if ServesAt(states, events, user, j) && Sliding(ServedAt(states, events, user, j).config) == sliding
            then Checks(states, events, user, sliding, j) + [ServedAt(states, events, user, j)]
            else Checks(states, events, user, sliding, j)
  {
  }

  predicate BucketAgrees(log: seq<K.Command>, user: string, served: seq<Served>) {
    && K.BucketCalls(log, user) == BucketCallsOf(served)
    && BucketExpiry.KeptDecisions(BucketCallsOf(served)) == Grants(served)
  }

  lemma {:induction false} BucketGrant(log: seq<K.Command>, user: string, served: seq<Served>, c: Served)
    requires BucketAgrees(log, user, served)
    requires c.granted == K.Grants(log, K.TakeToken(user, BucketCallsOf([c])[0].call, c.clock))
    ensures BucketAgrees(log + [K.TakeToken(user, BucketCallsOf([c])[0].call, c.clock)], user, served + [c])
  {
    var tcs, tc := BucketCallsOf(served), BucketCallsOf([c])[0];
    assert BucketCallsOf([c]) == [tc] && tc.clock == c.clock;
    K.CallsSnoc(log, K.TakeToken(user, tc.call, tc.clock), user);
    K.BucketOfUser(log, user);
    K.BucketStep(BucketExpiry.KeptState(tcs), user, tc);
    BucketExpiry.KeptSnoc(tcs, tc);
    CallsOfSnoc(served, c);
  }

  lemma {:induction false} BucketServesNext(states: seq<State>, events: seq<Event>, user: string, j: nat,
                                            served: seq<Served>)
    requires IsRun(states, events) && ServesAt(states, events, user, j) && BucketAgrees(states[j].log, user, served)
    ensures var c := ServedAt(states, events, user, j);
            BucketAgrees(states[j + 1].log, user, if Sliding(c.config) then served else served + [c])
  {
    var c := ServedAt(states, events, user, j);
    ServedStep(states, events, user, j);
    if Sliding(c.config) {
      K.CallsSnoc(states[j].log, K.SlideWindow(user, WindowCallsOf([c])[0].call, c.clock), user);
    } else {
      BucketGrant(states[j].log, user, served, c);
    }
  }

  /** In every run the bucket script has run on exactly the calls of the user's checks with a bucket
      row, and each verdict is the bucket's decision. */
  lemma {:induction false} BucketServes(states: seq<State>, events: seq<Event>, user: string, n: nat)
    requires IsRun(states, events) && n < |states|
    ensures BucketAgrees(states[n].log, user, Checks(states, events, user, false, n))
    decreases n
  {
    if n == 0 {
      assert BucketExpiry.KeptDecisions([]) == [];
    } else {
      var j := n - 1;
      BucketServes(states, events, user, j);
      ChecksSnoc(states, events, user, false, j);
      if ServesAt(states, events, user, j) {
        BucketServesNext(states, events, user, j, Checks(states, events, user, false, j));
      } else {
        OtherStep(states, events, user, j);
      }
    }
  }

  predicate WindowAgrees(log: seq<K.Command>, user: string, served: seq<Served>) {
    && K.WindowCalls(log, user) == WindowCallsOf(served)
    && WindowExpiry.KeptDecisions(WindowCallsOf(served)) == Grants(served)
  }

  lemma {:induction false} WindowGrant(log: seq<K.Command>, user: string, served: seq<Served>, c: Served)
    requires WindowAgrees(log, user, served) && K.Unobserved(log, user)
    requires c.granted == K.Grants(log, K.SlideWindow(user, WindowCallsOf([c])[0].call, c.clock))
    ensures WindowAgrees(log + [K.SlideWindow(user, WindowCallsOf([c])[0].call, c.clock)], user, served + [c])
  {
    var tcs, tc := WindowCallsOf(served), WindowCallsOf([c])[0];
    assert WindowCallsOf([c]) == [tc] && tc.clock == c.clock;
    K.CallsSnoc(log, K.SlideWindow(user, tc.call, tc.clock), user);
    K.UnobservedWindowOfUser(log, user);
    WindowExpiry.KeptNotEmpty(tcs);
    K.WindowStep(WindowExpiry.KeptState(tcs), user, tc);
    WindowExpiry.KeptSnoc(tcs, tc);
    CallsOfSnoc(served, c);
  }

  lemma {:induction false} NobodyObserves(log: seq<K.Command>, user: string)
    requires forall k :: 0 <= k < |log| ==> PositiveCommand(log[k])
    ensures K.Unobserved(log, user)
  {
    forall k | 0 <= k < |log| ensures !log[k].PruneWindow? {
      assert PositiveCommand(log[k]);
    }
  }

  lemma {:induction false} RunIsUnobserved(states: seq<State>, events: seq<Event>, user: string, j: nat)
    requires IsRun(states, events) && j < |states|
    ensures K.Unobserved(states[j].log, user)
  {
    RunKeepsInv(states, events, j);
    NobodyObserves(states[j].log, user);
  }

  lemma {:induction false} WindowServesNext(states: seq<State>, events: seq<Event>, user: string, j: nat,
                                            served: seq<Served>)
    requires IsRun(states, events) && ServesAt(states, events, user, j) && WindowAgrees(states[j].log, user, served)
    requires K.Unobserved(states[j].log, user)
    ensures var c := ServedAt(states, events, user, j);
            WindowAgrees(states[j + 1].log, user, if Sliding(c.config) then served + [c] else served)
  {
    var c := ServedAt(states, events, user, j);
    ServedStep(states, events, user, j);
    if Sliding(c.config) {
      WindowGrant(states[j].log, user, served, c);
    } else {
      K.CallsSnoc(states[j].log, K.TakeToken(user, BucketCallsOf([c])[0].call, c.clock), user);
    }
  }

  /** The same for the window script and the checks with a window row. */
  lemma {:induction false} WindowServes(states: seq<State>, events: seq<Event>, user: string, n: nat)
    requires IsRun(states, events) && n < |states|
    ensures WindowAgrees(states[n].log, user, Checks(states, events, user, true, n))
    decreases n
  {
    if n == 0 {
      assert WindowExpiry.KeptDecisions([]) == [];
    } else {
      var j := n - 1;
      WindowServes(states, events, user, j);
      ChecksSnoc(states, events, user, true, j);
      if ServesAt(states, events, user, j) {
        RunIsUnobserved(states, events, user, j);
        WindowServesNext(states, events, user, j, Checks(states, events, user, true, j));
      } else {
        OtherStep(states, events, user, j);
      }
    }
  }

  // ---- What is known of each of them ----

  /** Yes is answered exactly when the verdict is positive and its reply arrived; the parameters the
      row's algorithm uses are positive. */
  predicate WellServed(c: Served) {
    && (c.yes <==> c.granted && !c.lost)
    && (if Sliding(c.config) then c.config.limit > 0 && c.config.windowSize > 0
        else c.config.capacity > 0 && c.config.refillRate > 0)
  }

  predicate AllWell(served: seq<Served>, sliding: bool) {
    forall m :: 0 <= m < |served| ==> WellServed(served[m]) && Sliding(served[m].config) == sliding
  }

  predicate AllRead(served: seq<Served>, row: ConfigRow) {
    forall m :: 0 <= m < |served| ==> served[m].config == row
  }

  lemma {:induction false} ServedAtIsWell(states: seq<State>, events: seq<Event>, user: string, j: nat)
    requires IsRun(states, events) && ServesAt(states, events, user, j)
    ensures WellServed(ServedAt(states, events, user, j))
  {
    AnswerIff(states, events, events[j].i, user, j);
    RunKeepsInv(states, events, j);
    assert Established(states[j].issued, states[j].procs[events[j].i]);
  }

  lemma {:induction false} ChecksAreWell(states: seq<State>, events: seq<Event>, user: string, sliding: bool, n: nat)
    requires IsRun(states, events) && n <= |events|
    ensures AllWell(Checks(states, events, user, sliding, n), sliding)
  {
    if n > 0 {
      ChecksAreWell(states, events, user, sliding, n - 1);
      if ServesAt(states, events, user, n - 1) {
        ServedAtIsWell(states, events, user, n - 1);
      }
    }
  }

  /** Every configuration stored for the user in the first `n` states is the row. */
  ghost predicate OneRow(states: seq<State>, user: string, row: ConfigRow, n: nat) {
    forall j: nat, route :: j < |states| && j <= n && (user, route) in states[j].db.configs ==>
      states[j].db.configs[(user, route)] == row
  }

  lemma {:induction false} ChecksReadTheRow(states: seq<State>, events: seq<Event>, user: string, sliding: bool,
                                            row: ConfigRow, n: nat)
    requires IsRun(states, events) && n <= |events| && OneRow(states, user, row, n)
    ensures AllRead(Checks(states, events, user, sliding, n), row)
  {
    if n > 0 {
      ChecksReadTheRow(states, events, user, sliding, row, n - 1);
      if ServesAt(states, events, user, n - 1) {
        var i := events[n - 1].i;
        ConfigWasStored(states, events, i, n - 1);
        var p := states[n - 1].procs[i];
        var j: nat :| j < n - 1 && StoredConfig(states[j].db, p.op.user, p.op.route, p.stage.config);
      }
    }
  }
}
