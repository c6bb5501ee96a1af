/** One sliding window as a state machine: the sorted set stored under one `sw:` key and what one
    run of the window script does to it. The members are admission times in milliseconds; a
    member and its score are the same number. */
module SlidingWindow {
  /** The arguments of one call; the window is in seconds. */
  datatype Call = Call(now: int, capacity: int, windowSize: int)

  function WindowStart(c: Call): int {
    c.now - 1000 * c.windowSize
  }

  /** The members left after removing every score up to and including the window start. */
  function Pruned(members: set<int>, windowStart: int): set<int> {
    set s | s in members && s > windowStart
  }

  predicate Admits(members: set<int>, c: Call) {
    |Pruned(members, WindowStart(c))| < c.capacity
  }

  function Next(members: set<int>, c: Call): set<int> {
    if Admits(members, c) then Pruned(members, WindowStart(c)) + {c.now}
    else Pruned(members, WindowStart(c))
  }

  /** The set after the first `n` calls on a key that started absent and never expires. */
  function After(calls: seq<Call>, n: nat): set<int>
    requires n <= |calls|
  {
    if n == 0 then {} else Next(After(calls, n - 1), calls[n - 1])
  }

  function State(calls: seq<Call>): set<int> {
    After(calls, |calls|)
  }

  predicate Admitted(calls: seq<Call>, k: nat)
    requires k < |calls|
  {
    Admits(After(calls, k), calls[k])
  }

  function Decisions(calls: seq<Call>): (d: seq<bool>)
    ensures |d| == |calls|
    ensures forall k :: 0 <= k < |calls| ==> d[k] == Admitted(calls, k)
  {
    seq(|calls|, k requires 0 <= k < |calls| => Admitted(calls, k))
  }

  predicate Ordered(calls: seq<Call>) {
    forall i, j :: 0 <= i <= j < |calls| ==> calls[i].now <= calls[j].now
  }

  predicate FixedWindow(calls: seq<Call>, windowSize: int) {
    forall k :: 0 <= k < |calls| ==> calls[k].windowSize == windowSize
  }

  predicate FixedCapacity(calls: seq<Call>, capacity: int) {
    forall k :: 0 <= k < |calls| ==> calls[k].capacity == capacity
  }

  lemma {:induction false} AfterPrefix(calls: seq<Call>, more: seq<Call>, n: nat)
    requires n <= |calls|
    ensures After(calls + more, n) == After(calls, n)
  {
    if n > 0 {
      AfterPrefix(calls, more, n - 1);
    }
  }

  lemma {:induction false} AdmittedPrefix(calls: seq<Call>, more: seq<Call>, k: nat)
    requires k < |calls|
    ensures Admitted(calls + more, k) == Admitted(calls, k)
  {
    AfterPrefix(calls, more, k);
  }

  lemma {:induction false} StateSnoc(calls: seq<Call>, c: Call)
    ensures State(calls + [c]) == Next(State(calls), c)
    ensures Admitted(calls + [c], |calls|) == Admits(State(calls), c)
  {
    AfterPrefix(calls, [c], |calls|);
  }

  lemma {:induction false} DecisionsSnoc(calls: seq<Call>, c: Call)
    ensures Decisions(calls + [c]) == Decisions(calls) + [Admits(State(calls), c)]
  {
    StateSnoc(calls, c);
    forall k: nat | k < |calls| ensures Admitted(calls + [c], k) == Admitted(calls, k) {
      AdmittedPrefix(calls, [c], k);
    }
  }

  /** Pruning is absorbed by a later pruning. */
  lemma {:induction false} PruneAbsorbed(members: set<int>, start: int, later: int)
    requires start <= later
    ensures Pruned(Pruned(members, start), later) == Pruned(members, later)
  {
  }
}
