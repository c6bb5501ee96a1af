/** The service-wide counters: every answered check starts a pipeline of three increments that runs
    on its own, interleaved with everything else. */
module Stats {
  import opened Prelude
  import opened Keyspace

  /** A pipeline and how many of its increments the store has executed. One that stops early just
      never moves again. */
  datatype Pipe = Pipe(allowed: bool, micros: nat, sent: nat)

  /** The `sent`-th command of a pipeline. Latency is counted in whole microseconds. */
  function CommandOf(p: Pipe, clock: int): Command
    requires p.sent < 3
  {
    if p.sent == 0 then Increment(TotalRequests, 1, clock)
    else if p.sent == 1 then Increment(if p.allowed then AllowedRequests else BlockedRequests, 1, clock)
    else Increment(TotalLatency, p.micros, clock)
  }

  /** The pipeline after its next increment. */
  function Advanced(p: Pipe): Pipe {
    p.(sent := p.sent + 1)
  }

  /** The commands executed so far, all pipelines ever started, and how many limiter runs had
      their reply lost, in all and with a positive verdict: those checks fail and are not counted. */
  datatype State = State(log: seq<Command>, pipes: seq<Pipe>, lost: nat, lostYes: nat)

  /** A check is answered, a limiter runs but its reply is lost, pipeline `i` gets its next
      increment executed, or an observer prunes a window. */
  datatype Event =
    | Answer(cmd: Command, micros: nat)
    | Lose(cmd: Command)
    | Advance(i: nat, clock: int)
    | Observe(cmd: Command)

  predicate IsLimiter(cmd: Command) {
    cmd.TakeToken? || cmd.SlideWindow?
  }

  predicate Enabled(s: State, e: Event) {
    match e
    case Answer(cmd, _) => IsLimiter(cmd)
    case Lose(cmd) => IsLimiter(cmd)
    case Advance(i, _) => i < |s.pipes| && s.pipes[i].sent < 3
    case Observe(cmd) => cmd.PruneWindow?
  }

  function Next(s: State, e: Event): State
    requires Enabled(s, e)
  {
    match e
    case Answer(cmd, micros) =>
      s.(log := s.log + [cmd], pipes := s.pipes + [Pipe(Grants(s.log, cmd), micros, 0)])
    case Lose(cmd) =>
      s.(log := s.log + [cmd], lost := s.lost + 1, lostYes := s.lostYes + (if Grants(s.log, cmd) then 1 else 0))
    case Advance(i, clock) =>
      s.(log := s.log + [CommandOf(s.pipes[i], clock)],
         pipes := s.pipes[i := Advanced(s.pipes[i])])
    case Observe(cmd) => s.(log := s.log + [cmd])
  }

  ghost predicate IsRun(states: seq<State>, events: seq<Event>) {
    && |states| == |events| + 1 && states[0] == State([], [], 0, 0)
    && forall k :: 0 <= k < |events| ==> StepOf(states, events, k)
  }

  ghost predicate StepOf(states: seq<State>, events: seq<Event>, k: nat)
    requires |states| == |events| + 1 && k < |events|
  {
    Enabled(states[k], events[k]) && states[k + 1] == Next(states[k], events[k])
  }

  // ---- What a counter holds ----

  /** What a GET of the counter reads; a missing counter reads as zero. */
  function Counter(log: seq<Command>, stat: Stat): int {
    NumberIn(At(Replay(log), StatKey(stat)))
  }

  /** A number without a time to live, or nothing. */
  predicate Endless(e: Option<Entry>) {
    e.Some? ==> e.value.deadline == None && e.value.value.Number?
  }

  lemma {:induction false} IncrementKeepsEndless(e: Option<Entry>, cmd: Command)
    requires cmd.Increment? && Endless(e)
    ensures Endless(EntryAfter(e, cmd))
  {
  }

  /** Counters have no time to live. */
  lemma {:induction false} CountersDoNotExpire(log: seq<Command>, stat: Stat)
    ensures Endless(At(Replay(log), StatKey(stat)))
  {
    if log != [] {
      var n := |log| - 1;
      var front, cmd := log[..n], log[n];
      assert log == front + [cmd];
      CountersDoNotExpire(front, stat);
      StatKeyIs(cmd, stat);
      ReplaySnoc(front, cmd);
      if KeyOf(cmd) == StatKey(stat) {
        IncrementKeepsEndless(At(Replay(front), StatKey(stat)), cmd);
      }
    }
  }

  /** The increments of one counter in a log, added up. */
  function Sum(log: seq<Command>, stat: Stat): int {
    if log == [] then 0 else
      var cmd := log[|log| - 1];
      Sum(log[..|log| - 1], stat) + (if cmd.Increment? && cmd.stat == stat then cmd.amount else 0)
  }

  lemma {:induction false} SumSnoc(log: seq<Command>, cmd: Command, stat: Stat)
    ensures Sum(log + [cmd], stat) == Sum(log, stat) + (if cmd.Increment? && cmd.stat == stat then cmd.amount else 0)
  {
    assert (log + [cmd])[..|log|] == log;
  }

  /** Whatever else shares the store, a counter holds the sum of its increments. */
  lemma {:induction false} CounterIsSum(log: seq<Command>, stat: Stat)
    ensures Counter(log, stat) == Sum(log, stat)
  {
    if log != [] {
      var n := |log| - 1;
      assert log == log[..n] + [log[n]];
      CounterIsSum(log[..n], stat);
      CountersDoNotExpire(log[..n], stat);
      StatKeyIs(log[n], stat);
      ReplaySnoc(log[..n], log[n]);
    }
  }

  // ---- What the pipelines have contributed ----

  function Contribution(p: Pipe, stat: Stat): int {
    match stat
    case TotalRequests => if p.sent >= 1 then 1 else 0
    case AllowedRequests => if p.sent >= 2 && p.allowed then 1 else 0
    case BlockedRequests => if p.sent >= 2 && !p.allowed then 1 else 0
    case TotalLatency => if p.sent >= 3 then p.micros else 0
  }

  function Contributed(pipes: seq<Pipe>, stat: Stat): int {
    if pipes == [] then 0
    else Contributed(pipes[..|pipes| - 1], stat) + Contribution(pipes[|pipes| - 1], stat)
  }

  /** Pipelines past their first increment but not their second. */
  function Halfway(pipes: seq<Pipe>): nat {
    if pipes == [] then 0
    else Halfway(pipes[..|pipes| - 1]) + (if pipes[|pipes| - 1].sent == 1 then 1 else 0)
  }

  /** Pipelines of checks answered yes. */
  function Yes(pipes: seq<Pipe>): nat {
    if pipes == [] then 0 else Yes(pipes[..|pipes| - 1]) + (if pipes[|pipes| - 1].allowed then 1 else 0)
  }

  /** The latencies of all answered checks, added up. */
  function Micros(pipes: seq<Pipe>): nat {
    if pipes == [] then 0 else Micros(pipes[..|pipes| - 1]) + pipes[|pipes| - 1].micros
  }

  lemma {:induction false} ContributedUpdate(pipes: seq<Pipe>, i: nat, p: Pipe, stat: Stat)
    requires i < |pipes|
    ensures Contributed(pipes[i := p], stat)
            == Contributed(pipes, stat) - Contribution(pipes[i], stat) + Contribution(p, stat)
    decreases |pipes|
  {
    var n := |pipes| - 1;
    if i < n {
      ContributedUpdate(pipes[..n], i, p, stat);
      assert pipes[i := p][..n] == pipes[..n][i := p];
    } else {
      assert pipes[i := p][..n] == pipes[..n];
    }
  }

  lemma {:induction false} YesUpdate(pipes: seq<Pipe>, i: nat, p: Pipe)
    requires i < |pipes| && p.allowed == pipes[i].allowed
    ensures Yes(pipes[i := p]) == Yes(pipes)
    decreases |pipes|
  {
    var n := |pipes| - 1;
    if i < n {
      YesUpdate(pipes[..n], i, p);
      assert pipes[i := p][..n] == pipes[..n][i := p];
    } else {
      assert pipes[i := p][..n] == pipes[..n];
    }
  }

  lemma {:induction false} ContributedSnoc(pipes: seq<Pipe>, p: Pipe, stat: Stat)
    ensures Contributed(pipes + [p], stat) == Contributed(pipes, stat) + Contribution(p, stat)
    ensures Yes(pipes + [p]) == Yes(pipes) + (if p.allowed then 1 else 0)
  {
    assert (pipes + [p])[..|pipes|] == pipes;
  }

  /** The number of limiter runs of the log with a positive verdict, and of all of them. */
  function Admissions(log: seq<Command>): nat {
    if log == [] then 0 else
      var n := |log| - 1;
      Admissions(log[..n]) + (if IsLimiter(log[n]) && Grants(log[..n], log[n]) then 1 else 0)
  }

  function LimiterRuns(log: seq<Command>): nat {
    if log == [] then 0
    else LimiterRuns(log[..|log| - 1]) + (if IsLimiter(log[|log| - 1]) then 1 else 0)
  }

  lemma {:induction false} RunsSnoc(log: seq<Command>, cmd: Command)
    ensures LimiterRuns(log + [cmd]) == LimiterRuns(log) + (if IsLimiter(cmd) then 1 else 0)
    ensures Admissions(log + [cmd]) == Admissions(log) + (if IsLimiter(cmd) && Grants(log, cmd) then 1 else 0)
  {
    assert (log + [cmd])[..|log|] == log;
  }

  // ---- Conservation ----

  /** A counter's increments are what the pipelines contributed. */
  predicate CounterIsContributed(s: State, stat: Stat) {
    Sum(s.log, stat) == Contributed(s.pipes, stat)
  }

  /** Every limiter run was answered or lost, and so was every positive verdict. */
  predicate RunsAccountedFor(s: State) {
    |s.pipes| + s.lost == LimiterRuns(s.log) && Yes(s.pipes) + s.lostYes == Admissions(s.log)
  }

  ghost predicate Inv(s: State) {
    (forall stat :: CounterIsContributed(s, stat)) && RunsAccountedFor(s)
  }

  /** An increment is exactly what its pipeline newly contributes. */
  lemma {:induction false} IncrementIsContribution(p: Pipe, clock: int, stat: Stat)
    requires p.sent < 3
    ensures var cmd := CommandOf(p, clock);
            Contribution(Advanced(p), stat)
            == Contribution(p, stat) + (if cmd.Increment? && cmd.stat == stat then cmd.amount else 0)
  {
  }

  lemma {:induction false} AdvanceKeepsCounter(log: seq<Command>, pipes: seq<Pipe>, i: nat, clock: int, stat: Stat)
    requires i < |pipes| && pipes[i].sent < 3 && Sum(log, stat) == Contributed(pipes, stat)
    ensures Sum(log + [CommandOf(pipes[i], clock)], stat) == Contributed(pipes[i := Advanced(pipes[i])], stat)
  {
    SumSnoc(log, CommandOf(pipes[i], clock), stat);
    ContributedUpdate(pipes, i, Advanced(pipes[i]), stat);
    IncrementIsContribution(pipes[i], clock, stat);
  }

  lemma {:induction false} AnswerKeepsCounter(log: seq<Command>, pipes: seq<Pipe>, cmd: Command, p: Pipe, stat: Stat)
    requires !cmd.Increment? && p.sent == 0 && Sum(log, stat) == Contributed(pipes, stat)
    ensures Sum(log + [cmd], stat) == Contributed(pipes + [p], stat)
  {
    SumSnoc(log, cmd, stat);
    ContributedSnoc(pipes, p, stat);
  }

  lemma {:induction false} StepKeepsCounter(s: State, e: Event, stat: Stat)
    requires Enabled(s, e) && CounterIsContributed(s, stat)
    ensures CounterIsContributed(Next(s, e), stat)
  {
    match e
    case Answer(cmd, micros) => AnswerKeepsCounter(s.log, s.pipes, cmd, Pipe(Grants(s.log, cmd), micros, 0), stat);
    case Lose(cmd) => SumSnoc(s.log, cmd, stat);
    case Advance(i, clock) => AdvanceKeepsCounter(s.log, s.pipes, i, clock, stat);
    case Observe(cmd) => SumSnoc(s.log, cmd, stat);
  }

  lemma {:induction false} AdvanceKeepsRuns(log: seq<Command>, pipes: seq<Pipe>, i: nat, clock: int)
    requires i < |pipes| && pipes[i].sent < 3
    ensures LimiterRuns(log + [CommandOf(pipes[i], clock)]) == LimiterRuns(log)
    ensures Admissions(log + [CommandOf(pipes[i], clock)]) == Admissions(log)
    ensures Yes(pipes[i := Advanced(pipes[i])]) == Yes(pipes)
  {
    RunsSnoc(log, CommandOf(pipes[i], clock));
    YesUpdate(pipes, i, Advanced(pipes[i]));
  }

  lemma {:induction false} StepKeepsRuns(s: State, e: Event)
    requires Enabled(s, e) && RunsAccountedFor(s)
    ensures RunsAccountedFor(Next(s, e))
  {
    match e
    case Answer(cmd, micros) =>
      RunsSnoc(s.log, cmd);
      ContributedSnoc(s.pipes, Pipe(Grants(s.log, cmd), micros, 0), TotalRequests);
    case Lose(cmd) => RunsSnoc(s.log, cmd);
    case Advance(i, clock) => AdvanceKeepsRuns(s.log, s.pipes, i, clock);
    case Observe(cmd) => RunsSnoc(s.log, cmd);
  }

  lemma {:induction false} RunKeepsInv(states: seq<State>, events: seq<Event>, k: nat)
    requires IsRun(states, events) && k < |states|
    ensures Inv(states[k])
    decreases k
  {
    if k > 0 {
      RunKeepsInv(states, events, k - 1);
      assert StepOf(states, events, k - 1);
      forall stat ensures CounterIsContributed(states[k], stat) {
        assert CounterIsContributed(states[k - 1], stat);
        StepKeepsCounter(states[k - 1], events[k - 1], stat);
      }
      StepKeepsRuns(states[k - 1], events[k - 1]);
    }
  }

  lemma {:induction false} PipesBalance(pipes: seq<Pipe>)
    ensures Contributed(pipes, TotalRequests)
            == Contributed(pipes, AllowedRequests) + Contributed(pipes, BlockedRequests) + Halfway(pipes)
    ensures Contributed(pipes, TotalRequests) <= |pipes|
  {
    if pipes != [] {
      PipesBalance(pipes[..|pipes| - 1]);
    }
  }

  lemma {:induction false} DonePipesBalance(pipes: seq<Pipe>)
    requires forall k :: 0 <= k < |pipes| ==> pipes[k].sent >= 2
    ensures Contributed(pipes, TotalRequests) == |pipes| && Halfway(pipes) == 0
    ensures Contributed(pipes, AllowedRequests) == Yes(pipes)
  {
    if pipes != [] {
      DonePipesBalance(pipes[..|pipes| - 1]);
    }
  }

  lemma {:induction false} CountersAt(states: seq<State>, events: seq<Event>, k: nat)
    requires IsRun(states, events) && k < |states|
    ensures var s := states[k];
            && Counter(s.log, TotalRequests) == Contributed(s.pipes, TotalRequests)
            && Counter(s.log, AllowedRequests) == Contributed(s.pipes, AllowedRequests)
            && Counter(s.log, BlockedRequests) == Contributed(s.pipes, BlockedRequests)
            && Counter(s.log, TotalLatency) == Contributed(s.pipes, TotalLatency)
            && RunsAccountedFor(s)
  {
    RunKeepsInv(states, events, k);
    assert CounterIsContributed(states[k], TotalRequests) && CounterIsContributed(states[k], AllowedRequests)
        && CounterIsContributed(states[k], BlockedRequests) && CounterIsContributed(states[k], TotalLatency);
    forall stat ensures Counter(states[k].log, stat) == Sum(states[k].log, stat) {
      CounterIsSum(states[k].log, stat);
    }
  }

  /** At every moment of every interleaving the total is the allowed plus the blocked plus the
      pipelines caught between their first and second increment, and at most the checks answered,
      whether or not pipelines stop early. */
  lemma {:induction false} CountersBalance(states: seq<State>, events: seq<Event>, k: nat)
    requires IsRun(states, events) && k < |states|
    ensures var s := states[k];
            && Counter(s.log, TotalRequests)
               == Counter(s.log, AllowedRequests) + Counter(s.log, BlockedRequests) + Halfway(s.pipes)
            && Counter(s.log, TotalRequests) <= LimiterRuns(s.log) - s.lost
  {
    CountersAt(states, events, k);
    PipesBalance(states[k].pipes);
  }

  /** Every pipeline is past its second increment. */
  predicate Quiet(s: State) {
    forall i :: 0 <= i < |s.pipes| ==> s.pipes[i].sent >= 2
  }

  /** In a quiet state the counters are the numbers of limiter runs, positive verdicts and negative
      verdicts of both limiters over all users, less those whose reply was lost. */
  lemma {:induction false} QuietCountersAreExact(states: seq<State>, events: seq<Event>, k: nat)
    requires IsRun(states, events) && k < |states| && Quiet(states[k])
    ensures var s := states[k];
            && Counter(s.log, TotalRequests) == |s.pipes| == LimiterRuns(s.log) - s.lost
            && Counter(s.log, AllowedRequests) == Admissions(s.log) - s.lostYes
            && Counter(s.log, BlockedRequests) == (LimiterRuns(s.log) - Admissions(s.log)) - (s.lost - s.lostYes)
  {
    CountersAt(states, events, k);
    PipesBalance(states[k].pipes);
    DonePipesBalance(states[k].pipes);
  }

  // ---- The reader ----

  lemma {:induction false} StepGrows(s: State, e: Event, stat: Stat)
    requires Enabled(s, e)
    ensures Sum(s.log, stat) <= Sum(Next(s, e).log, stat) && |s.pipes| <= |Next(s, e).pipes|
  {
    match e
    case Answer(cmd, _) => SumSnoc(s.log, cmd, stat);
    case Lose(cmd) => SumSnoc(s.log, cmd, stat);
    case Advance(i, clock) => SumSnoc(s.log, CommandOf(s.pipes[i], clock), stat);
    case Observe(cmd) => SumSnoc(s.log, cmd, stat);
  }

  lemma {:induction false} GrowsAt(states: seq<State>, events: seq<Event>, k: nat, stat: Stat)
    requires IsRun(states, events) && k < |events|
    ensures Sum(states[k].log, stat) <= Sum(states[k + 1].log, stat)
    ensures |states[k].pipes| <= |states[k + 1].pipes|
  {
    assert StepOf(states, events, k);
    StepGrows(states[k], events[k], stat);
  }

  lemma {:induction false} SumsGrow(states: seq<State>, events: seq<Event>, i: nat, j: nat, stat: Stat)
    requires IsRun(states, events) && i <= j < |states|
    ensures Sum(states[i].log, stat) <= Sum(states[j].log, stat)
    ensures |states[i].pipes| <= |states[j].pipes|
    decreases j
  {
    if i < j {
      SumsGrow(states, events, i, j - 1, stat);
      GrowsAt(states, events, j - 1, stat);
    }
  }

  lemma {:induction false} CountersGrow(states: seq<State>, events: seq<Event>, i: nat, j: nat, stat: Stat)
    requires IsRun(states, events) && i <= j < |states|
    ensures Counter(states[i].log, stat) <= Counter(states[j].log, stat)
    ensures |states[i].pipes| <= |states[j].pipes|
  {
    SumsGrow(states, events, i, j, stat);
    CounterIsSum(states[i].log, stat);
    CounterIsSum(states[j].log, stat);
  }

  /** A reader gets the total, then the allowed, then the blocked count, with anything in between.
      Allowed plus blocked falls short of the total by no more than the pipelines that were halfway
      when it started, and is at most the checks answered until it finished. */
  lemma {:induction false} ReaderSandwich(states: seq<State>, events: seq<Event>, i: nat, j: nat, k: nat)
    requires IsRun(states, events) && i <= j <= k < |states|
    ensures var total := Counter(states[i].log, TotalRequests);
            var sum := Counter(states[j].log, AllowedRequests) + Counter(states[k].log, BlockedRequests);
            total - Halfway(states[i].pipes) <= sum <= |states[k].pipes|
  {
    CountersBalance(states, events, i);
    CountersAt(states, events, k);
    PipesBalance(states[k].pipes);
    CountersGrow(states, events, i, j, AllowedRequests);
    CountersGrow(states, events, j, k, AllowedRequests);
    CountersGrow(states, events, i, k, BlockedRequests);
  }

  /** A reader that starts in a quiet state, and during which no check is answered, reads consistent
      counters. */
  lemma {:induction false} QuietReaderIsConsistent(states: seq<State>, events: seq<Event>, i: nat, j: nat, k: nat)
    requires IsRun(states, events) && i <= j <= k < |states|
    requires Quiet(states[i]) && |states[k].pipes| == |states[i].pipes|
    ensures Counter(states[i].log, TotalRequests)
            == Counter(states[j].log, AllowedRequests) + Counter(states[k].log, BlockedRequests)
  {
    QuietCountersAreExact(states, events, i);
    DonePipesBalance(states[i].pipes);
    ReaderSandwich(states, events, i, j, k);
  }

  /** Every pipeline is done. */
  predicate AllSent(s: State) {
    forall i :: 0 <= i < |s.pipes| ==> s.pipes[i].sent == 3
  }

  lemma {:induction false} SentInTotal(pipes: seq<Pipe>)
    requires forall k :: 0 <= k < |pipes| ==> pipes[k].sent == 3
    ensures Contributed(pipes, TotalRequests) == |pipes|
    ensures Contributed(pipes, AllowedRequests) == Yes(pipes)
    ensures Contributed(pipes, BlockedRequests) == |pipes| - Yes(pipes)
    ensures Contributed(pipes, TotalLatency) == Micros(pipes)
  {
    if pipes != [] {
      SentInTotal(pipes[..|pipes| - 1]);
    }
  }

  lemma {:induction false} NothingSent(s: State, e: Event)
    requires Enabled(s, e) && AllSent(s) && |Next(s, e).pipes| <= |s.pipes|
    ensures Next(s, e).pipes == s.pipes
  {
  }

  /** Done pipelines stay as they are until the next check is answered. */
  lemma {:induction false} SentStay(states: seq<State>, events: seq<Event>, i: nat, j: nat, k: nat)
    requires IsRun(states, events) && i <= j <= k < |states|
    requires AllSent(states[i]) && |states[k].pipes| == |states[i].pipes|
    ensures states[j].pipes == states[i].pipes
    decreases j
  {
    if i < j {
      SentStay(states, events, i, j - 1, k);
      CountersGrow(states, events, j, k, TotalRequests);
      assert StepOf(states, events, j - 1);
      NothingSent(states[j - 1], events[j - 1]);
    }
  }

  lemma {:induction false} SentReading(states: seq<State>, events: seq<Event>, i: nat, j: nat, k: nat)
    requires IsRun(states, events) && i <= j <= k < |states|
    requires AllSent(states[i]) && |states[k].pipes| == |states[i].pipes|
    ensures var log, pipes := states[j].log, states[i].pipes;
            && Counter(log, TotalRequests) == |pipes| && Counter(log, AllowedRequests) == Yes(pipes)
            && Counter(log, BlockedRequests) == |pipes| - Yes(pipes) && Counter(log, TotalLatency) == Micros(pipes)
  {
    SentStay(states, events, i, j, k);
    CountersAt(states, events, j);
    SentInTotal(states[i].pipes);
  }

  /** Once every pipeline is done, and while no further check is answered, the reader's four gets,
      whatever runs between them, are the checks answered, those answered yes and no, and the sum of
      their latencies. */
  lemma {:induction false} DoneReaderIsExact(states: seq<State>, events: seq<Event>, i: nat, j: nat, k: nat, l: nat)
    requires IsRun(states, events) && i <= j <= k <= l < |states|
    requires AllSent(states[i]) && |states[l].pipes| == |states[i].pipes|
    ensures var pipes := states[i].pipes;
            && Counter(states[i].log, TotalRequests) == |pipes| == LimiterRuns(states[i].log) - states[i].lost
            && Counter(states[j].log, AllowedRequests) == Yes(pipes) == Admissions(states[i].log) - states[i].lostYes
            && Counter(states[k].log, BlockedRequests) == |pipes| - Yes(pipes)
            && Counter(states[l].log, TotalLatency) == Micros(pipes)
  {
    CountersAt(states, events, i);
    SentReading(states, events, i, i, l);
    SentReading(states, events, i, j, l);
    SentReading(states, events, i, k, l);
    SentReading(states, events, i, l, l);
  }
}
