/** The shared store: one key space for buckets, windows and counters, and what each atomic
    command does to it. */
module Keyspace {
  import opened Prelude
  import Bucket = TokenBucket
  import BucketExpiry = TokenBucketExpiry
  import Window = SlidingWindow
  import WindowExpiry = SlidingWindowExpiry

  datatype Value =
    | Hash(tokens: int, lastRefill: int)
    | SortedSet(members: set<int>)
    | Number(n: int)

  datatype Entry = Entry(value: Value, deadline: Option<int>)

  type Db = map<string, Entry>

  function At(db: Db, key: string): Option<Entry> {
    if key in db then Some(db[key]) else None
  }

  function Put(db: Db, key: string, e: Option<Entry>): Db {
    if e.Some? then db[key := e.value] else db - {key}
  }

  /** An entry past its deadline reads as absent. */
  function Live(e: Option<Entry>, clock: int): Option<Entry> {
    if e.Some? && (e.value.deadline.None? || clock <= e.value.deadline.value) then e else None
  }

  // ---- The commands the service sends ----

  datatype Stat = TotalRequests | AllowedRequests | BlockedRequests | TotalLatency

  /** One atomic command: a run of one of the two scripts, the pruning statement of the window
      observer, or one increment of a statistics pipeline. */
  datatype Command =
    | TakeToken(user: string, bucketCall: Bucket.Call, clock: int)
    | SlideWindow(user: string, windowCall: Window.Call, clock: int)
    | PruneWindow(user: string, now: int, windowSize: int, clock: int)
    | Increment(stat: Stat, amount: int, clock: int)

  function BucketKey(user: string): string {
    "tb:" + user
  }

  function WindowKey(user: string): string {
    "sw:" + user
  }

  function StatKey(stat: Stat): string {
    match stat
    case TotalRequests => "throttl:stats:total_requests"
    case AllowedRequests => "throttl:stats:allowed_requests"
    case BlockedRequests => "throttl:stats:blocked_requests"
    case TotalLatency => "throttl:stats:total_latency_ms"
  }

  function KeyOf(cmd: Command): string {
    match cmd
    case TakeToken(user, _, _) => BucketKey(user)
    case SlideWindow(user, _, _) => WindowKey(user)
    case PruneWindow(user, _, _, _) => WindowKey(user)
    case Increment(stat, _, _) => StatKey(stat)
  }

  datatype Reply = Verdict(allowed: bool) | Done | WrongType

  /** The stored bucket, absent when the key is absent or expired. */
  function BucketIn(e: Option<Entry>): Option<Bucket.Bucket> {
    if e.Some? && e.value.value.Hash?
    then Some(Bucket.Bucket(e.value.value.tokens, e.value.value.lastRefill)) else None
  }

  function MembersIn(e: Option<Entry>): set<int> {
    if e.Some? && e.value.value.SortedSet? then e.value.value.members else {}
  }

  /** A missing counter reads as zero. */
  function NumberIn(e: Option<Entry>): int {
    if e.Some? && e.value.value.Number? then e.value.value.n else 0
  }

  /** Whether the command finds its key absent or holding the type it works on. */
  predicate RightType(e: Option<Entry>, cmd: Command) {
    e.None? ||
    match cmd
    case TakeToken(_, _, _) => e.value.value.Hash?
    case SlideWindow(_, _, _) => e.value.value.SortedSet?
    case PruneWindow(_, _, _, _) => e.value.value.SortedSet?
    case Increment(_, _, _) => e.value.value.Number?
  }

  /** A sorted set is stored only while it has members. */
  function SetEntry(members: set<int>, deadline: Option<int>): Option<Entry> {
    if members == {} then None else Some(Entry(SortedSet(members), deadline))
  }

  /** What the command leaves under its key, given what was there. */
  function EntryAfter(e: Option<Entry>, cmd: Command): Option<Entry> {
    var live := Live(e, cmd.clock);
    if !RightType(live, cmd) then e else
      match cmd
      case TakeToken(_, call, clock) =>
        var b := Bucket.Next(BucketIn(live), call);
        Some(Entry(Hash(b.tokens, b.lastRefill), Some(clock + 1000 * BucketExpiry.BUCKET_TTL)))
      case SlideWindow(_, call, clock) =>
        var ttl := call.windowSize + WindowExpiry.WINDOW_SLACK;
        if ttl <= 0 then None
        else SetEntry(Window.Next(MembersIn(live), call), Some(clock + 1000 * ttl))
      case PruneWindow(_, now, windowSize, _) =>
        if live.None? then None
        else SetEntry(Window.Pruned(MembersIn(live), now - 1000 * windowSize), live.value.deadline)
      case Increment(_, amount, _) =>
        Some(if live.None? then Entry(Number(amount), None)
             else Entry(Number(NumberIn(live) + amount), live.value.deadline))
  }

  function ReplyTo(e: Option<Entry>, cmd: Command): Reply {
    var live := Live(e, cmd.clock);
    if !RightType(live, cmd) then WrongType else
      match cmd
      case TakeToken(_, call, _) => Verdict(Bucket.Admits(BucketIn(live), call))
      case SlideWindow(_, call, _) => Verdict(Window.Admits(MembersIn(live), call))
      case PruneWindow(_, _, _, _) => Done
      case Increment(_, _, _) => Done
  }

  // ---- Runs ----

  /** The key space after a log of commands on an empty store. */
  function Replay(log: seq<Command>): Db {
    if log == [] then map[] else
      var n := |log| - 1;
      var db := Replay(log[..n]);
      Put(db, KeyOf(log[n]), EntryAfter(At(db, KeyOf(log[n])), log[n]))
  }

  /** The reply the next command gets from a store that executed the log. */
  function ReplyOn(log: seq<Command>, cmd: Command): Reply {
    ReplyTo(At(Replay(log), KeyOf(cmd)), cmd)
  }

  /** A limiter run whose verdict is positive. */
  predicate Grants(log: seq<Command>, cmd: Command) {
    ReplyOn(log, cmd) == Verdict(true)
  }

  /** The commands on one key, in order. */
  function OnKey(log: seq<Command>, key: string): seq<Command> {
    if log == [] then [] else
      var n := |log| - 1;
      OnKey(log[..n], key) + (if KeyOf(log[n]) == key then [log[n]] else [])
  }

  /** The replies the commands on one key received within the whole log. */
  function RepliesOnKey(log: seq<Command>, key: string): seq<Reply> {
    if log == [] then [] else
      var n := |log| - 1;
      RepliesOnKey(log[..n], key)
      + (if KeyOf(log[n]) == key then [ReplyTo(At(Replay(log[..n]), key), log[n])] else [])
  }

  lemma {:induction false} ReplaySnoc(log: seq<Command>, cmd: Command)
    ensures Replay(log + [cmd]) == Put(Replay(log), KeyOf(cmd), EntryAfter(At(Replay(log), KeyOf(cmd)), cmd))
  {
    assert (log + [cmd])[..|log|] == log;
  }

  lemma {:induction false} OnKeySnoc(log: seq<Command>, cmd: Command, key: string)
    ensures OnKey(log + [cmd], key) == if KeyOf(cmd) == key then OnKey(log, key) + [cmd] else OnKey(log, key)
    ensures RepliesOnKey(log + [cmd], key) ==
            if KeyOf(cmd) == key then RepliesOnKey(log, key) + [ReplyTo(At(Replay(log), key), cmd)]
            else RepliesOnKey(log, key)
  {
    assert (log + [cmd])[..|log|] == log;
  }

  /** Projection: whatever else runs in between, the entry under a key and the replies to its
      commands are those of running that key's commands alone. */
  lemma {:induction false} KeysAreIndependent(log: seq<Command>, key: string)
    ensures At(Replay(log), key) == At(Replay(OnKey(log, key)), key)
    ensures RepliesOnKey(log, key) == RepliesOnKey(OnKey(log, key), key)
  {
    if log != [] {
      var n := |log| - 1;
      var front, cmd := log[..n], log[n];
      assert log == front + [cmd];
      KeysAreIndependent(front, key);
      ReplaySnoc(front, cmd);
      OnKeySnoc(front, cmd, key);
      if KeyOf(cmd) == key {
        ReplaySnoc(OnKey(front, key), cmd);
        OnKeySnoc(OnKey(front, key), cmd, key);
      }
    }
  }

  // ---- Keys of different users, algorithms and counters are different ----

  lemma {:induction false} BucketKeyIs(cmd: Command, user: string)
    ensures KeyOf(cmd) == BucketKey(user) <==> cmd.TakeToken? && cmd.user == user
  {
    assert BucketKey(user)[3..] == user && BucketKey(user)[0] == 't' && BucketKey(user)[1] == 'b';
    match cmd
    case TakeToken(other, _, _) => assert BucketKey(other)[3..] == other;
    case SlideWindow(other, _, _) => assert WindowKey(other)[0] == 's';
    case PruneWindow(other, _, _, _) => assert WindowKey(other)[0] == 's';
    case Increment(stat, _, _) => assert StatKey(stat)[1] == 'h';
  }

  lemma {:induction false} WindowKeyIs(cmd: Command, user: string)
    ensures KeyOf(cmd) == WindowKey(user) <==> (cmd.SlideWindow? || cmd.PruneWindow?) && cmd.user == user
  {
    assert WindowKey(user)[3..] == user && WindowKey(user)[0] == 's';
    match cmd
    case TakeToken(other, _, _) => assert BucketKey(other)[0] == 't';
    case SlideWindow(other, _, _) => assert WindowKey(other)[3..] == other;
    case PruneWindow(other, _, _, _) => assert WindowKey(other)[3..] == other;
    case Increment(stat, _, _) => assert StatKey(stat)[0] == 't';
  }

  lemma {:induction false} StatKeyIs(cmd: Command, stat: Stat)
    ensures KeyOf(cmd) == StatKey(stat) <==> cmd.Increment? && cmd.stat == stat
  {
    assert StatKey(stat)[0] == 't' && StatKey(stat)[1] == 'h';
    match cmd
    case TakeToken(other, _, _) => assert BucketKey(other)[1] == 'b';
    case SlideWindow(other, _, _) => assert WindowKey(other)[0] == 's';
    case PruneWindow(other, _, _, _) => assert WindowKey(other)[0] == 's';
    case Increment(other, _, _) => StatKeysDiffer(stat, other);
  }

  lemma {:induction false} StatKeysDiffer(a: Stat, b: Stat)
    ensures StatKey(a) == StatKey(b) <==> a == b
  {
    assert forall s: Stat ::
        StatKey(s)[14] == if s.AllowedRequests? then 'a' else if s.BlockedRequests? then 'b' else 't';
    assert StatKey(TotalRequests)[20] == 'r' && StatKey(TotalLatency)[20] == 'l';
  }

  // ---- The limiters seen through the key space ----

  /** One user's token-bucket calls, in order. */
  function BucketCalls(log: seq<Command>, user: string): seq<BucketExpiry.TimedCall> {
    if log == [] then [] else
      var n := |log| - 1;
      BucketCalls(log[..n], user)
      + (if log[n].TakeToken? && log[n].user == user
         then [BucketExpiry.TimedCall(log[n].bucketCall, log[n].clock)] else [])
  }

  /** One user's sliding-window calls, in order. */
  function WindowCalls(log: seq<Command>, user: string): seq<WindowExpiry.TimedCall> {
    if log == [] then [] else
      var n := |log| - 1;
      WindowCalls(log[..n], user)
      + (if log[n].SlideWindow? && log[n].user == user
         then [WindowExpiry.TimedCall(log[n].windowCall, log[n].clock)] else [])
  }

  function Verdicts(d: seq<bool>): (r: seq<Reply>)
    ensures |r| == |d|
  {
    if d == [] then [] else Verdicts(d[..|d| - 1]) + [Verdict(d[|d| - 1])]
  }

  lemma {:induction false} VerdictsSnoc(d: seq<bool>, x: bool)
    ensures Verdicts(d + [x]) == Verdicts(d) + [Verdict(x)]
  {
    assert (d + [x])[..|d|] == d;
  }

  lemma {:induction false} VerdictAt(d: seq<bool>, k: nat)
    requires k < |d|
    ensures Verdicts(d)[k] == Verdict(d[k])
    decreases |d|
  {
    if k < |d| - 1 {
      VerdictAt(d[..|d| - 1], k);
    }
  }

  function BucketEntry(s: Option<BucketExpiry.Kept>): Option<Entry> {
    match s
    case None => None
    case Some(kept) => Some(Entry(Hash(kept.bucket.tokens, kept.bucket.lastRefill), Some(kept.deadline)))
  }

  function WindowEntry(s: Option<WindowExpiry.Kept>): Option<Entry> {
    match s
    case None => None
    case Some(kept) => SetEntry(kept.members, Some(kept.deadline))
  }

  lemma {:induction false} BucketStep(s: Option<BucketExpiry.Kept>, user: string, tc: BucketExpiry.TimedCall)
    ensures var cmd := TakeToken(user, tc.call, tc.clock);
            && EntryAfter(BucketEntry(s), cmd) == BucketEntry(Some(BucketExpiry.KeptNext(s, tc)))
            && ReplyTo(BucketEntry(s), cmd) == Verdict(Bucket.Admits(BucketExpiry.Live(s, tc.clock), tc.call))
  {
  }

  lemma {:induction false} WindowStep(s: Option<WindowExpiry.Kept>, user: string, tc: WindowExpiry.TimedCall)
    requires s.Some? ==> s.value.members != {}
    ensures var cmd := SlideWindow(user, tc.call, tc.clock);
            && EntryAfter(WindowEntry(s), cmd) == WindowEntry(WindowExpiry.KeptNext(s, tc))
            && ReplyTo(WindowEntry(s), cmd) == Verdict(Window.Admits(WindowExpiry.Live(s, tc.clock), tc.call))
  {
  }

  lemma {:induction false} CallsSnoc(log: seq<Command>, cmd: Command, user: string)
    ensures BucketCalls(log + [cmd], user) ==
            if cmd.TakeToken? && cmd.user == user
            then BucketCalls(log, user) + [BucketExpiry.TimedCall(cmd.bucketCall, cmd.clock)]
            else BucketCalls(log, user)
    ensures WindowCalls(log + [cmd], user) ==
            if cmd.SlideWindow? && cmd.user == user
            then WindowCalls(log, user) + [WindowExpiry.TimedCall(cmd.windowCall, cmd.clock)]
            else WindowCalls(log, user)
  {
    assert (log + [cmd])[..|log|] == log;
  }

  /** In every interleaving of commands of all users and both algorithms, one user's token-bucket
      decisions are those of one bucket run on that user's token-bucket calls alone. In particular
      the script never meets a value of the wrong type. */
  lemma {:induction false} BucketOfUser(log: seq<Command>, user: string)
    ensures At(Replay(log), BucketKey(user)) == BucketEntry(BucketExpiry.KeptState(BucketCalls(log, user)))
    ensures RepliesOnKey(log, BucketKey(user)) == Verdicts(BucketExpiry.KeptDecisions(BucketCalls(log, user)))
  {
    if log != [] {
      var n := |log| - 1;
      var front, cmd := log[..n], log[n];
      assert log == front + [cmd];
      BucketOfUser(front, user);
      BucketKeyIs(cmd, user);
      ReplaySnoc(front, cmd);
      OnKeySnoc(front, cmd, BucketKey(user));
      CallsSnoc(front, cmd, user);
      if KeyOf(cmd) == BucketKey(user) {
        var calls, tc := BucketCalls(front, user), BucketExpiry.TimedCall(cmd.bucketCall, cmd.clock);
        BucketStep(BucketExpiry.KeptState(calls), user, tc);
        BucketExpiry.KeptSnoc(calls, tc);
        VerdictsSnoc(BucketExpiry.KeptDecisions(calls),
                     Bucket.Admits(BucketExpiry.Live(BucketExpiry.KeptState(calls), tc.clock), tc.call));
      }
    }
  }

  /** One user's sliding-window calls and observations, in order. */
  function WindowEvents(log: seq<Command>, user: string): seq<WindowExpiry.Event> {
    if log == [] then [] else
      var n := |log| - 1;
      WindowEvents(log[..n], user)
      + (match log[n]
         case SlideWindow(u, call, clock) =>
           if u == user then [WindowExpiry.Request(WindowExpiry.TimedCall(call, clock))] else []
         case PruneWindow(u, now, windowSize, clock) =>
           if u == user then [WindowExpiry.Observe(now, windowSize, clock)] else []
         case _ => [])
  }

  /** The replies of one window run on its own events. */
  function EventReplies(events: seq<WindowExpiry.Event>): seq<Reply> {
    if events == [] then [] else
      var n := |events| - 1;
      EventReplies(events[..n])
      + [match events[n]
         case Request(tc) =>
           Verdict(Window.Admits(WindowExpiry.Live(WindowExpiry.EventState(events[..n]), tc.clock), tc.call))
         case Observe(_, _, _) => Done]
  }

  lemma {:induction false} EventRepliesSnoc(events: seq<WindowExpiry.Event>, e: WindowExpiry.Event)
    ensures EventReplies(events + [e]) == EventReplies(events) +
              [if e.Request?
               then Verdict(Window.Admits(WindowExpiry.Live(WindowExpiry.EventState(events), e.tc.clock), e.tc.call))
               else Done]
  {
    assert (events + [e])[..|events|] == events;
  }

  lemma {:induction false} WindowEventsSnoc(log: seq<Command>, cmd: Command, user: string)
    ensures WindowEvents(log + [cmd], user) ==
            if cmd.SlideWindow? && cmd.user == user
            then WindowEvents(log, user) + [WindowExpiry.Request(WindowExpiry.TimedCall(cmd.windowCall, cmd.clock))]
            else if cmd.PruneWindow? && cmd.user == user
            then WindowEvents(log, user) + [WindowExpiry.Observe(cmd.now, cmd.windowSize, cmd.clock)]
            else WindowEvents(log, user)
  {
    assert (log + [cmd])[..|log|] == log;
  }

  lemma {:induction false} PruneStep(s: Option<WindowExpiry.Kept>, user: string, now: int, windowSize: int, clock: int)
    requires s.Some? ==> s.value.members != {}
    ensures var cmd := PruneWindow(user, now, windowSize, clock);
            && EntryAfter(WindowEntry(s), cmd)
               == WindowEntry(WindowExpiry.ObservedNext(s, now - 1000 * windowSize, clock))
            && ReplyTo(WindowEntry(s), cmd) == Done
  {
    assert Window.Pruned({}, now - 1000 * windowSize) == {};
  }

  /** In every interleaving, what one user's window key holds and how its commands are answered are
      those of one window run on that user's window calls and observations alone. */
  lemma {:induction false} WindowOfUser(log: seq<Command>, user: string)
    ensures At(Replay(log), WindowKey(user)) == WindowEntry(WindowExpiry.EventState(WindowEvents(log, user)))
    ensures RepliesOnKey(log, WindowKey(user)) == EventReplies(WindowEvents(log, user))
  {
    if log != [] {
      var n := |log| - 1;
      var front, cmd := log[..n], log[n];
      assert log == front + [cmd];
      WindowOfUser(front, user);
      WindowKeyIs(cmd, user);
      ReplaySnoc(front, cmd);
      OnKeySnoc(front, cmd, WindowKey(user));
      WindowEventsSnoc(front, cmd, user);
      if KeyOf(cmd) == WindowKey(user) && cmd.SlideWindow? {
        RequestStep(WindowEvents(front, user), cmd);
      } else if KeyOf(cmd) == WindowKey(user) {
        ObserveStep(WindowEvents(front, user), cmd);
      }
    }
  }

  lemma {:induction false} RequestStep(events: seq<WindowExpiry.Event>, cmd: Command)
    requires cmd.SlideWindow?
    ensures var s := WindowExpiry.EventState(events);
            var e := WindowExpiry.Request(WindowExpiry.TimedCall(cmd.windowCall, cmd.clock));
            && EntryAfter(WindowEntry(s), cmd) == WindowEntry(WindowExpiry.EventState(events + [e]))
            && EventReplies(events + [e]) == EventReplies(events) + [ReplyTo(WindowEntry(s), cmd)]
  {
    var tc := WindowExpiry.TimedCall(cmd.windowCall, cmd.clock);
    WindowExpiry.EventNotEmpty(events);
    WindowStep(WindowExpiry.EventState(events), cmd.user, tc);
    WindowExpiry.EventSnoc(events, WindowExpiry.Request(tc));
    EventRepliesSnoc(events, WindowExpiry.Request(tc));
  }

  lemma {:induction false} ObserveStep(events: seq<WindowExpiry.Event>, cmd: Command)
    requires cmd.PruneWindow?
    ensures var s := WindowExpiry.EventState(events);
            var e := WindowExpiry.Observe(cmd.now, cmd.windowSize, cmd.clock);
            && EntryAfter(WindowEntry(s), cmd) == WindowEntry(WindowExpiry.EventState(events + [e]))
            && EventReplies(events + [e]) == EventReplies(events) + [ReplyTo(WindowEntry(s), cmd)]
  {
    WindowExpiry.EventNotEmpty(events);
    PruneStep(WindowExpiry.EventState(events), cmd.user, cmd.now, cmd.windowSize, cmd.clock);
    WindowExpiry.EventSnoc(events, WindowExpiry.Observe(cmd.now, cmd.windowSize, cmd.clock));
    EventRepliesSnoc(events, WindowExpiry.Observe(cmd.now, cmd.windowSize, cmd.clock));
  }

  predicate Unobserved(log: seq<Command>, user: string) {
    forall k :: 0 <= k < |log| ==> !(log[k].PruneWindow? && log[k].user == user)
  }

  /** Without observations these are the decisions of one expiring window on that user's calls. */
  lemma {:induction false} UnobservedWindowOfUser(log: seq<Command>, user: string)
    requires Unobserved(log, user)
    ensures At(Replay(log), WindowKey(user)) == WindowEntry(WindowExpiry.KeptState(WindowCalls(log, user)))
    ensures RepliesOnKey(log, WindowKey(user)) == Verdicts(WindowExpiry.KeptDecisions(WindowCalls(log, user)))
  {
    if log != [] {
      var n := |log| - 1;
      var front, cmd := log[..n], log[n];
      assert log == front + [cmd];
      UnobservedWindowOfUser(front, user);
      WindowKeyIs(cmd, user);
      ReplaySnoc(front, cmd);
      OnKeySnoc(front, cmd, WindowKey(user));
      CallsSnoc(front, cmd, user);
      if KeyOf(cmd) == WindowKey(user) {
        var calls, tc := WindowCalls(front, user), WindowExpiry.TimedCall(cmd.windowCall, cmd.clock);
        WindowExpiry.KeptNotEmpty(calls);
        WindowStep(WindowExpiry.KeptState(calls), user, tc);
        WindowExpiry.KeptSnoc(calls, tc);
        VerdictsSnoc(WindowExpiry.KeptDecisions(calls),
                     Window.Admits(WindowExpiry.Live(WindowExpiry.KeptState(calls), tc.clock), tc.call));
      }
    }
  }

  // ---- Types ----

  /** Every key a command uses holds the type that command works on, or nothing. */
  predicate WellTyped(db: Db, cmd: Command) {
    RightType(At(db, KeyOf(cmd)), cmd)
  }

  lemma {:induction false} TypesAgree(e: Option<Entry>, cmd: Command, other: Command)
    requires KeyOf(cmd) == KeyOf(other) && RightType(e, cmd)
    ensures RightType(EntryAfter(e, other), cmd) && RightType(e, other)
  {
    match cmd
    case TakeToken(user, _, _) => BucketKeyIs(other, user);
    case SlideWindow(user, _, _) => WindowKeyIs(other, user);
    case PruneWindow(user, _, _, _) => WindowKeyIs(other, user);
    case Increment(stat, _, _) => StatKeyIs(other, stat);
  }

  /** No command of any log meets a key of the wrong type. */
  lemma {:induction false} NeverWrongType(log: seq<Command>, cmd: Command)
    ensures WellTyped(Replay(log), cmd)
    ensures ReplyOn(log, cmd) != WrongType
  {
    if log != [] {
      var n := |log| - 1;
      var front, last := log[..n], log[n];
      assert log == front + [last];
      NeverWrongType(front, cmd);
      ReplaySnoc(front, last);
      if KeyOf(last) == KeyOf(cmd) {
        TypesAgree(At(Replay(front), KeyOf(cmd)), cmd, last);
      }
    }
  }
}
