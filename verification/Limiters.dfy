/** The limiters as the service has them: objects that share one store and run their scripts on
    it command by command. */
module Limiters {
  import opened Prelude
  import opened Keyspace
  import Database
  import Bucket = TokenBucket
  import BucketExpiry = TokenBucketExpiry
  import Window = SlidingWindow
  import WindowExpiry = SlidingWindowExpiry

  /** What the service gets back when it sends a command to the store: an answer, or an error before
      or after the store executed the command. A limiter's error is an absent answer. */
  datatype StoreFault = NoFault | NotExecuted | ReplyLost

  /** The shared store. `db` is what it holds; `log` records the commands it has executed. A script
      runs at one instant `clock` of the store's clock. */
  class Redis {
    var db: Db
    ghost var log: seq<Command>

    /** What the store holds is determined by the commands it executed. */
    ghost predicate Valid()
      reads this
    {
      db == Replay(log)
    }

    constructor ()
      ensures Valid() && log == []
    {
      db, log := map[], [];
    }

    function Find(key: string, clock: int): Option<Entry>
      reads this
    {
      Keyspace.Live(At(db, key), clock)
    }

    function Deadline(key: string, clock: int): Option<int>
      reads this
    {
      DeadlineIn(Find(key, clock))
    }

    /** HMGET key tokens last_refill. Fails on a value that is not a hash. */
    method HMGet(key: string, clock: int) returns (ok: bool, tokens: Option<int>, lastRefill: Option<int>)
      ensures ok <==> Find(key, clock).None? || Find(key, clock).value.value.Hash?
      ensures ok && Find(key, clock).Some? ==>
                tokens == Some(Find(key, clock).value.value.tokens) &&
                lastRefill == Some(Find(key, clock).value.value.lastRefill)
      ensures Find(key, clock).None? ==> tokens == None && lastRefill == None
    {
      ok, tokens, lastRefill := true, None, None;
      var e := Find(key, clock);
      if e.Some? {
        match e.value.value {
          case Hash(t, l) => tokens, lastRefill := Some(t), Some(l);
          case _ => ok := false;
        }
      }
    }

    /** HMSET key tokens .. last_refill .. keeps a running time to live. */
    method HMSet(key: string, tokens: int, lastRefill: int, clock: int)
      requires Find(key, clock).Some? ==> Find(key, clock).value.value.Hash?
      modifies this`db
      ensures db == Put(old(db), key, Some(Entry(Hash(tokens, lastRefill), old(Deadline(key, clock)))))
    {
      db := Put(db, key, Some(Entry(Hash(tokens, lastRefill), Deadline(key, clock))));
    }

    /** EXPIRE key seconds. Does nothing to a missing key and deletes on a non-positive time. */
    method Expire(key: string, seconds: int, clock: int)
      modifies this`db
      ensures old(Find(key, clock)).None? ==> db == old(db)
      ensures old(Find(key, clock)).Some? ==>
                db == Put(old(db), key,
                          if seconds <= 0 then None
                          else Some(old(Find(key, clock)).value.(deadline := Some(clock + 1000 * seconds))))
    {
      var e := Find(key, clock);
      if e.Some? {
        db := Put(db, key, if seconds <= 0 then None
                           else Some(e.value.(deadline := Some(clock + 1000 * seconds))));
      }
    }

    /** ZREMRANGEBYSCORE key -inf max. Drops an emptied or expired key. Fails on a value that is not
        a sorted set. */
    method ZRemRangeByScore(key: string, max: int, clock: int) returns (ok: bool)
      modifies this`db
      ensures ok <==> old(Find(key, clock)).None? || old(Find(key, clock)).value.value.SortedSet?
      ensures !ok ==> db == old(db)
      ensures ok ==> db == Put(old(db), key,
                               SetEntry(Window.Pruned(MembersIn(old(Find(key, clock))), max),
                                        old(Deadline(key, clock))))
    {
      var e := Find(key, clock);
      ok := e.None? || e.value.value.SortedSet?;
      if ok {
        db := Put(db, key, SetEntry(Window.Pruned(MembersIn(e), max), Deadline(key, clock)));
      }
    }

    /** ZCARD key. */
    method ZCard(key: string, clock: int) returns (n: int)
      requires Find(key, clock).Some? ==> Find(key, clock).value.value.SortedSet?
      ensures n == |MembersIn(Find(key, clock))|
    {
      n := |MembersIn(Find(key, clock))|;
    }

    /** ZADD key score member with the member equal to its score. */
    method ZAdd(key: string, score: int, clock: int)
      requires Find(key, clock).Some? ==> Find(key, clock).value.value.SortedSet?
      modifies this`db
      ensures db == Put(old(db), key, SetEntry(MembersIn(old(Find(key, clock))) + {score}, old(Deadline(key, clock))))
    {
      db := Put(db, key, SetEntry(MembersIn(Find(key, clock)) + {score}, Deadline(key, clock)));
    }

    /** One command of anybody, executed by the store. */
    method Execute(cmd: Command)
      requires Valid()
      modifies this
      ensures Valid() && log == old(log) + [cmd]
    {
      ReplaySnoc(log, cmd);
      db := Put(db, KeyOf(cmd), EntryAfter(At(db, KeyOf(cmd)), cmd));
      log := log + [cmd];
    }

    /** What the store does for others between two commands of one caller. */
    method Serve(others: seq<Command>)
      requires Valid()
      modifies this
      ensures Valid() && log == old(log) + others
    {
      for i := 0 to |others|
        invariant Valid() && log == old(log) + others[..i]
      {
        OneMoreOther(old(log), others, i);
        Execute(others[i]);
      }
    }

    /** One increment of a statistics counter. */
    method IncrBy(stat: Stat, amount: int, clock: int)
      requires Valid()
      modifies this
      ensures Valid() && log == old(log) + [Increment(stat, amount, clock)]
    {
      Execute(Increment(stat, amount, clock));
    }

    /** GET of a statistics counter; a missing counter reads as zero. */
    method GetStat(stat: Stat, clock: int) returns (n: int)
      requires Valid()
      ensures n == NumberIn(Keyspace.Live(At(Replay(log), StatKey(stat)), clock))
    {
      ghost var probe := Increment(stat, 0, clock);
      NeverWrongType(log, probe);
      n := NumberIn(Find(StatKey(stat), clock));
    }
  }

  lemma {:induction false} OneMoreOther(log: seq<Command>, others: seq<Command>, i: nat)
    requires i < |others|
    ensures log + others[..i] + [others[i]] == log + others[..i + 1]
  {
  }

  /** What the window script leaves of a set once its time to live is set. */
  function WindowLeft(members: set<int>, windowSize: int, clock: int): Option<Entry> {
    var ttl := windowSize + WindowExpiry.WINDOW_SLACK;
    if ttl <= 0 then None else SetEntry(members, Some(clock + 1000 * ttl))
  }

  /** Only the last write to a key counts. */
  lemma {:induction false} PutTwice(before: Db, between: Db, after: Db, key: string)
    requires between == Put(before, key, At(between, key)) && after == Put(between, key, At(after, key))
    ensures after == Put(before, key, At(after, key))
  {
  }

  lemma {:induction false} BucketScriptEffect(e: Option<Entry>, cmd: Command)
    requires cmd.TakeToken? && RightType(e, cmd)
    ensures var b := BucketIn(Keyspace.Live(e, cmd.clock));
            && EntryAfter(e, cmd) == Some(Entry(Hash(Bucket.Next(b, cmd.bucketCall).tokens, cmd.bucketCall.now),
                                                Some(cmd.clock + 1000 * BucketExpiry.BUCKET_TTL)))
            && ReplyTo(e, cmd) == Verdict(Bucket.Admits(b, cmd.bucketCall))
  {
  }

  lemma {:induction false} PruneEffect(e: Option<Entry>, cmd: Command)
    requires cmd.PruneWindow? && RightType(e, cmd)
    ensures var live := Keyspace.Live(e, cmd.clock);
            EntryAfter(e, cmd)
            == SetEntry(Window.Pruned(MembersIn(live), cmd.now - 1000 * cmd.windowSize), DeadlineIn(live))
  {
  }

  /** How many of the user's members lie after the window start. */
  function CountIn(log: seq<Command>, user: string, windowStart: int, clock: int): nat {
    |Window.Pruned(MembersIn(Keyspace.Live(At(Replay(log), WindowKey(user)), clock)), windowStart)|
  }

  lemma {:induction false} CountIsCompared(log: seq<Command>, user: string, call: Window.Call, clock: int)
    ensures ReplyOn(log, SlideWindow(user, call, clock))
            == Verdict(CountIn(log, user, Window.WindowStart(call), clock) < call.capacity)
  {
    NeverWrongType(log, SlideWindow(user, call, clock));
    WindowScriptEffect(At(Replay(log), WindowKey(user)), SlideWindow(user, call, clock));
  }

  /** The count decides a request with that window, whatever its capacity. */
  ghost predicate Decides(count: nat, log: seq<Command>, user: string, now: int, windowSize: int, clock: int) {
    forall capacity ::
      ReplyOn(log, SlideWindow(user, Window.Call(now, capacity, windowSize), clock)) == Verdict(count < capacity)
  }

  lemma {:induction false} CountDecides(log: seq<Command>, user: string, now: int, windowSize: int, clock: int)
    ensures Decides(CountIn(log, user, now - 1000 * windowSize, clock), log, user, now, windowSize, clock)
  {
    forall capacity
      ensures ReplyOn(log, SlideWindow(user, Window.Call(now, capacity, windowSize), clock))
              == Verdict(CountIn(log, user, now - 1000 * windowSize, clock) < capacity)
    {
      CountIsCompared(log, user, Window.Call(now, capacity, windowSize), clock);
    }
  }

  lemma {:induction false} OwnKeyAfter(log: seq<Command>, cmd: Command)
    ensures At(Replay(log + [cmd]), KeyOf(cmd)) == EntryAfter(At(Replay(log), KeyOf(cmd)), cmd)
  {
    ReplaySnoc(log, cmd);
  }

  /** What the pruning leaves: the key with its deadline, when anything is left in it. */
  lemma {:induction false} AfterPrune(log: seq<Command>, user: string, now: int, windowSize: int, clock: int)
    ensures var before := Keyspace.Live(At(Replay(log), WindowKey(user)), clock);
            var after := At(Replay(log + [PruneWindow(user, now, windowSize, clock)]), WindowKey(user));
            after == SetEntry(Window.Pruned(MembersIn(before), now - 1000 * windowSize), DeadlineIn(before))
  {
    var cmd := PruneWindow(user, now, windowSize, clock);
    OwnKeyAfter(log, cmd);
    NeverWrongType(log, cmd);
    PruneEffect(At(Replay(log), WindowKey(user)), cmd);
  }

  lemma {:induction false} OtherLeavesKey(log: seq<Command>, cmd: Command, key: string)
    requires KeyOf(cmd) != key
    ensures At(Replay(log + [cmd]), key) == At(Replay(log), key)
  {
    ReplaySnoc(log, cmd);
  }

  predicate OnOtherKeys(others: seq<Command>, key: string) {
    forall k :: 0 <= k < |others| ==> KeyOf(others[k]) != key
  }

  lemma {:induction false} FirstOfOthers(log: seq<Command>, others: seq<Command>)
    requires others != []
    ensures log + others == log + [others[0]] + others[1..]
  {
  }

  /** Commands on other keys leave the key as it was. */
  lemma {:induction false} OthersLeaveKey(log: seq<Command>, others: seq<Command>, key: string)
    requires OnOtherKeys(others, key)
    ensures At(Replay(log + others), key) == At(Replay(log), key)
    decreases |others|
  {
    if others == [] {
      assert log + others == log;
    } else {
      OtherLeavesKey(log, others[0], key);
      OthersLeaveKey(log + [others[0]], others[1..], key);
      FirstOfOthers(log, others);
    }
  }

  /** Nobody else uses the key before `later`, and it does not expire. */
  ghost predicate Undisturbed(log: seq<Command>, others: seq<Command>, key: string, later: int) {
    OnOtherKeys(others, key) && Keyspace.Live(At(Replay(log), key), later) == At(Replay(log), key)
  }

  /** How many members the key has at `clock`. */
  function SizeAt(log: seq<Command>, key: string, clock: int): nat {
    |MembersIn(Keyspace.Live(At(Replay(log), key), clock))|
  }

  lemma {:induction false} UndisturbedCount(log: seq<Command>, user: string, now: int, windowSize: int, clock: int,
                                            others: seq<Command>, later: int)
    requires Undisturbed(log, others, WindowKey(user), later) && clock <= later
    ensures var count := SizeAt(log + [PruneWindow(user, now, windowSize, clock)] + others, WindowKey(user), later);
            Decides(count, log, user, now, windowSize, clock)
  {
    AfterPrune(log, user, now, windowSize, clock);
    OthersLeaveKey(log + [PruneWindow(user, now, windowSize, clock)], others, WindowKey(user));
    CountDecides(log, user, now, windowSize, clock);
  }

  lemma {:induction false} WindowScriptEffect(e: Option<Entry>, cmd: Command)
    requires cmd.SlideWindow? && RightType(e, cmd)
    ensures var kept := Window.Pruned(MembersIn(Keyspace.Live(e, cmd.clock)), Window.WindowStart(cmd.windowCall));
            var admits := |kept| < cmd.windowCall.capacity;
            && EntryAfter(e, cmd) == WindowLeft(if admits then kept + {cmd.windowCall.now} else kept,
                                                cmd.windowCall.windowSize, cmd.clock)
            && ReplyTo(e, cmd) == Verdict(admits)
  {
  }

  function DeadlineIn(e: Option<Entry>): Option<int> {
    if e.Some? then e.value.deadline else None
  }

  class TokenBucketLimiter {
    const redis: Redis

    constructor (redis: Redis)
      ensures this.redis == redis
    {
      this.redis := redis;
    }

    /** The bucket script, statement by statement; replies 1 or 0. */
    method Eval(key: string, capacity: int, refillRate: int, now: int, clock: int) returns (reply: int)
      requires redis.Find(key, clock).Some? ==> redis.Find(key, clock).value.value.Hash?
      modifies redis`db
      ensures var b := BucketIn(old(redis.Find(key, clock)));
              var call := Bucket.Call(now, capacity, refillRate);
              && redis.db == Put(old(redis.db), key, Some(Entry(Hash(Bucket.Next(b, call).tokens, now),
                                                               Some(clock + 1000 * BucketExpiry.BUCKET_TTL))))
              && reply == if Bucket.Admits(b, call) then 1 else 0
    {
      var ok, storedTokens, storedRefill := redis.HMGet(key, clock);
      var tokens := if storedTokens.Some? then storedTokens.value else capacity;
      var lastRefill := if storedRefill.Some? then storedRefill.value else now;

      var elapsed := Max(0, now - lastRefill);
      var tokensToAdd := elapsed * refillRate;
      tokens := Min(capacity, tokens + tokensToAdd);
      assert tokens == Bucket.Refilled(BucketIn(redis.Find(key, clock)), Bucket.Call(now, capacity, refillRate));

      if tokens < 1 {
        Store(key, tokens, now, clock);
        return 0;
      }
      tokens := tokens - 1;
      Store(key, tokens, now, clock);
      return 1;
    }

    /** The two statements that end both branches of the script. */
    method Store(key: string, tokens: int, now: int, clock: int)
      requires redis.Find(key, clock).Some? ==> redis.Find(key, clock).value.value.Hash?
      modifies redis`db
      ensures redis.db == Put(old(redis.db), key,
                              Some(Entry(Hash(tokens, now), Some(clock + 1000 * BucketExpiry.BUCKET_TTL))))
    {
      redis.HMSet(key, tokens, now, clock);
      redis.Expire(key, BucketExpiry.BUCKET_TTL, clock);
    }

    /** One atomic run of the script on the user's bucket. */
    method AllowRequest(userID: string, capacity: int, refillRate: int, now: int, clock: int, fault: StoreFault)
      returns (allowed: Option<bool>)
      requires redis.Valid()
      modifies redis
      ensures redis.Valid()
      ensures redis.log == old(redis.log) + (if fault == NotExecuted then []
                           else [TakeToken(userID, Bucket.Call(now, capacity, refillRate), clock)])
      ensures allowed == None <==> fault != NoFault
      ensures allowed.Some? ==>
                && Verdict(allowed.value)
                   == ReplyOn(old(redis.log), TakeToken(userID, Bucket.Call(now, capacity, refillRate), clock))
                && allowed.value
                   == Bucket.Admits(BucketExpiry.Live(BucketExpiry.KeptState(BucketCalls(old(redis.log), userID)),
                                                      clock),
                                    Bucket.Call(now, capacity, refillRate))
    {
      if fault == NotExecuted {
        return None;
      }
      BucketOfUser(redis.log, userID);
      BucketStep(BucketExpiry.KeptState(BucketCalls(redis.log, userID)), userID,
                 BucketExpiry.TimedCall(Bucket.Call(now, capacity, refillRate), clock));
      ghost var cmd := TakeToken(userID, Bucket.Call(now, capacity, refillRate), clock);
      NeverWrongType(redis.log, cmd);
      BucketScriptEffect(At(redis.db, BucketKey(userID)), cmd);
      ReplaySnoc(redis.log, cmd);
      var reply := Eval(BucketKey(userID), capacity, refillRate, now, clock);
      redis.log := redis.log + [cmd];
      allowed := if fault == NoFault then Some(reply == 1) else None;
    }

    /** The stored tokens, for monitoring: zero for a missing bucket, no answer when the read fails. */
    method GetBucketState(userID: string, clock: int, fault: bool) returns (tokens: Option<int>)
      requires redis.Valid()
      ensures tokens == if fault then None
              else Some(BucketExpiry.Reported(BucketExpiry.KeptState(BucketCalls(redis.log, userID)), clock))
    {
      if fault {
        return None;
      }
      BucketOfUser(redis.log, userID);
      var e := redis.Find(BucketKey(userID), clock);
      tokens := Some(if e.Some? then e.value.value.tokens else 0);
    }
  }

  class SlidingWindowLimiter {
    const redis: Redis

    constructor (redis: Redis)
      ensures this.redis == redis
    {
      this.redis := redis;
    }

    /** The window script, statement by statement; replies 1 or 0. */
    method Eval(key: string, windowStart: int, now: int, capacity: int, windowSize: int, clock: int)
      returns (reply: int)
      requires redis.Find(key, clock).Some? ==> redis.Find(key, clock).value.value.SortedSet?
      modifies redis`db
      ensures var kept := Window.Pruned(MembersIn(old(redis.Find(key, clock))), windowStart);
              var left := if |kept| < capacity then kept + {now} else kept;
              && redis.db == Put(old(redis.db), key, WindowLeft(left, windowSize, clock))
              && reply == if |kept| < capacity then 1 else 0
    {
      ghost var kept := Window.Pruned(MembersIn(redis.Find(key, clock)), windowStart);
      var ok := redis.ZRemRangeByScore(key, windowStart, clock);
      ghost var pruned := redis.db;
      assert MembersIn(redis.Find(key, clock)) == kept;
      var currentCount := redis.ZCard(key, clock);
      if currentCount >= capacity {
        Refuse(key, windowSize, clock);
        reply := 0;
      } else {
        Admit(key, now, windowSize, clock);
        reply := 1;
      }
      PutTwice(old(redis.db), pruned, redis.db, key);
    }

    /** The end of the refusing branch. */
    method Refuse(key: string, windowSize: int, clock: int)
      requires At(redis.db, key) == redis.Find(key, clock)
      requires At(redis.db, key) == SetEntry(MembersIn(At(redis.db, key)), redis.Deadline(key, clock))
      modifies redis`db
      ensures redis.db == Put(old(redis.db), key, WindowLeft(MembersIn(old(redis.Find(key, clock))), windowSize, clock))
    {
      redis.Expire(key, windowSize + WindowExpiry.WINDOW_SLACK, clock);
    }

    /** The end of the admitting branch. */
    method Admit(key: string, now: int, windowSize: int, clock: int)
      requires redis.Find(key, clock).Some? ==> redis.Find(key, clock).value.value.SortedSet?
      modifies redis`db
      ensures redis.db == Put(old(redis.db), key,
                              WindowLeft(MembersIn(old(redis.Find(key, clock))) + {now}, windowSize, clock))
    {
      redis.ZAdd(key, now, clock);
      redis.Expire(key, windowSize + WindowExpiry.WINDOW_SLACK, clock);
    }

    /** One atomic run of the script on the user's window. */
    method AllowRequest(userID: string, capacity: int, windowSize: int, now: int, clock: int, fault: StoreFault)
      returns (allowed: Option<bool>)
      requires redis.Valid()
      modifies redis
      ensures redis.Valid()
      ensures redis.log == old(redis.log) + (if fault == NotExecuted then []
                           else [SlideWindow(userID, Window.Call(now, capacity, windowSize), clock)])
      ensures allowed == None <==> fault != NoFault
      ensures allowed.Some? ==>
                Verdict(allowed.value)
                == ReplyOn(old(redis.log), SlideWindow(userID, Window.Call(now, capacity, windowSize), clock))
    {
      if fault == NotExecuted {
        return None;
      }
      ghost var cmd := SlideWindow(userID, Window.Call(now, capacity, windowSize), clock);
      NeverWrongType(redis.log, cmd);
      ReplaySnoc(redis.log, cmd);
      WindowScriptEffect(At(redis.db, WindowKey(userID)), cmd);
      var windowStart := now - windowSize * 1000;
      assert windowStart == Window.WindowStart(cmd.windowCall);
      var reply := Eval(WindowKey(userID), windowStart, now, capacity, windowSize, clock);
      redis.log := redis.log + [cmd];
      allowed := if fault == NoFault then Some(reply == 1) else None;
    }

    /** The observer's first statement. */
    method Prune(userID: string, windowSize: int, now: int, clock: int)
      requires redis.Valid()
      modifies redis
      ensures redis.Valid()
      ensures redis.log == old(redis.log) + [PruneWindow(userID, now, windowSize, clock)]
    {
      ghost var cmd := PruneWindow(userID, now, windowSize, clock);
      NeverWrongType(redis.log, cmd);
      PruneEffect(At(redis.db, WindowKey(userID)), cmd);
      ReplaySnoc(redis.log, cmd);
      var ok := redis.ZRemRangeByScore(WindowKey(userID), now - windowSize * 1000, clock);
      redis.log := redis.log + [cmd];
    }

    /** The count in the window, for monitoring: prune with its own window, then count what the set
        holds, with whatever others do in between. If they leave the user's key alone, and it does
        not expire, the count is the one a request with that window would have been compared by when
        the observer pruned. There is no answer when either statement fails. */
    method GetWindowState(userID: string, windowSize: int, now: int, clock: int, pruning: StoreFault,
                          others: seq<Command>, later: int, counting: bool)
      returns (count: Option<nat>)
      requires redis.Valid()
      modifies redis
      ensures redis.Valid()
      ensures redis.log == old(redis.log)
                           + (if pruning == NotExecuted then [] else [PruneWindow(userID, now, windowSize, clock)])
                           + (if pruning == NoFault then others else [])
      ensures count == None <==> pruning != NoFault || counting
      ensures count.Some? ==> count.value == SizeAt(redis.log, WindowKey(userID), later)
      ensures count.Some? && Undisturbed(old(redis.log), others, WindowKey(userID), later) && clock <= later ==>
                Decides(count.value, old(redis.log), userID, now, windowSize, clock)
    {
      if pruning == NotExecuted {
        return None;
      }
      ghost var before := redis.log;
      Prune(userID, windowSize, now, clock);
      if pruning == ReplyLost {
        return None;
      }
      redis.Serve(others);
      if counting {
        return None;
      }
      NeverWrongType(redis.log, PruneWindow(userID, now, windowSize, later));
      var n := redis.ZCard(WindowKey(userID), later);
      if Undisturbed(before, others, WindowKey(userID), later) && clock <= later {
        UndisturbedCount(before, userID, now, windowSize, clock, others, later);
      }
      return Some(n);
    }
  }

  // ---- The factory ----

  datatype Limiter = OfTokenBucket(bucket: TokenBucketLimiter) | OfSlidingWindow(window: SlidingWindowLimiter)

  class RateLimiterFactory {
    const redis: Redis

    constructor (redis: Redis)
      ensures this.redis == redis
    {
      this.redis := redis;
    }

    /** A limiter on the factory's store. Unknown algorithms fall back to the token bucket. */
    method CreateLimiter(algorithm: string) returns (limiter: Limiter)
      ensures limiter.OfSlidingWindow? <==> algorithm == Database.SLIDING_WINDOW
      ensures match limiter
              case OfTokenBucket(bucket) => bucket.redis == redis
              case OfSlidingWindow(window) => window.redis == redis
    {
      if algorithm == Database.TOKEN_BUCKET {
        var bucket := new TokenBucketLimiter(redis);
        limiter := OfTokenBucket(bucket);
      } else if algorithm == Database.SLIDING_WINDOW {
        var window := new SlidingWindowLimiter(redis);
        limiter := OfSlidingWindow(window);
      } else {
        var bucket := new TokenBucketLimiter(redis);
        limiter := OfTokenBucket(bucket);
      }
    }
  }
}
