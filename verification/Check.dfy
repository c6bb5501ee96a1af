/** The check endpoint: look up the configuration, run the limiter it names, answer, and count. */
module Check {
  import opened Prelude
  import opened Keyspace
  import opened Limiters
  import Database
  import PostgresStore
  import Interleaving
  import Bucket = TokenBucket
  import BucketExpiry = TokenBucketExpiry
  import Window = SlidingWindow
  import WindowExpiry = SlidingWindowExpiry
  import Stats

  datatype Response =
    | BadRequest
    | ConfigNotFound
    | InternalError
    | Decision(allowed: bool, algorithm: string, message: string)

  /** Which of the four reads of the statistics fail. */
  datatype ReadFaults = ReadFaults(total: bool, allowed: bool, blocked: bool, latency: bool)

  /** The average latency in milliseconds of `total` requests that took `micros` microseconds. */
  function Average(total: int, micros: int): real {
    if total > 0 then micros as real / 1000.0 / total as real else 0.0
  }

  /** Total times average is the whole latency, a thousand microseconds to the millisecond. */
  lemma {:induction false} AverageTimesTotal(total: int, micros: int)
    ensures total > 0 ==> Average(total, micros) * total as real * 1000.0 == micros as real
    ensures total <= 0 ==> Average(total, micros) == 0.0
  {
    if total > 0 {
      var millis := micros as real / 1000.0;
      assert millis / total as real * total as real == millis;
    }
  }

  class CheckHandler {
    const factory: RateLimiterFactory
    const store: PostgresStore.Store

    constructor (factory: RateLimiterFactory, store: PostgresStore.Store)
      ensures this.factory == factory && this.store == store
    {
      this.factory := factory;
      this.store := store;
    }

    /** One check. It answers with a decision exactly when the request is complete, its exact route
        is configured and no store fails; then the decision is the one limiter verdict and the
        pipeline to be started carries it. The limiter ran once unless it was never reached. */
    method Handle(userID: string, route: string, dbFault: bool, redisFault: StoreFault, now: int, clock: int,
                  micros: nat)
      returns (r: Response, pipe: Option<Stats.Pipe>)
      requires factory.redis.Valid()
      modifies factory.redis
      ensures factory.redis.Valid()
      ensures r == BadRequest <==> userID == "" || route == ""
      ensures r == ConfigNotFound <==> r != BadRequest && (dbFault || (userID, route) !in store.db.configs)
      ensures r == InternalError <==> r != BadRequest && r != ConfigNotFound && redisFault != NoFault
      ensures r == BadRequest || r == ConfigNotFound || redisFault == NotExecuted ==>
                factory.redis.log == old(factory.redis.log)
      ensures r != BadRequest && r != ConfigNotFound && redisFault != NotExecuted ==>
                var config := store.db.configs[(userID, route)];
                && factory.redis.log == old(factory.redis.log) + [Interleaving.CommandFor(userID, config, now, clock)]
                && BucketCalls(factory.redis.log, userID) == BucketCalls(old(factory.redis.log), userID)
                   + (if config.algorithm == "sliding_window" then []
                      else [BucketExpiry.TimedCall(Bucket.Call(now / 1000, config.capacity, config.refillRate), clock)])
                && WindowCalls(factory.redis.log, userID) == WindowCalls(old(factory.redis.log), userID)
                   + (if config.algorithm == "sliding_window"
                      then [WindowExpiry.TimedCall(Window.Call(now, config.limit, config.windowSize), clock)] else [])
      ensures r.Decision? ==>
                var config := store.db.configs[(userID, route)];
                && Verdict(r.allowed)
                   == ReplyOn(old(factory.redis.log), Interleaving.CommandFor(userID, config, now, clock))
                && r.algorithm == config.algorithm
                && r.message == (if r.allowed then "" else "Rate limit exceeded")
                && pipe == Some(Stats.Pipe(r.allowed, micros, 0))
      ensures !r.Decision? ==> pipe == None
    {
      pipe := None;
      if userID == "" || route == "" {
        return BadRequest, None;
      }
      if dbFault || (userID, route) !in store.db.configs {
        return ConfigNotFound, None;
      }
      var cfg := store.db.configs[(userID, route)];

      CallsSnoc(factory.redis.log, Interleaving.CommandFor(userID, cfg, now, clock), userID);
      var answer: Option<bool>;
      if cfg.algorithm == Database.TOKEN_BUCKET {
        var limiter := factory.CreateLimiter(Database.TOKEN_BUCKET);
        answer := limiter.bucket.AllowRequest(userID, cfg.capacity, cfg.refillRate, now / 1000, clock, redisFault);
      } else if cfg.algorithm == Database.SLIDING_WINDOW {
        var limiter := factory.CreateLimiter(Database.SLIDING_WINDOW);
        answer := limiter.window.AllowRequest(userID, cfg.limit, cfg.windowSize, now, clock, redisFault);
      } else {
        var limiter := factory.CreateLimiter(Database.TOKEN_BUCKET);
        answer := limiter.bucket.AllowRequest(userID, cfg.capacity, cfg.refillRate, now / 1000, clock, redisFault);
      }
      if answer == None {
        return InternalError, None;
      }
      var allowed := answer.value;
      r := Decision(allowed, cfg.algorithm, if allowed then "" else "Rate limit exceeded");
      pipe := Some(Stats.Pipe(allowed, micros, 0));
    }

    /** The pipeline started by an answered check, run without interruption. */
    method CountDecision(allowed: bool, micros: nat, clock: int)
      requires factory.redis.Valid()
      modifies factory.redis
      ensures factory.redis.Valid()
      ensures factory.redis.log == old(factory.redis.log)
                + [Stats.CommandOf(Stats.Pipe(allowed, micros, 0), clock)]
                + [Stats.CommandOf(Stats.Pipe(allowed, micros, 1), clock)]
                + [Stats.CommandOf(Stats.Pipe(allowed, micros, 2), clock)]
    {
      ghost var before, pipe := factory.redis.log, Stats.Pipe(allowed, micros, 0);
      factory.redis.IncrBy(TotalRequests, 1, clock);
      assert factory.redis.log == before + [Stats.CommandOf(pipe, clock)];
      if allowed {
        factory.redis.IncrBy(AllowedRequests, 1, clock);
      } else {
        factory.redis.IncrBy(BlockedRequests, 1, clock);
      }
      assert factory.redis.log == before + [Stats.CommandOf(pipe, clock)] + [Stats.CommandOf(pipe.(sent := 1), clock)];
      factory.redis.IncrBy(TotalLatency, micros, clock);
    }

    /** The counters read in order, with whatever others do once, twice and thrice between the reads,
        and the average latency in milliseconds. A read that fails counts as zero. */
    method GlobalStats(clock: int, once: seq<Command>, twice: seq<Command>, thrice: seq<Command>, faults: ReadFaults)
      returns (total: int, allowed: int, blocked: int, average: real)
      requires factory.redis.Valid()
      modifies factory.redis
      ensures factory.redis.Valid()
      ensures var first := old(factory.redis.log);
              var second, third, fourth := first + once, first + once + twice, factory.redis.log;
              && fourth == third + thrice
              && total == (if faults.total then 0 else Stats.Counter(first, TotalRequests))
              && allowed == (if faults.allowed then 0 else Stats.Counter(second, AllowedRequests))
              && blocked == (if faults.blocked then 0 else Stats.Counter(third, BlockedRequests))
              && average == Average(total, if faults.latency then 0 else Stats.Counter(fourth, TotalLatency))
    {
      total := Get(TotalRequests, clock, faults.total);
      factory.redis.Serve(once);
      allowed := Get(AllowedRequests, clock, faults.allowed);
      factory.redis.Serve(twice);
      blocked := Get(BlockedRequests, clock, faults.blocked);
      factory.redis.Serve(thrice);
      var latency := Get(TotalLatency, clock, faults.latency);
      average := Average(total, latency);
    }

    method Get(stat: Stat, clock: int, fault: bool) returns (n: int)
      requires factory.redis.Valid()
      ensures n == if fault then 0 else Stats.Counter(factory.redis.log, stat)
    {
      n := 0;
      if !fault {
        Stats.CountersDoNotExpire(factory.redis.log, stat);
        n := factory.redis.GetStat(stat, clock);
      }
    }
  }
}
