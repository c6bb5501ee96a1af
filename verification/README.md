# Throttl: a verified model

Throttl answers "may this user call this route now?" for many API servers at once. Its limiters keep
their state in one shared key-value store and change it with short atomic scripts; its clients, API
keys and rate-limit configurations live in a relational database and are changed by handlers that
send several statements in a row. This project models both halves in Dafny and proves what the
service promises over whole runs: any number of users, routes, instances and requests in progress.

| file | what it holds |
|---|---|
| `Prelude.dfy` | optional values, counting and filtering of decisions, the greedy exchange argument |
| `TokenBucket.dfy`, `TokenBucketBounds.dfy` | one bucket and its guarantees over runs, were it never to expire |
| `TokenBucketExpiry.dfy`, `TokenBucketLimits.dfy` | its one-hour expiry, its observer, and what it limits with expiry included |
| `SlidingWindow.dfy`, `SlidingWindowBounds.dfy` | one window and its guarantees over runs, were it never to expire |
| `SlidingWindowExpiry.dfy`, `SlidingWindowLimits.dfy` | its expiry, its observer, and what it limits with expiry included |
| `Keyspace.dfy` | the shared store: every key, every command, runs of commands, independence of keys |
| `Limiters.dfy` | the limiter objects and the two scripts, command by command |
| `Database.dfy`, `PostgresStore.dfy`, `Handlers.dfy` | tables and statements, the storage methods, the handlers that run several statements |
| `Auth.dfy` | the authentication decision |
| `Interleaving.dfy` | the whole service as interleaved requests, one statement or script per step |
| `RotationRace.dfy`, `RotationConflict.dfy` | simultaneous rotations of one key among everything else, and exactly when they lose count |
| `Requests.dfy` | who may send which request, and what each kind does to the tables when it runs by itself |
| `KeyLife.dfy` | API keys in every run: where admin keys come from, how long a key works, what ends it |
| `ServiceRuns.dfy`, `ServiceBounds.dfy` | the checks of one user in every run of the whole service, and the limiters' guarantees for their answers |
| `Stats.dfy`, `Check.dfy` | the asynchronous counters and the check endpoint |

## How to read it

A limiter is first a function from a stored value and a call to a decision and a new stored value
(`TokenBucket.Next`, `SlidingWindow.Next`). Runs of calls are sequences, and the theorems are about
every run. `Limiters` has the objects of the service: their methods execute the scripts on a store
whose contents are always `Replay` of the commands it executed, so every theorem about logs is a
theorem about the objects. `Interleaving` lets any number of requests advance one step at a time.

Time is a parameter. A call carries the time its caller read before sending the script (seconds for
the bucket, milliseconds for the window) and the store's own clock when the script ran, which decides
expiry. A key is gone once the store's clock has passed its deadline. Generated keys and failures of
statements are choices made by the environment at each step.

`TokenBucketBounds` and `SlidingWindowBounds` are about a key that never expires. They are the ground
for `TokenBucketExpiry`, `TokenBucketLimits`, `SlidingWindowExpiry` and `SlidingWindowLimits`, which
are about keys as the service keeps them, and for `ServiceBounds`, which is about the whole service.
There `Checks` lists the checks of one user that reached a limiter: the configuration each had read, the
clocks, the verdict, whether its reply was lost, and the answer given. `BucketRowLaw` and `WindowRowLaw`
state the limits in the fields of the stored row.

Where the code and its promises part, the model follows the code:

- Admissions of one user in the same millisecond share one member of the sorted set, so the window
  counts distinct times, not requests, and a key that expires while a slow caller still counts its
  members forgets them. The limit on requests holds, expiry included, exactly for a configured limit
  of one and callers within thirty seconds of the store's clock
  (`SlidingWindowLimits.LimitsRequestsIff`); `PlainCountIff` says when a single decision agrees with a
  plain count, and `SameInstantUnlimited` shows runs where every request passes.
- A bucket call with an older time moves `last_refill` back, so with clocks that step back the same
  second is refilled again; and a bucket idle for over an hour is full again. The limit of capacity
  plus rate times elapsed time holds exactly when no caller's clock is off and an hour refills the
  bucket (`TokenBucketLimits.TextbookIff`). The bound that does hold, for any clocks and any expiry,
  is `TokenBucketExpiry.TimedStretchBound`.
- Rotations of one key at the same time can all succeed, which leaves more active keys than before.
  The rotations conserve the active keys exactly when at most one request by an admin or the key's
  owner waits or arrives meanwhile (`RaceConservesIffOneContender`). The running service can get there
  (`ServiceCanDoubleAKey`) wherever the deactivating UPDATE can succeed at all: it writes a column
  that `scripts/setup.sql` does not create, and on that schema every rotation fails and is
  compensated.
- A client may rotate any key of its own, whichever key of its own the request was authenticated with.
  So a request that is not an admin's can replace an admin key, but only one of the client it belongs
  to (`KeyLife.NoEscalation`); otherwise admin keys come from admins and from bootstrap alone
  (`KeyLife.AdminKeysHaveOrigin`).
- The rollback of a failed registration removes the client it stored, and with it the keys that an admin
  stored for that client meanwhile (`KeyLife.OthersKeysStay`).
- The separate check for an inactive key in the middleware never fires, because validation refuses
  inactive keys first (`Auth.Authenticate`).

## Model

| member | source | states |
|---|---|---|
| TokenBucketBounds.RefillIsLeastSlack | internal/ratelimiter/token_bucket.go:30-38 | On a key that does not expire: closed form of the refill for any clocks and any configurations: the tokens offered to a call are the least, over all stretches of calls ending at it, of the stretch's budget minus what it already admitted |
| TokenBucketBounds.AdmittedIffWithinBudget | internal/ratelimiter/token_bucket.go:40-52 | On a key that does not expire: a call is admitted exactly when one more admission overdraws no stretch ending at it |
| TokenBucketBounds.GreedyOptimal | internal/ratelimiter/token_bucket.go:30-52 | On a key that does not expire: the decisions overdraw no stretch, and no selection of requests that overdraws no stretch is ahead of them in any prefix |
| TokenBucketBounds.FixedConfigOptimal | internal/ratelimiter/token_bucket.go:30-52 | On a key that does not expire: with one configuration and ordered time no selection of requests that keeps every stretch within capacity plus rate times elapsed time is ahead of the bucket in any prefix |
| TokenBucketBounds.BackwardsClockRefillsAgain | internal/ratelimiter/token_bucket.go:34-46 | For every capacity and rate a clock alternating between two adjacent seconds admits at least half of any number of calls |
| TokenBucketBounds.RefusedAreInvisible | internal/ratelimiter/token_bucket.go:36-46 | On a key that does not expire: deleting any refused requests from an ordered run leaves every other decision, and everything later, as it was |
| TokenBucketBounds.TokensAreExactDoubles | internal/ratelimiter/token_bucket.go:36-38 | With 32-bit parameters and less than 2^22 - 1 idle seconds every intermediate of the script is an exact double |
| TokenBucket.TokensWithinCapacity | internal/ratelimiter/token_bucket.go:36-50 | After every call the stored tokens lie between zero and that call's capacity |
| TokenBucketExpiry.ExpiryTransparentIff | internal/ratelimiter/token_bucket.go:32-51 | On runs of one clock and one configuration the one-hour expiry changes no decision exactly when capacity is at most 3600 times the rate |
| TokenBucketExpiry.BusyBucketNeverExpires | internal/ratelimiter/token_bucket.go:44-51 | With calls at most an hour apart on the store's clock the expiring bucket decides as one that never expires, for any callers' clocks and configurations |
| TokenBucketExpiry.TimedStretchBound | internal/ratelimiter/token_bucket.go:20-52 | The stretch bound with expiry included: a silence of over an hour adds one capacity to the budget, and tokens still held count against it |
| TokenBucketExpiry.OfferIsLeastSlack | internal/ratelimiter/token_bucket.go:30-52 | Closed form of the expiring bucket, for any clocks, positive configurations and expiries: the tokens offered to a call are the least slack over the stretches ending at it, and it is admitted exactly when every slack is at least one |
| TokenBucketExpiry.KeptGreedyOptimal | internal/ratelimiter/token_bucket.go:30-52 | The expiring bucket's decisions overdraw no stretch, and no selection that overdraws none is ahead of them in any prefix |
| TokenBucketLimits.TextbookIff | internal/ratelimiter/token_bucket.go:21-52 | For every capacity and rate, of the bucket with its expiry: on all runs of one configuration whose callers are within an error of the store's clock every stretch admits at most capacity plus rate times elapsed time exactly when the error is zero and capacity is at most 3600 times the rate |
| TokenBucketLimits.KeptFixedConfigLaw | internal/ratelimiter/token_bucket.go:30-52 | With one clock and capacity at most 3600 times the rate, expiry included: a stretch admits at most capacity plus rate times elapsed time, and a call is refused exactly when admitting it would break that for some stretch ending at it |
| TokenBucketExpiry.ReportIsExact | internal/ratelimiter/token_bucket.go:75-92 | The report is exact: on a key that still lives, of the calls of that configuration sent at the second of the last refill exactly the first n are admitted and the next is refused |
| TokenBucketExpiry.ReportAfterBurst | internal/ratelimiter/token_bucket.go:32-92 | After k calls of a new user at one instant, k at most the capacity, all are admitted and the observer reports the capacity less k |
| TokenBucketExpiry.ReportIsAPromise | internal/ratelimiter/token_bucket.go:75-92 | If the observer reports n tokens, the next n calls of that configuration are admitted, for any clocks and any expiries |
| SlidingWindowBounds.MembersAreSurvivors | internal/ratelimiter/sliding_window.go:32-48 | On a key that does not expire: for any clocks and configurations the set holds exactly the times of admissions that no later call pruned |
| SlidingWindowBounds.PrunedSetIsHistory | internal/ratelimiter/sliding_window.go:33-46 | On a key that does not expire: with ordered time and one window, what the script counts is the set of distinct admission times of the whole history in the half-open window, and the decision compares its size |
| SlidingWindowBounds.CountIsRequestsIffDistinct | internal/ratelimiter/sliding_window.go:36-46 | The count equals the number of admitted requests exactly when their times are distinct, and is never more |
| SlidingWindowBounds.PlainCountIff | internal/ratelimiter/sliding_window.go:36-43 | The script decides as a plain request count would, for every capacity, exactly when the counted times are distinct |
| SlidingWindowBounds.SameInstantUnlimited | internal/ratelimiter/sliding_window.go:45-46 | With capacity two or more, any number of requests in one millisecond is admitted |
| SlidingWindowBounds.StretchBound | internal/ratelimiter/sliding_window.go:33-48 | On a key that does not expire: with increasing times and one configuration every stretch shorter than the window admits at most the capacity |
| SlidingWindowBounds.GreedyOptimal | internal/ratelimiter/sliding_window.go:33-48 | On a key that does not expire: with ordered time no selection that keeps that limit is ahead of the decisions in any prefix; with increasing times, or a limit of one, they keep it themselves |
| SlidingWindowBounds.MixedConfigBound | internal/ratelimiter/sliding_window.go:20-48 | On a key that does not expire: with mixed configurations on one key and clocks within a skew, an admission leaves at most its own capacity of distinct times later than its time plus the skew minus the smallest window |
| SlidingWindowBounds.RefusedAreInvisible | internal/ratelimiter/sliding_window.go:33-43 | On a key that does not expire: deleting any refused requests from an ordered run leaves every other decision as it was |
| SlidingWindowExpiry.ExpiryTransparentIff | internal/ratelimiter/sliding_window.go:33-47 | The expiry of a window key changes no decision of any run exactly when no caller is more than 30 seconds from the store's clock |
| SlidingWindowExpiry.KeptMixedBound | internal/ratelimiter/sliding_window.go:20-48 | Within 30 seconds of clock error and with mixed configurations and expiry, an admission leaves at most its own capacity of distinct times in the smallest window less twice the error |
| SlidingWindowExpiry.AdmittedIffRoom | internal/ratelimiter/sliding_window.go:32-48 | Expiry included, with ordered callers within 30 seconds of the store's clock and one window: a call is admitted exactly when fewer distinct admission times of the whole history than its capacity lie in its window |
| SlidingWindowExpiry.KeptGreedyOptimal | internal/ratelimiter/sliding_window.go:32-48 | And with one limit no selection that takes at most the limit from every stretch shorter than the window is ahead of the decisions in any prefix |
| SlidingWindowLimits.KeptSkewBound | internal/ratelimiter/sliding_window.go:21-48 | Expiry included: with callers within an error of the store's clock every interval as long as the window less (twice the error minus one millisecond) holds at most the capacity of distinct admission times; without error, as long as the window |
| SlidingWindowLimits.SafeLengthIsSharp | internal/ratelimiter/sliding_window.go:21-48 | For every capacity, expiry included: an interval length is limited on all runs of callers within the error exactly when it is at most the safe length: for a capacity of one the gap below, otherwise the window less (twice the error minus one millisecond), and never shorter than the capacity in milliseconds |
| SlidingWindowLimits.GapIsSharp | internal/ratelimiter/sliding_window.go:33-48 | With a limit of one, expiry included, any two admissions of every run are so far apart exactly for distances up to a gap: the window, or window plus 60 seconds and a millisecond less twice the error if that is shorter |
| SlidingWindowLimits.FullWindowApartIff | internal/ratelimiter/sliding_window.go:33-48 | With a limit of one any two admissions of every run are a full window apart exactly when no caller is more than 30 seconds from the store's clock |
| SlidingWindowLimits.LimitsRequestsIff | internal/ratelimiter/sliding_window.go:33-48 | Expiry included: on all runs of one configuration with ordered callers within an error of the store's clock every stretch shorter than the window admits at most the limit exactly when the limit is one and the error at most 30 seconds |
| SlidingWindowExpiry.ObserverHarmlessIff | internal/ratelimiter/sliding_window.go:71-84 | Observing a window changes no later decision of any run with ordered clocks, expiry included, exactly when the observed window is at least the configured one |
| Keyspace.KeysAreIndependent | internal/ratelimiter/token_bucket.go:20-22 | The value of a key and the replies to its commands in any interleaving are those of running its commands alone |
| Keyspace.BucketOfUser | internal/handlers/check.go:71-82 | In any interleaving of all users, both algorithms and the counters, a user's bucket verdicts are those of one expiring bucket run on that user's bucket calls |
| Keyspace.WindowOfUser | internal/ratelimiter/sliding_window.go:20-97 | In any interleaving a user's window key and the replies to its commands are those of one expiring window run on that user's calls and observations |
| Keyspace.UnobservedWindowOfUser | internal/handlers/check.go:75-77 | Without observations the verdicts are the decisions of one expiring window run on that user's calls |
| Keyspace.NeverWrongType | internal/ratelimiter/sliding_window.go:20-20 | No command ever meets a key of another type: bucket, window and counter keys never collide |
| Limiters.TokenBucketLimiter.Eval | internal/ratelimiter/token_bucket.go:24-53 | The bucket script run command by command stores the next bucket with a one-hour deadline and replies with its decision |
| Limiters.TokenBucketLimiter.AllowRequest | internal/ratelimiter/token_bucket.go:19-71 | The call is logged unless the store did not execute it, the store stays the replay of its log, and the answer, absent on an error, is the verdict on the user's own expiring bucket |
| Limiters.TokenBucketLimiter.GetBucketState | internal/ratelimiter/token_bucket.go:75-92 | The report is the stored tokens of the user's bucket, zero when absent or expired, and an error when the read fails |
| Limiters.SlidingWindowLimiter.Eval | internal/ratelimiter/sliding_window.go:25-49 | The window script run command by command leaves the next set with its deadline, or no key when the set is empty, and replies with its decision |
| Limiters.SlidingWindowLimiter.AllowRequest | internal/ratelimiter/sliding_window.go:19-68 | The call is logged unless the store did not execute it, the store stays the replay of its log, and the answer, absent on an error, is the store's verdict |
| Limiters.SlidingWindowLimiter.GetWindowState | internal/ratelimiter/sliding_window.go:71-97 | It prunes, and with whatever others do in between it reports what the set then holds; if they leave the user's key alone and it does not expire, that is exactly the count a request would have been compared by, for every capacity; an error when either statement fails |
| Limiters.RateLimiterFactory.CreateLimiter | internal/ratelimiter/limiter.go:26-35 | The limiter is a sliding window exactly for that algorithm's name, a token bucket otherwise, and works on the factory's store |
| Check.CheckHandler.Handle | internal/handlers/check.go:45-138 | Exactly which requests are answered with which response, that exactly one call was added to the user's bucket or window, as the algorithm of the stored row says, with that row's capacity and rate and the time in seconds or its limit and window and the time in milliseconds, and that the answer and the counted pipeline carry its verdict |
| Check.AverageTimesTotal | internal/handlers/clients.go:174-182 | The average latency in milliseconds times the requests is the summed latency, and zero without requests |
| Check.CheckHandler.CountDecision | internal/handlers/check.go:99-112 | An uninterrupted pipeline logs the three increments of its decision in order |
| Check.CheckHandler.GlobalStats | internal/handlers/clients.go:164-189 | Each of the four reads returns its counter as it is then, with whatever others do between the reads, a failed read counting as zero, and the average is zero without requests |
| Stats.CounterIsSum | internal/handlers/check.go:103-110 | Whatever else shares the store, a counter holds the sum of its increments |
| Stats.CountersBalance | internal/handlers/check.go:99-116 | In every interleaving total is allowed plus blocked plus the pipelines between their first and second increment, and at most the checks answered |
| Stats.QuietCountersAreExact | internal/handlers/check.go:99-116 | When every pipeline is past its second increment the counters are exactly the limiter runs, positive and negative verdicts over all users, less those whose reply was lost |
| Stats.ReaderSandwich | internal/handlers/clients.go:164-180 | A reader's allowed plus blocked falls short of its total by no more than the pipelines halfway when it started and never exceeds the checks answered |
| Stats.QuietReaderIsConsistent | internal/handlers/clients.go:164-180 | A reader during a quiet time reads total equal to allowed plus blocked in its first three gets |
| Stats.DoneReaderIsExact | internal/handlers/clients.go:164-180 | When every pipeline is done and no check is answered meanwhile, a reader's four gets are the checks answered, those answered yes, those answered no, and the sum of their latencies, whatever else runs between the gets |
| Database.ValidateIff | internal/storage/rate_limits_crud.go:18-42 | A configuration passes validation exactly when it names client and route, its limit is positive and its algorithm can be served with positive parameters, and the schema then refuses it only for a missing client |
| Database.FirstComplaint | internal/storage/rate_limits_crud.go:18-42 | Which complaint an input gets: a missing client, then a missing route, an unknown algorithm, the limit, and last the parameters of the algorithm |
| Database.StatementsKeepConsistent | scripts/setup.sql:20-47 | Every well-formed statement keeps foreign keys and serviceable configurations, cascades included |
| PostgresStore.Store.RotateAPIKey | internal/storage/apikeys_crud.go:101-134 | Run alone: succeeds exactly when no statement fails and the key can be rotated; then the old key is inactive and one new key has its client and type; on error the tables are exactly restored unless the compensating delete failed too; active keys per client and type are conserved |
| PostgresStore.Store.RevokeAPIKey | internal/storage/apikeys_crud.go:137-158 | The key becomes inactive, or the tables are unchanged and the error says why |
| PostgresStore.Store.DeleteAPIKeyByHash | internal/storage/apikeys_crud.go:161-180 | The key is gone, or the tables are unchanged and the error says why |
| PostgresStore.Store.CreateAPIKey | internal/storage/apikeys_crud.go:55-77 | An active key without expiry is added exactly when the hash is new and the client exists |
| PostgresStore.Store.CreateAPIKeyWithExpiry | internal/storage/apikeys_crud.go:80-98 | The same with an expiry |
| PostgresStore.Store.ListAPIKeys | internal/storage/apikeys_crud.go:183-233 | Exactly the client's keys with their rows, or all keys for the empty client, without repetition and newest first; an error when the query fails |
| PostgresStore.Store.UpsertRateLimitConfig | internal/storage/rate_limits_crud.go:45-65 | The first validation complaint, or the row replaced, or the tables unchanged |
| PostgresStore.Store.DeleteRateLimitConfig | internal/storage/rate_limits_crud.go:68-88 | The row is gone, or the tables are unchanged and the error says why |
| PostgresStore.Store.CreateClient | internal/storage/clients.go:15-21 | The client is added exactly when the name is free |
| PostgresStore.Store.DeleteClient | internal/storage/clients.go:42-58 | The client is removed together with its keys and configurations |
| Handlers.OwnsKey | internal/handlers/admin.go:193-214 | The ownership scan finds the hash exactly when it is one of the caller's keys, and fails when the listing fails |
| Handlers.RegisterHandler | internal/handlers/clients.go:217-260 | Run alone: either the tables are unchanged or exactly one client, one active key and at most the default configuration are added; only a failed rollback leaves the bare client |
| Handlers.BootstrapMasterKey | internal/storage/apikeys.go:77-115 | Run alone: nothing happens unless the key table is empty; otherwise success leaves the master key of the default client as the only key, failure leaves no key, and at most the default client is added |
| Auth.LifeOfKey | internal/storage/apikeys.go:24-34 | A row is accepted at a time exactly when it is active, the time is at most its expiry, if it has one, and at most its creation plus the maximum age, if there is one |
| Auth.Authenticate | internal/middleware/auth.go:62-97 | A request is authenticated exactly when its key is stored, active, at most as old as its expiry says and, by the later clock reading, at most the maximum age past its creation, as the key's client and type; the inactive-key answer is never given |
| Interleaving.StepKeepsInv | internal/handlers/admin.go:192-216 | Every statement of every request in progress keeps the tables consistent, keys with the client they were issued to, what each request established, and positive limiter parameters |
| Interleaving.RunKeepsInv | internal/storage/rate_limits_crud.go:45-65 | So every reachable state has them |
| Interleaving.TenantFrame | internal/handlers/admin.go:256-278 | In every interleaving a step authenticated with a client's own key changes only keys and configurations of that client, whatever ran between its ownership scan and the step |
| Interleaving.RejectionIsPermanent | internal/middleware/auth.go:72-94 | With time moving forward, a stored key once refused is refused in every later state while its row exists |
| Interleaving.GoneKeyReturnsByBootstrap | internal/storage/apikeys.go:77-108 | A deleted hash returns only as the master key, stored by a bootstrap whose own count found no keys |
| RotationRace.EverySuccessAdds | internal/storage/apikeys_crud.go:101-134 | In every run each rotation that succeeded read the old key while it was active and had its own step at which the active keys of that client and type grew by one |
| RotationRace.RotatedKeyIsRetired | internal/storage/apikeys_crud.go:101-134 | In every run, whatever else happens, the old key is gone or inactive from the moment a rotation of it succeeds; only the master key can come back |
| RotationRace.RaceLedger | internal/storage/apikeys_crud.go:101-134 | At every moment of a race of rotations of one key, in the middle of other requests: besides what others did and what failed compensations left behind, the active keys of its client and type have grown by the replacements stored, less one exactly once a rotation has succeeded, which is exactly when the old key is gone or inactive |
| RotationConflict.RaceConservesIffOneContender | internal/storage/apikeys_crud.go:101-134 | From a state of the service, for every number of later arrivals: all finished races that at most so many further contenders join conserve the active keys, up to what others did and failed compensations left, exactly when the rotations waiting and arriving that are by an admin or the owner of the key number at most one |
| RotationConflict.ServiceCanDoubleAKey | internal/storage/apikeys_crud.go:104-125 | A run of the service from an empty key table in which two admins rotate the master key, both succeed, and two admin keys are active where there was one |
| Requests.ArrivalIff | internal/middleware/auth.go:62-97 | Which requests each kind of caller may send, and that a client's or admin's is accepted exactly while its key is stored, active, of that client and kind, at most its expiry and at most a year old |
| Requests.PutConfigAlone | internal/handlers/config.go:26-52 | Stores exactly the row given under its client and route, exactly when the caller may configure that client, the input is complete and servable, the client exists and the statement does not fail |
| Requests.DropConfigAlone | internal/handlers/config.go:81-105 | Removes exactly that row, exactly when both names are given, the caller may configure that client, the row is stored and the statement does not fail |
| Requests.AddClientAlone | internal/storage/clients.go:15-21 | Adds exactly the client, exactly when it is named, new and the statement does not fail |
| Requests.EditClientAlone | internal/storage/clients.go:23-40 | Changes exactly the description, exactly when the client is stored and the statement does not fail |
| Requests.DropClientAlone | internal/storage/clients.go:42-58 | Removes exactly the client, its keys and its configurations |
| Requests.TouchAlone | internal/storage/apikeys_crud.go:235-244 | Sets the time of last use of an active key and nothing else |
| Requests.RevokeAlone | internal/handlers/admin.go:256-281 | With its ownership scan: makes exactly that key inactive, exactly when an admin or the key's owner asks, the key is stored and no statement fails |
| Requests.DeleteAlone | internal/handlers/admin.go:318-343 | With its ownership scan: removes exactly that key under the same condition |
| Requests.RotationAlone | internal/handlers/admin.go:192-216 | With its ownership scan, for all failures of its five statements: success, and the tables it leaves row by row |
| Requests.RegistrationAlone | internal/handlers/clients.go:217-251 | For all failures of its statements: success, and the tables it leaves row by row, the numbers of the default configuration included |
| Requests.BootstrapIdle | internal/storage/apikeys.go:77-85 | Changes nothing once a key is stored, or when the count fails |
| Requests.BootstrapAlone | internal/storage/apikeys.go:91-111 | On an empty key table, for all failures: success, and the master key and default client it leaves |
| KeyLife.CreateStoresOne | internal/handlers/admin.go:58-93 | In every run a create request succeeds exactly when it names a stored client, the caller may create such a key and the statement does not fail; then exactly one row is stored, with the client, name and type asked for, and with an expiry that many hours later exactly for positive hours |
| KeyLife.CreatedKeyExpires | internal/middleware/auth.go:72-94 | In every run a key created for some hours authenticates no request after them, none after a year, and only requests of its own client and type |
| KeyLife.RevokedKeyStaysDead | internal/storage/apikeys_crud.go:136-158 | In every run a revocation that succeeds deactivates a stored key and changes nothing else, and the key is never active again; the master key can be deleted and seeded anew |
| KeyLife.DeletedKeyStaysGone | internal/storage/apikeys_crud.go:160-180 | In every run a deletion that succeeds removes exactly that row, and it never returns, the master key apart |
| KeyLife.AdminKeysHaveOrigin | internal/handlers/admin.go:70-82 | In every run each stored admin key was stored by bootstrap, for an admin who asked for one, or as the replacement of an admin key |
| KeyLife.NoEscalation | internal/handlers/admin.go:70-82 | In every run a step of a client's or of an unauthenticated request adds an admin key only as the replacement of one of that client's own, stored and active when the request read it |
| KeyLife.OthersKeysStay | internal/handlers/admin.go:193-214 | In every run a step of a client's request leaves every key of other clients as it is, and one of a registration every key but those stored for the client it rolls back |
| Interleaving.LookupIff | internal/handlers/check.go:45-65 | In every run a check goes on with a configuration exactly when user and route are named, the database answers and that row is the one stored for exactly them |
| Interleaving.ConfigWasStored | internal/handlers/check.go:56-62 | In every run the configuration a check uses was stored for its user and route at some step of the check |
| Interleaving.AnswerIff | internal/handlers/check.go:67-92 | In every run a check that turns to the limiter is over, and answered yes exactly when its script ran, its reply arrived and the verdict is positive |
| Interleaving.YesWasGranted | internal/handlers/check.go:54-92 | In every run each check answered yes ran its own limiter script for its user with a positive verdict |
| ServiceRuns.BucketServes | internal/handlers/check.go:67-82 | In every run the bucket script has run on exactly the calls of the user's checks that read a bucket row, with that row's capacity and rate and the time in seconds, and each verdict is that bucket's next decision |
| ServiceRuns.WindowServes | internal/handlers/check.go:75-77 | The same for the window script, with the row's limit and window and the time in milliseconds |
| ServiceBounds.ServiceBucketBound | internal/handlers/check.go:54-82 | In every run of the whole service, configurations changing under way, the yes answers to a user's bucket checks keep the stretch bound, expiry included |
| ServiceBounds.ServiceBucketExact | internal/handlers/check.go:54-92 | In every run of the whole service a user's bucket check is answered yes exactly when its reply arrives and a yes overdraws no stretch of the user's checks ending at it |
| ServiceBounds.ServiceBucketOptimal | internal/handlers/check.go:54-92 | And no selection of the user's checks that overdraws no stretch is ahead of the verdicts, or of the answers when no reply is lost, in any prefix |
| ServiceBounds.BucketRowLaw | internal/handlers/check.go:54-92 | In every run in which one bucket row is all a user ever had stored, with one clock and the row's capacity at most 3600 times its rate: a check whose reply arrives is answered no exactly when a yes would exceed the row's capacity plus its rate times the elapsed seconds on some stretch of the user's checks ending at it |
| ServiceBounds.ServiceWindowBound | internal/handlers/check.go:54-82 | In every run of the whole service within 30 seconds of clock error, the verdicts for a user's window checks keep the mixed-configuration bound |
| ServiceBounds.ServiceWindowExact | internal/handlers/check.go:54-92 | In every run of the whole service with ordered callers within 30 seconds and one window, a user's window check is answered yes exactly when its reply arrives and fewer distinct times of the user's own grants than its row's limit lie in the window |
| ServiceBounds.ServiceWindowOptimal | internal/handlers/check.go:54-92 | And with one limit no selection of the user's checks that keeps the limit is ahead of the verdicts, or of the answers when no reply is lost, in any prefix |
| ServiceBounds.WindowRowLaw | internal/handlers/check.go:54-92 | In every run in which one window row is all a user ever had stored, with ordered callers within 30 seconds: a check whose reply arrives is answered yes exactly when fewer distinct times of the user's own grants than the row's limit lie in the row's window ending at it |

## Left out

- HTTP methods, JSON, headers, logging and Prometheus metrics: plumbing around the modelled decisions.
- The dashboard, nginx, shell scripts, connection setup and shutdown: no state of interest.
- SHA-256 and random key generation: keys are known by their hash, and a generated hash is one never issued before.
- Floating point: tokens are integers and latencies whole microseconds; `TokensAreExactDoubles` gives the range in which the script's doubles are exact.
- Integer widths: capacities, windows and times are unbounded integers; the database columns are 32-bit, so the products in the scripts stay far inside 64 bits.
- Lost replies of SQL statements: a failing statement has no effect. A script whose reply is lost is modelled in `Limiters`, `Check`, `Stats` and `Interleaving`.
- Column lengths and NULLs: a statement refused for such a reason counts as a failing statement.
- The `updated_at` column that rotation and revocation write but the schema lacks: the UPDATE is a statement that may fail.
- Methods for the other admin and configuration handlers: their checks and statements are steps of `Interleaving`, and `Requests` says what each does when it runs by itself.
- Listing handlers, client statistics, key masking, the audit log, the active-configuration view and key extraction from headers: they read or format only.
- Wildcard routes: `*` is looked up like any other route.
- RotationConflict.RaceConservesIffOneContender: a race in which somebody else revokes, deletes or stores the old key, or touches a replacement still in the making, is not a race of this model; for those, `EverySuccessAdds` and `RotatedKeyIsRetired` hold in every run.
- Keyspace.NeverWrongType: assumes no other program writes to the store.
- Interleaving.TenantFrame: assumes generated hashes are fresh, as the key generator intends.
