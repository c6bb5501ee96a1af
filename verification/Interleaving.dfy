/** The service as a whole: any number of requests in progress, each a process that runs one
    statement or script at a time on the shared stores, in any order. */
module Interleaving {
  import opened Prelude
  import opened Database
  import opened PostgresStore
  import opened Handlers
  import Auth
  import K = Keyspace
  import Bucket = TokenBucket
  import Window = SlidingWindow

  // ---- Requests ----

  /** On whose behalf a request runs: a client's own key, an admin key, an unauthenticated caller,
      or the service itself. */
  datatype Caller = Tenant(clientId: string) | Admin(clientId: string) | Public | Service

  datatype Op =
    | CreateKey(client: string, name: string, keyType: string, expiresIn: int)
    | RotateKey(hash: string)
    | RevokeKey(hash: string)
    | DeleteKey(hash: string)
    | PutConfig(input: ConfigInput)
    | DropConfig(client: string, route: string)
    | AddClient(client: string, description: string)
    | EditClient(client: string, description: string)
    | DropClient(client: string)
    | Register(client: string, description: string)
    | Bootstrap
    | Touch(hash: string)
    | Check(user: string, route: string)

  /** How far a request has got. Each stage but the last waits for one statement or script. */
  datatype Stage =
    | Start
    | Owned                          // rotate, revoke, delete: the ownership scan passed
    | Selected(row: KeyRow)          // rotate: the old key was read and active
    | Replaced(newHash: string)      // rotate: the replacement is stored
    | CleanUp(newHash: string)       // rotate: the deactivation failed
    | ClientAdded | KeyAdded | RollBack   // register
    | Counted | NoDefault | DefaultReady  // bootstrap
    | Configured(config: ConfigRow)  // check: the configuration was read
    | Finished(ok: bool)

  datatype Process = Process(caller: Caller, op: Op, stage: Stage)

  /** What the outside decides at one step: whether the statement or script fails without effect,
      whether the reply of a script that did run is lost, the hash of a generated key, and the clocks
      of the service and of the key-value store in milliseconds. */
  datatype Choice = Choice(fault: bool, lost: bool, newHash: string, now: int, clock: int)

  /** `issued` remembers, for the proofs, which client every hash ever stored belongs to. */
  datatype State = State(db: Db, log: seq<K.Command>, procs: seq<Process>, issued: map<string, string>)

  const MASTER: string := "master"
  const MAX_KEY_AGE: int := 365 * 24 * 3600 * 1000

  /** A client acts outside its own data. */
  predicate Foreign(caller: Caller, client: string) {
    caller.Tenant? && client != caller.clientId
  }

  /** The statement a request sends next, if its next step writes at all. */
  function StatementOf(p: Process, ch: Choice): Option<Statement> {
    match p.op
    case CreateKey(client, name, keyType, expiresIn) =>
      if client == "" || Foreign(p.caller, client) || (keyType == "admin" && !p.caller.Admin?) then None
      else Some(InsertKey(ch.newHash,
                          NewKey(client, name, if keyType == "admin" then "admin" else "client", ch.now,
                                 if expiresIn > 0 then Some(ch.now + expiresIn * 3600000) else None)))
    case RotateKey(hash) =>
      (match p.stage
       case Selected(row) => Some(InsertKey(ch.newHash, Replacement(row, ch.now)))
       case Replaced(_) => Some(DeactivateKey(hash))
       case CleanUp(newHash) => Some(RemoveKey(newHash))
       case _ => None)
    case RevokeKey(hash) => if p.stage.Owned? then Some(DeactivateKey(hash)) else None
    case DeleteKey(hash) => if p.stage.Owned? then Some(RemoveKey(hash)) else None
    case PutConfig(input) =>
      if Foreign(p.caller, input.clientId) || Validate(input).Some? then None
      else Some(UpsertConfig(input.clientId, input.route, input.row))
    case DropConfig(client, route) =>
      if client == "" || route == "" || Foreign(p.caller, client) then None else Some(RemoveConfig(client, route))
    case AddClient(client, description) => if client == "" then None else Some(InsertClient(client, description))
    case EditClient(client, description) => if client == "" then None else Some(UpdateClient(client, description))
    case DropClient(client) => if client == "" then None else Some(RemoveClient(client))
    case Register(client, description) =>
      if client == "" then None else
        (match p.stage
         case Start => Some(InsertClient(client, description))
         case ClientAdded => Some(InsertKey(ch.newHash, NewKey(client, "Default API Key", "client", ch.now, None)))
         case KeyAdded => Some(UpsertConfig(client, "*", DEFAULT_CONFIG))
         case RollBack => Some(RemoveClient(client))
         case _ => None)
    case Bootstrap =>
      (match p.stage
       case NoDefault => Some(InsertClient(DEFAULT_CLIENT, "Default client"))
       case DefaultReady => Some(InsertKey(MASTER, NewKey(DEFAULT_CLIENT, "Master Admin Key", "admin", ch.now, None)))
       case _ => None)
    case Touch(hash) => Some(TouchKey(hash, ch.now))
    case Check(_, _) => None
  }

  /** The outcome of the next statement. */
  function Result(db: Db, p: Process, ch: Choice): Outcome {
    var s := StatementOf(p, ch);
    if s.None? || ch.fault then Failed else OutcomeOf(db, s.value)
  }

  function DbAfter(db: Db, p: Process, ch: Choice): Db {
    var s := StatementOf(p, ch);
    if s.None? || ch.fault then db else Execute(db, s.value)
  }

  /** The ownership scan. Admins are not asked. A client without a name would own every key. */
  predicate PassesScan(db: Db, p: Process, hash: string, ch: Choice) {
    hash != "" &&
    (p.caller.Admin? ||
     (p.caller.Tenant? && !ch.fault && hash in db.keys
      && (p.caller.clientId == "" || db.keys[hash].clientId == p.caller.clientId)))
  }

  function StageAfter(db: Db, log: seq<K.Command>, p: Process, ch: Choice): Stage {
    var r := Result(db, p, ch);
    match p.op
    case RotateKey(hash) =>
      (match p.stage
       case Start => if PassesScan(db, p, hash, ch) then Owned else Finished(false)
       case Owned =>
         if !ch.fault && hash in db.keys && db.keys[hash].active then Selected(db.keys[hash]) else Finished(false)
       case Selected(_) => if r == Failed then Finished(false) else Replaced(ch.newHash)
       case Replaced(newHash) => if r == Failed then CleanUp(newHash) else Finished(true)
       case _ => Finished(false))
    case RevokeKey(hash) =>
      if p.stage.Start? then (if PassesScan(db, p, hash, ch) then Owned else Finished(false))
      else Finished(r.Affected? && r.rows > 0)
    case DeleteKey(hash) =>
      if p.stage.Start? then (if PassesScan(db, p, hash, ch) then Owned else Finished(false))
      else Finished(r.Affected? && r.rows > 0)
    case Register(_, _) =>
      (match p.stage
       case Start => if r == Failed then Finished(false) else ClientAdded
       case ClientAdded => if r == Failed then RollBack else KeyAdded
       case KeyAdded => Finished(true)
       case _ => Finished(false))
    case Bootstrap =>
      (match p.stage
       case Start => if ch.fault then Finished(false) else if |db.keys| > 0 then Finished(true) else Counted
       case Counted => if ch.fault || DEFAULT_CLIENT !in db.clients then NoDefault else DefaultReady
       case NoDefault => if r == Failed then Finished(false) else DefaultReady
       case _ => Finished(r != Failed))
    case Check(user, route) =>
      (match p.stage
       case Start =>
         if user == "" || route == "" || ch.fault || (user, route) !in db.configs then Finished(false)
         else Configured(db.configs[(user, route)])
       case Configured(config) =>
         Finished(!ch.fault && !ch.lost && K.Grants(log, CommandFor(user, config, ch.now, ch.clock)))
       case _ => Finished(false))
    case _ => Finished(r.Affected? && r.rows > 0)
  }

  /** The script a check runs: the sliding window with limit and window, anything else the bucket
      with capacity and rate. The bucket is given the time in seconds, the window in milliseconds. */
  function CommandFor(user: string, config: ConfigRow, now: int, clock: int): K.Command {
    if config.algorithm == SLIDING_WINDOW
    then K.SlideWindow(user, Window.Call(now, config.limit, config.windowSize), clock)
    else K.TakeToken(user, Bucket.Call(now / 1000, config.capacity, config.refillRate), clock)
  }

  function LogAfter(log: seq<K.Command>, p: Process, ch: Choice): seq<K.Command> {
    if p.op.Check? && p.stage.Configured? && !ch.fault
    then log + [CommandFor(p.op.user, p.stage.config, ch.now, ch.clock)] else log
  }

  function IssuedAfter(s: State, p: Process, ch: Choice): map<string, string> {
    match StatementOf(p, ch)
    case Some(InsertKey(hash, key)) =>
      if Result(s.db, p, ch) == Failed then s.issued else s.issued[hash := key.clientId]
    case _ => s.issued
  }

  // ---- Runs ----

  /** A request arrives, or request `i` takes its next step. A client or admin request carries the
      hash of the key it authenticated with and the time it did. */
  datatype Event = Arrive(caller: Caller, op: Op, hash: string, now: int) | Run(i: nat, ch: Choice)

  predicate MayAsk(caller: Caller, op: Op) {
    match caller
    case Tenant(_) =>
      !op.AddClient? && !op.EditClient? && !op.DropClient? && !op.Bootstrap? && !op.Touch? && !op.Register?
    case Admin(_) => !op.Bootstrap? && !op.Touch? && !op.Register?
    case Public => op.Register?
    case Service => op.Bootstrap? || op.Touch?
  }

  /** The stage at which a request stores a generated key. */
  predicate Generates(p: Process) {
    p.op.CreateKey? || (p.op.RotateKey? && p.stage.Selected?) || (p.op.Register? && p.stage.ClientAdded?)
  }

  predicate Enabled(s: State, e: Event) {
    match e
    case Arrive(caller, op, hash, now) =>
      && MayAsk(caller, op)
      && (caller.Tenant? || caller.Admin? ==>
            && hash in s.db.keys && Auth.Acceptable(s.db.keys[hash], now, MAX_KEY_AGE)
            && s.db.keys[hash].clientId == caller.clientId
            && (caller.Admin? <==> s.db.keys[hash].keyType == "admin"))
    case Run(i, ch) =>
      i < |s.procs| && !s.procs[i].stage.Finished? && (Generates(s.procs[i]) ==> ch.newHash !in s.issued)
  }

  function Next(s: State, e: Event): State
    requires Enabled(s, e)
  {
    match e
    case Arrive(caller, op, _, _) => s.(procs := s.procs + [Process(caller, op, Start)])
    case Run(i, ch) =>
      var p := s.procs[i];
      State(DbAfter(s.db, p, ch), LogAfter(s.log, p, ch),
            s.procs[i := p.(stage := StageAfter(s.db, s.log, p, ch))], IssuedAfter(s, p, ch))
  }

  /** A consistent database without keys, and nothing going on. */
  ghost predicate Initial(s: State) {
    Consistent(s.db) && s.db.keys == map[] && s.log == [] && s.procs == [] && s.issued == map[MASTER := DEFAULT_CLIENT]
  }

  /** A run: its states, one event between each state and the next. */
  ghost predicate IsRun(states: seq<State>, events: seq<Event>) {
    && |states| == |events| + 1 && Initial(states[0])
    && forall k :: 0 <= k < |events| ==> StepOf(states, events, k)
  }

  ghost predicate StepOf(states: seq<State>, events: seq<Event>, k: nat)
    requires |states| == |events| + 1 && k < |events|
  {
    Enabled(states[k], events[k]) && states[k + 1] == Next(states[k], events[k])
  }

  // ---- The invariant ----

  /** Stored keys belong to the client their hash was issued to. */
  ghost predicate KeysAreIssued(db: Db, issued: map<string, string>) {
    forall h :: h in db.keys ==> h in issued && issued[h] == db.keys[h].clientId
  }

  predicate IssuedTo(issued: map<string, string>, hash: string, client: string) {
    hash in issued && issued[hash] == client
  }

  /** What a request past its first step has established, whatever ran since. */
  predicate Established(issued: map<string, string>, p: Process) {
    && (p.caller.Tenant? ==> p.caller.clientId != "")
    && MayAsk(p.caller, p.op)
    && (!p.stage.Start? && !p.stage.Finished? ==>
          match p.op
          case RotateKey(hash) =>
            (match p.stage
             case Owned => p.caller.Tenant? ==> IssuedTo(issued, hash, p.caller.clientId)
             case Selected(row) => IssuedTo(issued, hash, row.clientId) && !Foreign(p.caller, row.clientId)
             case Replaced(newHash) =>
               hash in issued && newHash != hash && IssuedTo(issued, newHash, issued[hash])
               && !Foreign(p.caller, issued[hash])
             case CleanUp(newHash) =>
               hash in issued && newHash != hash && IssuedTo(issued, newHash, issued[hash])
               && !Foreign(p.caller, issued[hash])
             case _ => false)
          case RevokeKey(hash) => p.stage.Owned? && (p.caller.Tenant? ==> IssuedTo(issued, hash, p.caller.clientId))
          case DeleteKey(hash) => p.stage.Owned? && (p.caller.Tenant? ==> IssuedTo(issued, hash, p.caller.clientId))
          case Register(client, _) => client != "" && (p.stage.ClientAdded? || p.stage.KeyAdded? || p.stage.RollBack?)
          case Bootstrap => p.stage.Counted? || p.stage.NoDefault? || p.stage.DefaultReady?
          case Check(_, _) => p.stage.Configured? && Serviceable(p.stage.config)
          case _ => false)
  }

  /** Every script in the log was called with strictly positive parameters. */
  predicate PositiveCommand(cmd: K.Command) {
    match cmd
    case TakeToken(_, call, _) => call.capacity > 0 && call.refillRate > 0
    case SlideWindow(_, call, _) => call.capacity > 0 && call.windowSize > 0
    case _ => false
  }

  ghost predicate Inv(s: State) {
    && Consistent(s.db)
    && KeysAreIssued(s.db, s.issued)
    && IssuedTo(s.issued, MASTER, DEFAULT_CLIENT)
    && (forall k :: 0 <= k < |s.procs| ==> Established(s.issued, s.procs[k]))
    && (forall k :: 0 <= k < |s.log| ==> PositiveCommand(s.log[k]))
  }

  /** Hashes keep their owners. */
  predicate Extends(issued: map<string, string>, more: map<string, string>) {
    forall h :: h in issued ==> h in more && more[h] == issued[h]
  }

  lemma {:induction false} EstablishedStays(issued: map<string, string>, more: map<string, string>, p: Process)
    requires Established(issued, p) && Extends(issued, more)
    ensures Established(more, p)
  {
  }

  /** The statements requests send are well formed. */
  lemma {:induction false} StatementsWellFormed(s: State, p: Process, ch: Choice)
    requires Established(s.issued, p) && StatementOf(p, ch).Some?
    ensures WellFormed(StatementOf(p, ch).value)
  {
  }

  /** A stored key is either fresh or the master key of the default client. */
  lemma {:induction false} InsertedHashIsFresh(s: State, p: Process, ch: Choice)
    requires Established(s.issued, p) && !p.stage.Finished?
    requires Generates(p) ==> ch.newHash !in s.issued
    requires StatementOf(p, ch).Some? && StatementOf(p, ch).value.InsertKey?
    ensures var insert := StatementOf(p, ch).value;
            insert.hash !in s.issued ||
            (p.op.Bootstrap? && insert.hash == MASTER && insert.key.clientId == DEFAULT_CLIENT)
  {
  }

  lemma {:induction false} IssuedExtends(s: State, p: Process, ch: Choice)
    requires Inv(s) && Established(s.issued, p) && !p.stage.Finished?
    requires Generates(p) ==> ch.newHash !in s.issued
    ensures Extends(s.issued, IssuedAfter(s, p, ch))
    ensures KeysAreIssued(DbAfter(s.db, p, ch), IssuedAfter(s, p, ch))
  {
    if StatementOf(p, ch).Some? && StatementOf(p, ch).value.InsertKey? {
      InsertedHashIsFresh(s, p, ch);
    }
  }

  lemma {:induction false} RotationEstablishes(s: State, p: Process, ch: Choice)
    requires Inv(s) && Established(s.issued, p) && !p.stage.Finished? && p.op.RotateKey?
    requires Generates(p) ==> ch.newHash !in s.issued
    ensures Established(IssuedAfter(s, p, ch), p.(stage := StageAfter(s.db, s.log, p, ch)))
  {
    IssuedExtends(s, p, ch);
  }

  lemma {:induction false} StageEstablishes(s: State, p: Process, ch: Choice)
    requires Inv(s) && Established(s.issued, p) && !p.stage.Finished?
    requires Generates(p) ==> ch.newHash !in s.issued
    ensures Established(IssuedAfter(s, p, ch), p.(stage := StageAfter(s.db, s.log, p, ch)))
  {
    if p.op.RotateKey? {
      RotationEstablishes(s, p, ch);
    } else {
      IssuedExtends(s, p, ch);
    }
  }

  lemma {:induction false} DbStaysConsistent(s: State, p: Process, ch: Choice)
    requires Inv(s) && Established(s.issued, p)
    ensures Consistent(DbAfter(s.db, p, ch))
  {
    if StatementOf(p, ch).Some? {
      StatementsWellFormed(s, p, ch);
      StatementsKeepConsistent(s.db, StatementOf(p, ch).value);
    }
  }

  /** Every step of every request keeps the invariant. */
  lemma {:induction false} StepKeepsInv(s: State, e: Event)
    requires Inv(s) && Enabled(s, e)
    ensures Inv(Next(s, e))
  {
    match e
    case Arrive(caller, op, _, _) =>
      assert Established(s.issued, Process(caller, op, Start));
    case Run(i, ch) =>
      var p := s.procs[i];
      var s' := Next(s, e);
      DbStaysConsistent(s, p, ch);
      IssuedExtends(s, p, ch);
      StageEstablishes(s, p, ch);
      forall k | 0 <= k < |s'.procs| ensures Established(s'.issued, s'.procs[k]) {
        if k != i {
          EstablishedStays(s.issued, s'.issued, s.procs[k]);
        }
      }
      assert forall k :: 0 <= k < |s'.log| ==>
                k < |s.log| || s'.log[k] == CommandFor(p.op.user, p.stage.config, ch.now, ch.clock);
  }

  lemma {:induction false} RunKeepsInv(states: seq<State>, events: seq<Event>, k: nat)
    requires IsRun(states, events) && k < |states|
    ensures Inv(states[k])
    decreases k
  {
    if k > 0 {
      RunKeepsInv(states, events, k - 1);
      assert StepOf(states, events, k - 1);
      StepKeepsInv(states[k - 1], events[k - 1]);
    }
  }

  // ---- Answers ----

  /** At step `j` check `i` runs its limiter script for the user, and the verdict is positive. */
  predicate GrantedAt(states: seq<State>, events: seq<Event>, i: nat, user: string, j: nat)
    requires |states| == |events| + 1
  {
    && j < |events| && events[j].Run? && events[j].i == i
    && |states[j + 1].log| == |states[j].log| + 1
    && (var cmd := states[j + 1].log[|states[j].log|];
        && states[j + 1].log == states[j].log + [cmd]
        && (cmd.TakeToken? || cmd.SlideWindow?) && cmd.user == user && K.Grants(states[j].log, cmd))
  }

  /** At step `j` check `i` of the user has its configuration and turns to the limiter. */
  predicate TurnsToLimiter(states: seq<State>, events: seq<Event>, i: nat, user: string, j: nat)
    requires |states| == |events| + 1
  {
    && j < |events| && events[j].Run? && events[j].i == i && i < |states[j].procs| && i < |states[j + 1].procs|
    && states[j].procs[i].op.Check? && states[j].procs[i].op.user == user && states[j].procs[i].stage.Configured?
  }

  /** A check is over once it has turned to the limiter, and answered yes exactly when the script ran,
      its reply arrived, and the verdict is positive. The script runs unless the store is not
      reached, and then nothing is logged. */
  lemma {:induction false} AnswerIff(states: seq<State>, events: seq<Event>, i: nat, user: string, j: nat)
    requires IsRun(states, events) && TurnsToLimiter(states, events, i, user, j)
    ensures states[j + 1].procs[i].stage.Finished?
    ensures states[j + 1].procs[i].stage == Finished(true) <==>
            !events[j].ch.fault && !events[j].ch.lost && GrantedAt(states, events, i, user, j)
    ensures if events[j].ch.fault then states[j + 1].log == states[j].log
            else |states[j + 1].log| == |states[j].log| + 1 && states[j].log <= states[j + 1].log
  {
    assert StepOf(states, events, j);
  }

  /** The configuration a check turns to the limiter with was stored for exactly its user and route
      when it read it. */
  lemma {:induction false} ConfigWasStored(states: seq<State>, events: seq<Event>, i: nat, k: nat)
    requires IsRun(states, events) && k < |states| && i < |states[k].procs|
    requires states[k].procs[i].op.Check? && states[k].procs[i].stage.Configured?
    ensures var p := states[k].procs[i];
            exists j: nat :: j < k && StoredConfig(states[j].db, p.op.user, p.op.route, p.stage.config)
    decreases k
  {
    assert k > 0 && StepOf(states, events, k - 1);
    if i < |states[k - 1].procs| && states[k - 1].procs[i].stage.Configured? {
      ConfigWasStored(states, events, i, k - 1);
    } else {
      var p := states[k].procs[i];
      assert StoredConfig(states[k - 1].db, p.op.user, p.op.route, p.stage.config);
    }
  }

  predicate StoredConfig(db: Db, user: string, route: string, config: ConfigRow) {
    user != "" && route != "" && (user, route) in db.configs && db.configs[(user, route)] == config
  }

  /** A check finds its configuration exactly when user and route are named, the database answers and
      a row for exactly them is stored. */
  lemma {:induction false} LookupIff(states: seq<State>, events: seq<Event>, i: nat, j: nat, config: ConfigRow)
    requires IsRun(states, events) && j < |events| && events[j].Run? && events[j].i == i
    requires i < |states[j].procs| && states[j].procs[i].op.Check? && states[j].procs[i].stage.Start?
    ensures i < |states[j + 1].procs| && states[j + 1].db == states[j].db && states[j + 1].log == states[j].log
    ensures var op := states[j].procs[i].op;
            states[j + 1].procs[i].stage == Configured(config) <==>
            !events[j].ch.fault && StoredConfig(states[j].db, op.user, op.route, config)
  {
    assert StepOf(states, events, j);
  }

  /** Every check answered yes ran its own limiter script with a positive verdict. */
  lemma {:induction false} YesWasGranted(states: seq<State>, events: seq<Event>, i: nat, k: nat)
    requires IsRun(states, events) && k < |states| && i < |states[k].procs|
    requires states[k].procs[i].op.Check? && states[k].procs[i].stage == Finished(true)
    ensures exists j: nat :: j < k && GrantedAt(states, events, i, states[k].procs[i].op.user, j)
    decreases k
  {
    assert k > 0 && StepOf(states, events, k - 1);
    if i < |states[k - 1].procs| && states[k - 1].procs[i].stage == Finished(true) {
      YesWasGranted(states, events, i, k - 1);
    } else {
      assert GrantedAt(states, events, i, states[k].procs[i].op.user, k - 1);
    }
  }

  // ---- Tenants stay within their own data ----

  /** Nothing but keys and configurations of `client` differs. */
  ghost predicate OnlyTouches(before: Db, after: Db, client: string) {
    && after.clients == before.clients
    && (forall h :: h in before.keys && before.keys[h].clientId != client ==>
          h in after.keys && after.keys[h] == before.keys[h])
    && (forall h :: h in after.keys && after.keys[h].clientId != client ==>
          h in before.keys && before.keys[h] == after.keys[h])
    && (forall cr :: cr in before.configs && cr.0 != client ==>
          cr in after.configs && after.configs[cr] == before.configs[cr])
    && (forall cr :: cr in after.configs && cr.0 != client ==>
          cr in before.configs && before.configs[cr] == after.configs[cr])
  }

  predicate StepOfTenant(s: State, e: Event, client: string) {
    e.Run? && e.i < |s.procs| && s.procs[e.i].caller == Tenant(client)
  }

  /** A statement aimed at the data of `client`, judged by the owners of the hashes it names. */
  predicate AimedAt(issued: map<string, string>, s: Statement, client: string) {
    match s
    case InsertKey(_, key) => key.clientId == client
    case DeactivateKey(hash) => IssuedTo(issued, hash, client)
    case RemoveKey(hash) => IssuedTo(issued, hash, client)
    case UpsertConfig(c, _, _) => c == client
    case RemoveConfig(c, _) => c == client
    case _ => false
  }

  lemma {:induction false} AimedStatementTouches(s: State, stmt: Statement, client: string)
    requires KeysAreIssued(s.db, s.issued) && AimedAt(s.issued, stmt, client)
    ensures OnlyTouches(s.db, Execute(s.db, stmt), client)
  {
  }

  lemma {:induction false} TenantStatementsAimed(s: State, p: Process, ch: Choice)
    requires Inv(s) && Established(s.issued, p) && p.caller.Tenant? && StatementOf(p, ch).Some?
    requires !p.stage.Finished?
    ensures AimedAt(s.issued, StatementOf(p, ch).value, p.caller.clientId)
  {
  }

  /** The tenant frame: in every interleaving, a step of a request authenticated with a client's
      own key changes only that client's keys and configurations, whatever other statements ran
      between its ownership scan and the step. */
  lemma {:induction false} TenantFrame(states: seq<State>, events: seq<Event>, k: nat, client: string)
    requires IsRun(states, events) && k < |events|
    requires StepOfTenant(states[k], events[k], client)
    ensures OnlyTouches(states[k].db, states[k + 1].db, client)
  {
    RunKeepsInv(states, events, k);
    assert StepOf(states, events, k);
    var p, ch := states[k].procs[events[k].i], events[k].ch;
    if StatementOf(p, ch).Some? {
      TenantStatementsAimed(states[k], p, ch);
      AimedStatementTouches(states[k], StatementOf(p, ch).value, client);
    }
  }

  // ---- Rejection is permanent ----

  /** While a key's row exists, authentication that refuses it keeps refusing it. */
  lemma {:induction false} RowOnlyAges(states: seq<State>, events: seq<Event>, a: nat, b: nat, hash: string)
    requires IsRun(states, events) && a <= b < |states|
    requires forall k :: a <= k <= b ==> hash in states[k].db.keys
    ensures Auth.OnlyAged(states[a].db.keys[hash], states[b].db.keys[hash])
    decreases b
  {
    if a < b {
      RowOnlyAges(states, events, a, b - 1, hash);
      assert StepOf(states, events, b - 1);
      var s, e := states[b - 1], events[b - 1];
      if e.Run? && !e.ch.fault && StatementOf(s.procs[e.i], e.ch).Some? {
        Auth.StatementsOnlyAge(s.db, StatementOf(s.procs[e.i], e.ch).value, hash);
      }
    }
  }

  lemma {:induction false} RejectionIsPermanent(states: seq<State>, events: seq<Event>, a: nat, b: nat,
                                                hash: string, now: int, later: int, maxAge: int)
    requires IsRun(states, events) && a <= b < |states| && now <= later
    requires forall k :: a <= k <= b ==> hash in states[k].db.keys
    requires !Auth.Acceptable(states[a].db.keys[hash], now, maxAge)
    ensures !Auth.Acceptable(states[b].db.keys[hash], later, maxAge)
  {
    RowOnlyAges(states, events, a, b, hash);
    Auth.RejectionPersists(states[a].db.keys[hash], states[b].db.keys[hash], now, later, maxAge);
  }

  /** Request `i` is a bootstrap that is past its count. */
  predicate PastCount(s: State, i: nat) {
    i < |s.procs| && s.procs[i].op.Bootstrap? && !s.procs[i].stage.Start? && !s.procs[i].stage.Finished?
  }

  /** At step `j` request `i` counted the keys and found none. */
  predicate CountedNone(states: seq<State>, events: seq<Event>, i: nat, j: nat)
    requires |states| == |events| + 1
  {
    j < |events| && events[j].Run? && events[j].i == i && states[j].db.keys == map[]
    && i < |states[j].procs| && states[j].procs[i] == Process(states[j].procs[i].caller, Bootstrap, Start)
  }

  lemma {:induction false} BootstrapCountedNone(states: seq<State>, events: seq<Event>, i: nat, k: nat) returns (j: nat)
    requires IsRun(states, events) && k < |states| && PastCount(states[k], i)
    ensures j < k && CountedNone(states, events, i, j)
    decreases k
  {
    assert k > 0;
    assert StepOf(states, events, k - 1);
    if PastCount(states[k - 1], i) {
      j := BootstrapCountedNone(states, events, i, k - 1);
    } else {
      j := k - 1;
    }
  }

  /** A hash that was stored once and is gone returns only as the master key, stored by a bootstrap
      whose own count found the key table empty. */
  lemma {:induction false} GoneKeyReturnsByBootstrap(states: seq<State>, events: seq<Event>, k: nat, hash: string)
    requires IsRun(states, events) && k < |events|
    requires hash in states[k].issued && hash !in states[k].db.keys && hash in states[k + 1].db.keys
    ensures hash == MASTER && events[k].Run?
    ensures exists j: nat :: j < k && CountedNone(states, events, events[k].i, j)
  {
    RunKeepsInv(states, events, k);
    assert StepOf(states, events, k);
    var s, e := states[k], events[k];
    assert e.Run?;
    var p := s.procs[e.i];
    assert StatementOf(p, e.ch).Some? && StatementOf(p, e.ch).value.InsertKey?;
    InsertedHashIsFresh(s, p, e.ch);
    var j := BootstrapCountedNone(states, events, e.i, k);
  }
}
