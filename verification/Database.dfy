/** The relational store: three tables, the SQL statements the service sends, and the methods that
    send them. Each statement is atomic; the gaps between statements are not. */
module Database {
  import opened Prelude

  datatype KeyRow = KeyRow(clientId: string, name: string, keyType: string, active: bool,
                           createdAt: int, expiresAt: Option<int>, lastUsedAt: Option<int>)

  datatype ConfigRow = ConfigRow(algorithm: string, limit: int, refillRate: int, capacity: int, windowSize: int)

  /** Clients by name with their description, keys by hash, configurations by client and route. */
  datatype Db = Db(clients: map<string, string>, keys: map<string, KeyRow>,
                   configs: map<(string, string), ConfigRow>)

  const TOKEN_BUCKET := "token_bucket"
  const SLIDING_WINDOW := "sliding_window"

  // ---- Configuration validation ----

  datatype ConfigInput = ConfigInput(clientId: string, route: string, row: ConfigRow)

  datatype ConfigError =
    | InvalidClientID | InvalidRoute | InvalidAlgorithm | InvalidLimit
    | InvalidTokenBucketParams | InvalidWindowSize

  /** The first complaint about the input, if any. */
  function Validate(cfg: ConfigInput): Option<ConfigError> {
    if cfg.clientId == "" then Some(InvalidClientID)
    else if cfg.route == "" then Some(InvalidRoute)
    else if cfg.row.algorithm != TOKEN_BUCKET && cfg.row.algorithm != SLIDING_WINDOW then Some(InvalidAlgorithm)
    else if cfg.row.limit <= 0 then Some(InvalidLimit)
    else if cfg.row.algorithm == TOKEN_BUCKET && (cfg.row.refillRate <= 0 || cfg.row.capacity <= 0)
    then Some(InvalidTokenBucketParams)
    else if cfg.row.algorithm == SLIDING_WINDOW && cfg.row.windowSize <= 0 then Some(InvalidWindowSize)
    else None
  }

  /** What the check path needs of a stored row: a known algorithm and strictly positive values for
      the parameters that algorithm is called with. */
  predicate Serviceable(row: ConfigRow) {
    || (row.algorithm == TOKEN_BUCKET && row.capacity > 0 && row.refillRate > 0)
    || (row.algorithm == SLIDING_WINDOW && row.limit > 0 && row.windowSize > 0)
  }

  // ---- Statements ----

  datatype Statement =
    | InsertClient(client: string, description: string)
    | UpdateClient(client: string, description: string)
    | RemoveClient(client: string)
    | InsertKey(hash: string, key: KeyRow)
    | DeactivateKey(hash: string)
    | RemoveKey(hash: string)
    | TouchKey(hash: string, now: int)
    | UpsertConfig(client: string, route: string, config: ConfigRow)
    | RemoveConfig(client: string, route: string)

  /** The error of a statement, or the number of rows it affected. */
  datatype Outcome = Failed | Affected(rows: nat)

  /** Unique keys, foreign keys and the column checks of the schema. */
  predicate Accepted(db: Db, s: Statement) {
    match s
    case InsertClient(client, _) => client !in db.clients
    case InsertKey(hash, key) => hash !in db.keys && key.clientId in db.clients
    case UpsertConfig(client, _, config) =>
      client in db.clients && config.limit > 0
      && (config.algorithm == TOKEN_BUCKET || config.algorithm == SLIDING_WINDOW)
    case _ => true
  }

  function OutcomeOf(db: Db, s: Statement): Outcome {
    if !Accepted(db, s) then Failed else
      match s
      case UpdateClient(client, _) => Affected(if client in db.clients then 1 else 0)
      case RemoveClient(client) => Affected(if client in db.clients then 1 else 0)
      case DeactivateKey(hash) => Affected(if hash in db.keys then 1 else 0)
      case RemoveKey(hash) => Affected(if hash in db.keys then 1 else 0)
      case TouchKey(hash, _) => Affected(if hash in db.keys && db.keys[hash].active then 1 else 0)
      case RemoveConfig(client, route) => Affected(if (client, route) in db.configs then 1 else 0)
      case _ => Affected(1)
  }

  /** The tables after the statement; a refused statement changes nothing. Removing a client
      removes its keys and configurations with it. */
  function Execute(db: Db, s: Statement): Db {
    if !Accepted(db, s) then db else
      match s
      case InsertClient(client, description) => db.(clients := db.clients[client := description])
      case UpdateClient(client, description) =>
        if client in db.clients then db.(clients := db.clients[client := description]) else db
      case RemoveClient(client) =>
        if client !in db.clients then db else Db(db.clients - {client},
           map h | h in db.keys && db.keys[h].clientId != client :: db.keys[h],
           map cr | cr in db.configs && cr.0 != client :: db.configs[cr])
      case InsertKey(hash, key) => db.(keys := db.keys[hash := key])
      case DeactivateKey(hash) =>
        if hash in db.keys then db.(keys := db.keys[hash := db.keys[hash].(active := false)]) else db
      case RemoveKey(hash) => db.(keys := db.keys - {hash})
      case TouchKey(hash, now) =>
        if hash in db.keys && db.keys[hash].active
        then db.(keys := db.keys[hash := db.keys[hash].(lastUsedAt := Some(now))]) else db
      case UpsertConfig(client, route, config) => db.(configs := db.configs[(client, route) := config])
      case RemoveConfig(client, route) => db.(configs := db.configs - {(client, route)})
  }

  // ---- The invariant of the tables ----

  /** Every key and configuration belongs to an existing client, every stored configuration can be
      served, and no client has the empty name. */
  ghost predicate Consistent(db: Db) {
    && "" !in db.clients
    && (forall h :: h in db.keys ==> db.keys[h].clientId in db.clients)
    && (forall cr :: cr in db.configs ==> cr.0 in db.clients)
    && (forall cr :: cr in db.configs ==> Serviceable(db.configs[cr]))
  }

  /** What the handlers guarantee of the statements they send, beyond what the schema checks. */
  predicate WellFormed(s: Statement) {
    match s
    case InsertClient(client, _) => client != ""
    case UpsertConfig(client, route, config) => Validate(ConfigInput(client, route, config)) == None
    case _ => true
  }

  /** Which complaint comes first: the client, the route, the algorithm, the limit, and then the
      parameters of the algorithm. */
  lemma {:induction false} FirstComplaint(cfg: ConfigInput)
    ensures var row := cfg.row;
            var named := cfg.clientId != "" && cfg.route != "";
            var known := named && (row.algorithm == "token_bucket" || row.algorithm == "sliding_window");
            var limited := known && row.limit >= 1;
            match Validate(cfg)
            case Some(InvalidClientID) => cfg.clientId == ""
            case Some(InvalidRoute) => cfg.clientId != "" && cfg.route == ""
            case Some(InvalidAlgorithm) => named && !known
            case Some(InvalidLimit) => known && !limited
            case Some(InvalidTokenBucketParams) =>
              limited && row.algorithm == "token_bucket" && !(row.refillRate >= 1 && row.capacity >= 1)
            case Some(InvalidWindowSize) => limited && row.algorithm == "sliding_window" && !(row.windowSize >= 1)
            case None =>
              limited && (row.algorithm == "token_bucket" ==> row.refillRate >= 1 && row.capacity >= 1)
              && (row.algorithm == "sliding_window" ==> row.windowSize >= 1)
  {
  }

  /** Validation is as strict as it needs to be: it lets exactly the inputs pass that name their
      client and route, can be served and have a positive limit, and the schema refuses none of them
      for anything but a missing client. */
  lemma {:induction false} ValidateIff(db: Db, cfg: ConfigInput)
    ensures Validate(cfg) == None <==>
            cfg.clientId != "" && cfg.route != "" && Serviceable(cfg.row) && cfg.row.limit > 0
    ensures Validate(cfg) == None ==>
            (Accepted(db, UpsertConfig(cfg.clientId, cfg.route, cfg.row)) <==> cfg.clientId in db.clients)
  {
  }

  lemma {:induction false} StatementsKeepConsistent(db: Db, s: Statement)
    requires Consistent(db) && WellFormed(s)
    ensures Consistent(Execute(db, s))
  {
    if s.UpsertConfig? {
      ValidateIff(db, ConfigInput(s.client, s.route, s.config));
    }
  }

  // ---- How many active keys ----

  function ActiveKeys(keys: map<string, KeyRow>, clientId: string, keyType: string): set<string> {
    set h | h in keys && keys[h].active && keys[h].clientId == clientId && keys[h].keyType == keyType
  }

  function ActiveCount(db: Db, clientId: string, keyType: string): nat {
    |ActiveKeys(db.keys, clientId, keyType)|
  }

  lemma {:induction false} ActiveAfterInsert(keys: map<string, KeyRow>, hash: string, row: KeyRow,
                                             clientId: string, keyType: string)
    requires hash !in keys && row.active
    ensures ActiveKeys(keys[hash := row], clientId, keyType) ==
            if row.clientId == clientId && row.keyType == keyType
            then ActiveKeys(keys, clientId, keyType) + {hash} else ActiveKeys(keys, clientId, keyType)
  {
  }

  lemma {:induction false} ActiveAfterLoss(keys: map<string, KeyRow>, hash: string, clientId: string, keyType: string)
    ensures ActiveKeys(keys - {hash}, clientId, keyType) == ActiveKeys(keys, clientId, keyType) - {hash}
    ensures hash in keys ==> ActiveKeys(keys[hash := keys[hash].(active := false)], clientId, keyType)
                             == ActiveKeys(keys, clientId, keyType) - {hash}
  {
  }

  /** A new active key counts for its own client and type only. */
  lemma {:induction false} CountAfterInsert(db: Db, hash: string, row: KeyRow, clientId: string, keyType: string)
    requires Accepted(db, InsertKey(hash, row)) && row.active
    ensures ActiveCount(Execute(db, InsertKey(hash, row)), clientId, keyType)
            == ActiveCount(db, clientId, keyType)
               + (if row.clientId == clientId && row.keyType == keyType then 1 else 0)
  {
    ActiveAfterInsert(db.keys, hash, row, clientId, keyType);
    assert hash !in ActiveKeys(db.keys, clientId, keyType);
  }

  /** A deactivated or removed key stops counting, if it counted. */
  lemma {:induction false} CountAfterLoss(db: Db, hash: string, s: Statement, clientId: string, keyType: string)
    requires s == DeactivateKey(hash) || s == RemoveKey(hash)
    ensures ActiveCount(Execute(db, s), clientId, keyType)
            == ActiveCount(db, clientId, keyType)
               - (if hash in ActiveKeys(db.keys, clientId, keyType) then 1 else 0)
  {
    ActiveAfterLoss(db.keys, hash, clientId, keyType);
    assert hash !in db.keys ==> db.keys - {hash} == db.keys;
  }
}
