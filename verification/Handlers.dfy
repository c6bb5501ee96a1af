/** The parts of the HTTP handlers and the startup code that run several statements in a row. */
module Handlers {
  import opened Prelude
  import opened Database
  import opened PostgresStore

  /** The ownership check of the rotate, revoke and delete handlers: list the caller's keys and
      look for the hash among them. A caller without a name would list every key. */
  method OwnsKey(store: Store, authClientId: string, hash: string, fault: bool) returns (r: Result<bool>)
    ensures r.Err? <==> fault
    ensures r.Ok? ==>
              (r.value <==> hash in store.db.keys &&
                            (authClientId == "" || store.db.keys[hash].clientId == authClientId))
  {
    var listed := store.ListAPIKeys(authClientId, fault);
    if listed.Err? {
      return Err(listed.error);
    }
    var keys := listed.value;
    var keyFound := false;
    for i := 0 to |keys|
      invariant !keyFound
      invariant forall j :: 0 <= j < i ==> keys[j].hash != hash
    {
      if keys[i].hash == hash {
        keyFound := true;
        assert keys[i] in keys;
        break;
      }
    }
    if !keyFound && hash in store.db.keys {
      assert APIKey(hash, store.db.keys[hash]) !in keys;
    }
    return Ok(keyFound);
  }

  datatype Registration = Registered | NameRequired | NameTaken | KeyFailed

  /** Which of the statements of a registration fail. */
  datatype RegistrationFaults = RegistrationFaults(client: bool, key: bool, rollback: bool, config: bool)

  const DEFAULT_CONFIG := ConfigRow(TOKEN_BUCKET, 100, 1, 10, 60)

  /** Registration run alone. It either leaves the tables as they were, or adds exactly one client,
      one active client key and at most the default configuration. The one exception is a rollback
      that fails, which leaves the bare client. */
  method RegisterHandler(store: Store, name: string, description: string, now: int, hash: string,
                         faults: RegistrationFaults)
    returns (r: Registration)
    requires Consistent(store.db)
    modifies store
    ensures Consistent(store.db)
    ensures r == if name == "" then NameRequired
                 else if faults.client || name in old(store.db).clients then NameTaken
                 else if faults.key || hash in old(store.db).keys then KeyFailed else Registered
    ensures r == Registered ==>
              store.db == Db(old(store.db).clients[name := description],
                             old(store.db).keys[hash :=
                               KeyRow(name, "Default API Key", "client", true, now, None, None)],
                             if faults.config then old(store.db).configs
                             else old(store.db).configs[(name, "*") := ConfigRow("token_bucket", 100, 1, 10, 60)])
    ensures r != Registered ==>
              store.db == if r == KeyFailed && faults.rollback
                          then old(store.db).(clients := old(store.db).clients[name := description]) else old(store.db)
  {
    if name == "" {
      return NameRequired;
    }
    ghost var before := store.db;
    var created := store.CreateClient(name, description, faults.client);
    if !created {
      return NameTaken;
    }
    StatementsKeepConsistent(before, InsertClient(name, description));
    var keyed := store.CreateAPIKey(name, "Default API Key", "client", now, hash, faults.key);
    if !keyed {
      var _ := store.DeleteClient(name, faults.rollback);
      NothingElseRemoved(before, name);
      assert !faults.rollback ==> store.db.clients == before.clients;
      return KeyFailed;
    }
    var cfg := ConfigInput(name, "*", DEFAULT_CONFIG);
    var _ := store.UpsertRateLimitConfig(cfg, faults.config);
    return Registered;
  }

  /** Nothing refers to a client that does not exist, so the cascade of its removal is empty. */
  lemma {:induction false} NothingElseRemoved(db: Db, name: string)
    requires Consistent(db) && name !in db.clients
    ensures (map h | h in db.keys && db.keys[h].clientId != name :: db.keys[h]) == db.keys
    ensures (map cr | cr in db.configs && cr.0 != name :: db.configs[cr]) == db.configs
  {
  }

  const DEFAULT_CLIENT := "default"

  datatype BootstrapFaults = BootstrapFaults(count: bool, select: bool, client: bool, key: bool)

  /** Seeding the master key run alone. Nothing happens unless the key table is empty; then, if no
      statement fails, the master key is the only key and belongs to the default client. */
  method BootstrapMasterKey(store: Store, masterHash: string, now: int, faults: BootstrapFaults) returns (ok: bool)
    requires Consistent(store.db)
    modifies store
    ensures Consistent(store.db)
    ensures old(store.db).keys != map[] ==> store.db == old(store.db) && ok == !faults.count
    ensures old(store.db).keys == map[] ==>
              (ok <==> !faults.count && !faults.key &&
                       (if faults.select || DEFAULT_CLIENT !in old(store.db).clients
                        then !faults.client && DEFAULT_CLIENT !in old(store.db).clients else true))
    ensures old(store.db).keys == map[] && ok ==>
              store.db.keys == map[masterHash := KeyRow("default", "Master Admin Key", "admin", true, now, None, None)]
    ensures old(store.db).keys == map[] && !ok ==> store.db.keys == map[]
    ensures store.db.configs == old(store.db).configs
    ensures store.db.clients ==
            if old(store.db).keys == map[] && !faults.count && !faults.client && "default" !in old(store.db).clients
            then old(store.db).clients["default" := "Default client"] else old(store.db).clients
  {
    if faults.count {
      return false;
    }
    if |store.db.keys| > 0 {
      return true;
    }
    if faults.select || DEFAULT_CLIENT !in store.db.clients {
      StatementsKeepConsistent(store.db, InsertClient(DEFAULT_CLIENT, "Default client"));
      var created := store.Exec(InsertClient(DEFAULT_CLIENT, "Default client"), faults.client);
      if created == Failed {
        return false;
      }
    }
    var row := NewKey(DEFAULT_CLIENT, "Master Admin Key", "admin", now, None);
    StatementsKeepConsistent(store.db, InsertKey(masterHash, row));
    var inserted := store.Exec(InsertKey(masterHash, row), faults.key);
    ok := inserted != Failed;
  }
}
