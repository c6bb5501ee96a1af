/** What each kind of request does when it runs by itself, whoever sends it and whichever of its
    statements fail, told in the rows stored. */
module Requests {
  import opened Prelude
  import opened Database
  import opened Interleaving
  import Auth

  // ---- Who may send what ----

  /** A request is accepted exactly when it is one its caller may send and, for a client or an admin,
      its key is stored, active, unexpired, at most a year old, and of that client and kind. */
  lemma {:induction false} ArrivalIff(s: State, caller: Caller, op: Op, hash: string, now: int)
    ensures Enabled(s, Arrive(caller, op, hash, now)) <==>
            match caller
            case Public => op.Register?
            case Service => op.Bootstrap? || op.Touch?
            case _ =>
              && (op.CreateKey? || op.RotateKey? || op.RevokeKey? || op.DeleteKey? || op.PutConfig? || op.DropConfig?
                  || op.Check? || (caller.Admin? && (op.AddClient? || op.EditClient? || op.DropClient?)))
              && hash in s.db.keys
              && var row := s.db.keys[hash];
                 && row.active && row.clientId == caller.clientId && (caller.Admin? <==> row.keyType == "admin")
                 && (row.expiresAt != None ==> now <= row.expiresAt.value) && now <= row.createdAt + 31536000000
  {
    if hash in s.db.keys {
      Auth.LifeOfKey(s.db.keys[hash], now, MAX_KEY_AGE);
    }
  }

  // ---- Running alone ----

  /** Request `i` takes its next steps with these choices, until it is over. */
  function Alone(s: State, i: nat, chs: seq<Choice>): State
    requires i < |s.procs|
    decreases |chs|
  {
    if chs == [] || !Enabled(s, Run(i, chs[0])) then s else Alone(Next(s, Run(i, chs[0])), i, chs[1..])
  }

  /** The request is at this stage of this operation. */
  predicate At(s: State, i: nat, op: Op, stage: Stage) {
    i < |s.procs| && s.procs[i].op == op && s.procs[i].stage == stage
  }

  /** Only the database and the request's stage, and perhaps the hashes issued, differ. */
  predicate Became(s: State, t: State, i: nat, stage: Stage, db: Db) {
    i < |s.procs| && t.db == db && t.log == s.log && t.procs == s.procs[i := s.procs[i].(stage := stage)]
  }

  lemma {:induction false} OneStep(s: State, i: nat, ch: Choice, rest: seq<Choice>)
    requires i < |s.procs| && Enabled(s, Run(i, ch))
    ensures Alone(s, i, [ch] + rest) == Alone(Next(s, Run(i, ch)), i, rest)
  {
    assert ([ch] + rest)[1..] == rest;
  }

  lemma {:induction false} LastStep(s: State, i: nat, ch: Choice)
    requires i < |s.procs| && Enabled(s, Run(i, ch))
    ensures Alone(s, i, [ch]) == Next(s, Run(i, ch))
  {
    assert [ch][1..] == [];
  }

  lemma {:induction false} NoMore(s: State, i: nat, chs: seq<Choice>)
    requires i < |s.procs| && s.procs[i].stage.Finished?
    ensures Alone(s, i, chs) == s
  {
  }

  // ---- Requests of one statement ----

  /** The configuration is stored for exactly its client and route when the caller may configure that
      client, the input is complete and servable, the client exists and the statement does not fail. */
  lemma {:induction false} PutConfigAlone(s: State, i: nat, input: ConfigInput, ch: Choice)
    requires Inv(s) && At(s, i, PutConfig(input), Start)
    ensures var caller, row := s.procs[i].caller, input.row;
            var ok := && (caller.Admin? || caller == Tenant(input.clientId))
                      && input.clientId != "" && input.route != "" && row.limit >= 1
                      && ((row.algorithm == "token_bucket" && row.capacity >= 1 && row.refillRate >= 1)
                          || (row.algorithm == "sliding_window" && row.windowSize >= 1))
                      && input.clientId in s.db.clients && !ch.fault;
            Became(s, Alone(s, i, [ch]), i, Finished(ok),
                   if ok then s.db.(configs := s.db.configs[(input.clientId, input.route) := row]) else s.db)
  {
    assert Established(s.issued, s.procs[i]);
    LastStep(s, i, ch);
  }

  lemma {:induction false} DropConfigStep(s: State, i: nat, client: string, route: string, ch: Choice)
    requires Inv(s) && At(s, i, DropConfig(client, route), Start)
    ensures Enabled(s, Run(i, ch))
    ensures var caller := s.procs[i].caller;
            var ok := && client != "" && route != "" && (caller.Admin? || caller == Tenant(client))
                      && (client, route) in s.db.configs && !ch.fault;
            Became(s, Next(s, Run(i, ch)), i, Finished(ok),
                   if ok then s.db.(configs := s.db.configs - {(client, route)}) else s.db)
  {
    assert Established(s.issued, s.procs[i]);
    assert (client, route) !in s.db.configs ==> s.db.configs - {(client, route)} == s.db.configs;
  }

  lemma {:induction false} DropConfigAlone(s: State, i: nat, client: string, route: string, ch: Choice)
    requires Inv(s) && At(s, i, DropConfig(client, route), Start)
    ensures var caller := s.procs[i].caller;
            var ok := && client != "" && route != "" && (caller.Admin? || caller == Tenant(client))
                      && (client, route) in s.db.configs && !ch.fault;
            Became(s, Alone(s, i, [ch]), i, Finished(ok),
                   if ok then s.db.(configs := s.db.configs - {(client, route)}) else s.db)
  {
    DropConfigStep(s, i, client, route, ch);
    LastStep(s, i, ch);
  }

  lemma {:induction false} AddClientAlone(s: State, i: nat, client: string, description: string, ch: Choice)
    requires Inv(s) && At(s, i, AddClient(client, description), Start)
    ensures var ok := client != "" && client !in s.db.clients && !ch.fault;
            Became(s, Alone(s, i, [ch]), i, Finished(ok),
                   if ok then s.db.(clients := s.db.clients[client := description]) else s.db)
  {
    LastStep(s, i, ch);
  }

  lemma {:induction false} EditClientAlone(s: State, i: nat, client: string, description: string, ch: Choice)
    requires Inv(s) && At(s, i, EditClient(client, description), Start)
    ensures var ok := client != "" && client in s.db.clients && !ch.fault;
            Became(s, Alone(s, i, [ch]), i, Finished(ok),
                   if ok then s.db.(clients := s.db.clients[client := description]) else s.db)
  {
    LastStep(s, i, ch);
  }

  /** A client goes together with exactly its keys and configurations. */
  lemma {:induction false} DropClientAlone(s: State, i: nat, client: string, ch: Choice)
    requires Inv(s) && At(s, i, DropClient(client), Start)
    ensures var ok := client in s.db.clients && !ch.fault;
            var db := Alone(s, i, [ch]).db;
            && Became(s, Alone(s, i, [ch]), i, Finished(ok), db)
            && (!ok ==> db == s.db)
            && (ok ==> && db.clients == s.db.clients - {client}
                       && (forall h :: h in db.keys <==> h in s.db.keys && s.db.keys[h].clientId != client)
                       && (forall h :: h in db.keys ==> db.keys[h] == s.db.keys[h])
                       && (forall cr :: cr in db.configs <==> cr in s.db.configs && cr.0 != client)
                       && (forall cr :: cr in db.configs ==> db.configs[cr] == s.db.configs[cr]))
  {
    LastStep(s, i, ch);
  }

  /** The time of last use of an active key, and nothing else. */
  lemma {:induction false} TouchAlone(s: State, i: nat, hash: string, ch: Choice)
    requires Inv(s) && At(s, i, Touch(hash), Start)
    ensures var ok := hash in s.db.keys && s.db.keys[hash].active && !ch.fault;
            Became(s, Alone(s, i, [ch]), i, Finished(ok),
                   if ok then s.db.(keys := s.db.keys[hash := s.db.keys[hash].(lastUsedAt := Some(ch.now))]) else s.db)
  {
    LastStep(s, i, ch);
  }

  // ---- Requests about a key of the caller's ----

  /** The scan lets an admin through, and a client whose own key it is. */
  predicate Owns(s: State, i: nat, hash: string, fault: bool)
    requires i < |s.procs|
  {
    hash != "" &&
    (s.procs[i].caller.Admin? ||
     (!fault && hash in s.db.keys && s.procs[i].caller == Tenant(s.db.keys[hash].clientId)))
  }

  lemma {:induction false} Scan(s: State, i: nat, hash: string, ch: Choice)
    requires Inv(s) && i < |s.procs| && s.procs[i].stage.Start?
    requires s.procs[i].op in {RotateKey(hash), RevokeKey(hash), DeleteKey(hash)}
    ensures Enabled(s, Run(i, ch)) && Next(s, Run(i, ch)).issued == s.issued
    ensures Became(s, Next(s, Run(i, ch)), i, if Owns(s, i, hash, ch.fault) then Owned else Finished(false), s.db)
  {
    assert Established(s.issued, s.procs[i]);
  }

  /** A revoked key becomes inactive and keeps everything else. */
  lemma {:induction false} RevokeAlone(s: State, i: nat, hash: string, scan: Choice, ch: Choice)
    requires Inv(s) && At(s, i, RevokeKey(hash), Start)
    ensures var ok := Owns(s, i, hash, scan.fault) && hash in s.db.keys && !ch.fault;
            Became(s, Alone(s, i, [scan] + [ch]), i, Finished(ok),
                   if ok then s.db.(keys := s.db.keys[hash := s.db.keys[hash].(active := false)]) else s.db)
  {
    Scan(s, i, hash, scan);
    OneStep(s, i, scan, [ch]);
    var t := Next(s, Run(i, scan));
    if t.procs[i].stage.Finished? {
      NoMore(t, i, [ch]);
    } else {
      LastStep(t, i, ch);
    }
  }

  /** A deleted key is the one row that goes. */
  lemma {:induction false} DeleteAlone(s: State, i: nat, hash: string, scan: Choice, ch: Choice)
    requires Inv(s) && At(s, i, DeleteKey(hash), Start)
    ensures var ok := Owns(s, i, hash, scan.fault) && hash in s.db.keys && !ch.fault;
            Became(s, Alone(s, i, [scan] + [ch]), i, Finished(ok),
                   if ok then s.db.(keys := s.db.keys - {hash}) else s.db)
  {
    Scan(s, i, hash, scan);
    OneStep(s, i, scan, [ch]);
    var t := Next(s, Run(i, scan));
    if t.procs[i].stage.Finished? {
      NoMore(t, i, [ch]);
    } else {
      LastStep(t, i, ch);
      assert hash !in s.db.keys ==> s.db.keys - {hash} == s.db.keys;
    }
  }

  // ---- Rotation ----

  /** The row that replaces a rotated key: same client, type and name marked, active from now on and
      without expiry. */
  function Replacing(row: KeyRow, now: int): KeyRow {
    KeyRow(row.clientId, row.name + " (rotated)", row.keyType, true, now, None, None)
  }

  /** The end of a rotation that has stored its replacement. */
  lemma {:induction false} EndOfRotation(s: State, i: nat, hash: string, newHash: string, update: Choice,
                                         cleanup: Choice)
    requires At(s, i, RotateKey(hash), Replaced(newHash)) && hash in s.db.keys
    ensures var db := if !update.fault then s.db.(keys := s.db.keys[hash := s.db.keys[hash].(active := false)])
                      else if !cleanup.fault then s.db.(keys := s.db.keys - {newHash}) else s.db;
            Became(s, Alone(s, i, [update] + [cleanup]), i, Finished(!update.fault), db)
  {
    OneStep(s, i, update, [cleanup]);
    var t := Next(s, Run(i, update));
    if update.fault {
      LastStep(t, i, cleanup);
    } else {
      NoMore(t, i, [cleanup]);
    }
  }

  lemma {:induction false} StoreReplacement(s: State, i: nat, hash: string, row: KeyRow, insert: Choice)
    requires Inv(s) && At(s, i, RotateKey(hash), Selected(row)) && hash in s.db.keys && s.db.keys[hash] == row
    requires insert.newHash !in s.issued
    ensures Enabled(s, Run(i, insert)) && insert.newHash !in s.db.keys
    ensures Became(s, Next(s, Run(i, insert)), i, if insert.fault then Finished(false) else Replaced(insert.newHash),
                   if insert.fault then s.db
                   else s.db.(keys := s.db.keys[insert.newHash := Replacing(row, insert.now)]))
  {
    assert insert.newHash !in s.db.keys && row.clientId in s.db.clients;
  }

  lemma {:induction false} StoredAndRemoved(keys: map<string, KeyRow>, hash: string, row: KeyRow)
    requires hash !in keys
    ensures keys[hash := row] - {hash} == keys
  {
  }

  /** The rotation from the insertion on. */
  lemma {:induction false} MiddleOfRotation(s: State, i: nat, hash: string, row: KeyRow, insert: Choice, update: Choice,
                                            cleanup: Choice)
    requires Inv(s) && At(s, i, RotateKey(hash), Selected(row)) && hash in s.db.keys && s.db.keys[hash] == row
    requires insert.newHash !in s.issued
    ensures var ok := !insert.fault && !update.fault;
            var stored := s.db.keys[insert.newHash := Replacing(row, insert.now)];
            var db := if ok then s.db.(keys := stored[hash := row.(active := false)])
                      else if !insert.fault && cleanup.fault then s.db.(keys := stored) else s.db;
            Became(s, Alone(s, i, [insert] + ([update] + [cleanup])), i, Finished(ok), db)
  {
    var rest := [update] + [cleanup];
    StoreReplacement(s, i, hash, row, insert);
    OneStep(s, i, insert, rest);
    var t := Next(s, Run(i, insert));
    if insert.fault {
      NoMore(t, i, rest);
    } else {
      EndOfRotation(t, i, hash, insert.newHash, update, cleanup);
      StoredAndRemoved(s.db.keys, insert.newHash, Replacing(row, insert.now));
    }
  }

  /** A rotation by itself succeeds exactly when the scan lets the caller through, the old key is
      stored and active, and no statement fails. Then the old key is inactive and the replacement is
      the one new row. Otherwise the tables are as before, unless the compensation fails too, which
      leaves the replacement beside the active old key. */
  lemma {:induction false} RotationAlone(s: State, i: nat, hash: string, scan: Choice, read: Choice, insert: Choice,
                                         update: Choice, cleanup: Choice)
    requires Inv(s) && At(s, i, RotateKey(hash), Start) && insert.newHash !in s.issued
    ensures var readable := Owns(s, i, hash, scan.fault) && !read.fault && hash in s.db.keys && s.db.keys[hash].active;
            var ok := readable && !insert.fault && !update.fault;
            var db := if !readable then s.db else
                        var stored := s.db.keys[insert.newHash := Replacing(s.db.keys[hash], insert.now)];
                        if ok then s.db.(keys := stored[hash := s.db.keys[hash].(active := false)])
                        else if !insert.fault && cleanup.fault then s.db.(keys := stored) else s.db;
            Became(s, Alone(s, i, [scan] + ([read] + ([insert] + ([update] + [cleanup])))), i, Finished(ok), db)
  {
    var last := [insert] + ([update] + [cleanup]);
    var rest := [read] + last;
    Scan(s, i, hash, scan);
    StepKeepsInv(s, Run(i, scan));
    OneStep(s, i, scan, rest);
    var t := Next(s, Run(i, scan));
    if t.procs[i].stage.Finished? {
      NoMore(t, i, rest);
    } else {
      StepKeepsInv(t, Run(i, read));
      OneStep(t, i, read, last);
      var u := Next(t, Run(i, read));
      if u.procs[i].stage.Finished? {
        NoMore(u, i, last);
      } else {
        MiddleOfRotation(u, i, hash, s.db.keys[hash], insert, update, cleanup);
      }
    }
  }

  // ---- Registration ----

  /** The rollback takes nothing but the client, which has no key and no configuration yet. */
  lemma {:induction false} RollBackStep(s: State, i: nat, client: string, description: string, ch: Choice)
    requires At(s, i, Register(client, description), RollBack) && client != "" && client in s.db.clients
    requires forall h :: h in s.db.keys ==> s.db.keys[h].clientId != client
    requires forall cr :: cr in s.db.configs ==> cr.0 != client
    ensures Enabled(s, Run(i, ch))
    ensures Became(s, Next(s, Run(i, ch)), i, Finished(false),
                   if ch.fault then s.db else s.db.(clients := s.db.clients - {client}))
  {
    assert (map h | h in s.db.keys && s.db.keys[h].clientId != client :: s.db.keys[h]) == s.db.keys;
    assert (map cr | cr in s.db.configs && cr.0 != client :: s.db.configs[cr]) == s.db.configs;
  }

  lemma {:induction false} DefaultsStep(s: State, i: nat, client: string, description: string, ch: Choice)
    requires At(s, i, Register(client, description), KeyAdded) && client != "" && client in s.db.clients
    ensures Enabled(s, Run(i, ch))
    ensures Became(s, Next(s, Run(i, ch)), i, Finished(true),
                   if ch.fault then s.db
                   else s.db.(configs := s.db.configs[(client, "*") := ConfigRow("token_bucket", 100, 1, 10, 60)]))
  {
  }

  /** The end of a registration that has stored its client. */
  lemma {:induction false} EndOfRegistration(s: State, i: nat, client: string, description: string, key: Choice,
                                             last: Choice)
    requires Inv(s) && At(s, i, Register(client, description), ClientAdded)
    requires client in s.db.clients && key.newHash !in s.issued
    requires forall h :: h in s.db.keys ==> s.db.keys[h].clientId != client
    requires forall cr :: cr in s.db.configs ==> cr.0 != client
    ensures var row := KeyRow(client, "Default API Key", "client", true, key.now, None, None);
            var db := if !key.fault
                      then Db(s.db.clients, s.db.keys[key.newHash := row],
                              if last.fault then s.db.configs
                              else s.db.configs[(client, "*") := ConfigRow("token_bucket", 100, 1, 10, 60)])
                      else if last.fault then s.db else s.db.(clients := s.db.clients - {client});
            Became(s, Alone(s, i, [key] + [last]), i, Finished(!key.fault), db)
  {
    assert Established(s.issued, s.procs[i]);
    OneStep(s, i, key, [last]);
    var t := Next(s, Run(i, key));
    if key.fault {
      RollBackStep(t, i, client, description, last);
    } else {
      DefaultsStep(t, i, client, description, last);
    }
    LastStep(t, i, last);
  }

  /** A client that is not stored has no key and no configuration. */
  lemma {:induction false} StrangerOwnsNothing(s: State, client: string)
    requires Inv(s) && client !in s.db.clients
    ensures forall h :: h in s.db.keys ==> s.db.keys[h].clientId != client
    ensures forall cr :: cr in s.db.configs ==> cr.0 != client
  {
  }

  lemma {:induction false} AddedAndRemoved(clients: map<string, string>, client: string, description: string)
    requires client !in clients
    ensures clients[client := description] - {client} == clients
  {
  }

  lemma {:induction false} StartRegistration(s: State, i: nat, client: string, description: string, ch: Choice)
    requires Inv(s) && At(s, i, Register(client, description), Start)
    ensures Enabled(s, Run(i, ch))
    ensures var added := client != "" && client !in s.db.clients && !ch.fault;
            var t := Next(s, Run(i, ch));
            && Inv(t) && t.issued == s.issued
            && Became(s, t, i, if added then ClientAdded else Finished(false),
                      if added then s.db.(clients := s.db.clients[client := description]) else s.db)
  {
    StepKeepsInv(s, Run(i, ch));
  }

  /** A registration by itself succeeds exactly when it names a new client and neither the client nor
      its key fails to be stored. Then one client, one active client key without expiry and at most the
      default configuration are new. Otherwise the tables are as before, unless the rollback fails too,
      which leaves the bare client. */
  lemma {:induction false} RegistrationAlone(s: State, i: nat, client: string, description: string, first: Choice,
                                             key: Choice, last: Choice)
    requires Inv(s) && At(s, i, Register(client, description), Start) && key.newHash !in s.issued
    ensures var added := client != "" && client !in s.db.clients && !first.fault;
            var ok := added && !key.fault;
            var clients := s.db.clients[client := description];
            var row := KeyRow(client, "Default API Key", "client", true, key.now, None, None);
            var db := if ok
                      then Db(clients, s.db.keys[key.newHash := row],
                              if last.fault then s.db.configs
                              else s.db.configs[(client, "*") := ConfigRow("token_bucket", 100, 1, 10, 60)])
                      else if added && last.fault then s.db.(clients := clients) else s.db;
            Became(s, Alone(s, i, [first] + ([key] + [last])), i, Finished(ok), db)
  {
    var rest := [key] + [last];
    StartRegistration(s, i, client, description, first);
    OneStep(s, i, first, rest);
    var t := Next(s, Run(i, first));
    if t.procs[i].stage.Finished? {
      NoMore(t, i, rest);
    } else {
      StrangerOwnsNothing(s, client);
      EndOfRegistration(t, i, client, description, key, last);
      AddedAndRemoved(s.db.clients, client, description);
    }
  }

  // ---- Bootstrap ----

  /** The master key: an active admin key of the default client without expiry. */
  function MasterRow(now: int): KeyRow {
    KeyRow("default", "Master Admin Key", "admin", true, now, None, None)
  }

  lemma {:induction false} SeedMasterKey(s: State, i: nat, key: Choice, rest: seq<Choice>)
    requires At(s, i, Bootstrap, DefaultReady) && s.db.keys == map[] && "default" in s.db.clients
    ensures Became(s, Alone(s, i, [key] + rest), i, Finished(!key.fault),
                   if key.fault then s.db else s.db.(keys := map[MASTER := MasterRow(key.now)]))
  {
    OneStep(s, i, key, rest);
    NoMore(Next(s, Run(i, key)), i, rest);
  }

  /** When the default client was not found. */
  lemma {:induction false} AddDefaultClient(s: State, i: nat, client: Choice, key: Choice)
    requires At(s, i, Bootstrap, NoDefault) && s.db.keys == map[]
    ensures var ready := !client.fault && "default" !in s.db.clients;
            var clients := if ready then s.db.clients["default" := "Default client"] else s.db.clients;
            Became(s, Alone(s, i, [client] + [key]), i, Finished(ready && !key.fault),
                   Db(clients, if ready && !key.fault then map[MASTER := MasterRow(key.now)] else map[], s.db.configs))
  {
    OneStep(s, i, client, [key]);
    var t := Next(s, Run(i, client));
    if t.procs[i].stage.Finished? {
      NoMore(t, i, [key]);
    } else {
      SeedMasterKey(t, i, key, []);
      assert [key] + [] == [key];
    }
  }

  lemma {:induction false} FindDefaultClient(s: State, i: nat, count: Choice, find: Choice, last: seq<Choice>)
    requires At(s, i, Bootstrap, Start) && !count.fault && s.db.keys == map[]
    ensures var t := Alone(s, i, [count] + ([find] + last));
            var found := !find.fault && "default" in s.db.clients;
            exists u: State ::
              Became(s, u, i, if found then DefaultReady else NoDefault, s.db) && t == Alone(u, i, last)
  {
    OneStep(s, i, count, [find] + last);
    var t := Next(s, Run(i, count));
    OneStep(t, i, find, last);
    var u := Next(t, Run(i, find));
    assert Became(s, u, i, if !find.fault && "default" in s.db.clients then DefaultReady else NoDefault, s.db);
  }

  /** A bootstrap by itself does nothing once a key is stored, or when the count fails. */
  lemma {:induction false} BootstrapIdle(s: State, i: nat, count: Choice, rest: seq<Choice>)
    requires At(s, i, Bootstrap, Start) && (count.fault || s.db.keys != map[])
    ensures Became(s, Alone(s, i, [count] + rest), i, Finished(!count.fault), s.db)
  {
    assert |s.db.keys| > 0 <==> s.db.keys != map[];
    OneStep(s, i, count, rest);
    NoMore(Next(s, Run(i, count)), i, rest);
  }

  /** On an empty key table it succeeds exactly when the default client is found or can be stored and the
      insertion does not fail; then the master key is the only one. */
  lemma {:induction false} BootstrapAlone(s: State, i: nat, count: Choice, find: Choice, client: Choice, key: Choice)
    requires At(s, i, Bootstrap, Start) && !count.fault && s.db.keys == map[]
    ensures var found := !find.fault && "default" in s.db.clients;
            var added := !found && !client.fault && "default" !in s.db.clients;
            var insert := if found then client else key;
            var ok := (found || added) && !insert.fault;
            var clients := if added then s.db.clients["default" := "Default client"] else s.db.clients;
            Became(s, Alone(s, i, [count] + ([find] + ([client] + [key]))), i, Finished(ok),
                   Db(clients, if ok then map[MASTER := MasterRow(insert.now)] else map[], s.db.configs))
  {
    var found := !find.fault && "default" in s.db.clients;
    FindDefaultClient(s, i, count, find, [client] + [key]);
    var u :| Became(s, u, i, if found then DefaultReady else NoDefault, s.db)
             && Alone(s, i, [count] + ([find] + ([client] + [key]))) == Alone(u, i, [client] + [key]);
    if found {
      SeedMasterKey(u, i, client, [key]);
    } else {
      AddDefaultClient(u, i, client, key);
    }
  }
}
