/** The storage methods: sequences of statements on one database. A `fault` argument says whether
    the statement it belongs to fails for a reason outside the tables, such as a lost connection or
    a column the schema does not have; a failed statement leaves the tables alone. */
module PostgresStore {
  import opened Prelude
  import opened Database

  datatype StoreError = NotFound | StatementFailed | Invalid(error: ConfigError)

  datatype Result<+T> = Ok(value: T) | Err(error: StoreError)

  /** Which of the statements of a rotation fail. */
  datatype RotationFaults = RotationFaults(select: bool, insert: bool, update: bool, cleanup: bool)

  function NewKey(clientId: string, name: string, keyType: string, now: int, expiresAt: Option<int>): KeyRow {
    KeyRow(clientId, name, keyType, true, now, expiresAt, None)
  }

  class Store {
    var db: Db

    constructor (db: Db)
      ensures this.db == db
    {
      this.db := db;
    }

    /** Send one statement. */
    method Exec(s: Statement, fault: bool) returns (r: Outcome)
      modifies this
      ensures db == if fault then old(db) else Execute(old(db), s)
      ensures r == if fault then Failed else OutcomeOf(old(db), s)
    {
      if fault {
        r := Failed;
      } else {
        r := OutcomeOf(db, s);
        db := Execute(db, s);
      }
    }

    method CreateClient(name: string, description: string, fault: bool) returns (ok: bool)
      modifies this
      ensures ok <==> !fault && name !in old(db).clients
      ensures db == if ok then old(db).(clients := old(db).clients[name := description]) else old(db)
    {
      var r := Exec(InsertClient(name, description), fault);
      ok := r != Failed;
    }

    method DeleteClient(name: string, fault: bool) returns (ok: bool)
      modifies this
      ensures ok <==> !fault && name in old(db).clients
      ensures !ok ==> db == old(db)
      ensures ok ==> db.clients == old(db).clients - {name}
      ensures ok ==> db.keys == map h | h in old(db).keys && old(db).keys[h].clientId != name :: old(db).keys[h]
      ensures ok ==> db.configs == map cr | cr in old(db).configs && cr.0 != name :: old(db).configs[cr]
    {
      var r := Exec(RemoveClient(name), fault);
      ok := r.Affected? && r.rows > 0;
    }

    /** `hash` is the hash of the freshly generated key. */
    method CreateAPIKey(clientId: string, name: string, keyType: string, now: int, hash: string, fault: bool)
      returns (ok: bool)
      modifies this
      ensures ok <==> !fault && hash !in old(db).keys && clientId in old(db).clients
      ensures db == if ok then old(db).(keys := old(db).keys[hash :=
                        KeyRow(clientId, name, keyType, true, now, None, None)])
                    else old(db)
    {
      var r := Exec(InsertKey(hash, NewKey(clientId, name, keyType, now, None)), fault);
      ok := r != Failed;
    }

    method CreateAPIKeyWithExpiry(clientId: string, name: string, keyType: string, now: int, expiresAt: int,
                                  hash: string, fault: bool)
      returns (ok: bool)
      modifies this
      ensures ok <==> !fault && hash !in old(db).keys && clientId in old(db).clients
      ensures db == if ok
                    then old(db).(keys := old(db).keys[hash :=
                           KeyRow(clientId, name, keyType, true, now, Some(expiresAt), None)])
                    else old(db)
    {
      var r := Exec(InsertKey(hash, NewKey(clientId, name, keyType, now, Some(expiresAt))), fault);
      ok := r != Failed;
    }

    method RevokeAPIKey(hash: string, fault: bool) returns (r: Result<()>)
      modifies this
      ensures r == if fault then Err(StatementFailed) else if hash in old(db).keys then Ok(()) else Err(NotFound)
      ensures r.Err? ==> db == old(db)
      ensures r.Ok? ==> db == old(db).(keys := old(db).keys[hash := old(db).keys[hash].(active := false)])
    {
      var outcome := Exec(DeactivateKey(hash), fault);
      r := if outcome == Failed then Err(StatementFailed) else if outcome.rows == 0 then Err(NotFound) else Ok(());
    }

    method DeleteAPIKeyByHash(hash: string, fault: bool) returns (r: Result<()>)
      modifies this
      ensures r == if fault then Err(StatementFailed) else if hash in old(db).keys then Ok(()) else Err(NotFound)
      ensures r.Err? ==> db == old(db)
      ensures r.Ok? ==> db == old(db).(keys := old(db).keys - {hash})
    {
      var outcome := Exec(RemoveKey(hash), fault);
      r := if outcome == Failed then Err(StatementFailed) else if outcome.rows == 0 then Err(NotFound) else Ok(());
    }

    /** Select the active old key, insert its replacement, deactivate it; delete the replacement
        when the deactivation fails. */
    method RotateAPIKey(oldHash: string, now: int, newHash: string, faults: RotationFaults)
      returns (r: Result<string>)
      modifies this
      ensures r.Ok? <==>
                && !faults.select && !faults.insert && !faults.update
                && oldHash in old(db).keys && old(db).keys[oldHash].active
                && newHash !in old(db).keys && old(db).keys[oldHash].clientId in old(db).clients
      ensures r.Ok? ==> r.value == newHash && RotatedTo(old(db), oldHash, newHash, db, now)
      ensures r.Err? ==>
                db == if !faults.select && !faults.insert && faults.update && faults.cleanup &&
                         Rotatable(old(db), oldHash, newHash)
                      then (var row := old(db).keys[oldHash];
                            old(db).(keys := old(db).keys[newHash :=
                              KeyRow(row.clientId, row.name + " (rotated)", row.keyType, true, now, None, None)]))
                      else old(db)
      ensures forall clientId, keyType :: r.Ok? || !faults.cleanup ==>
                ActiveCount(db, clientId, keyType) == ActiveCount(old(db), clientId, keyType)
    {
      if faults.select {
        return Err(StatementFailed);
      }
      if oldHash !in db.keys || !db.keys[oldHash].active {
        return Err(StatementFailed);
      }
      ghost var before := db;
      var row := db.keys[oldHash];
      var created := CreateAPIKey(row.clientId, row.name + " (rotated)", row.keyType, now, newHash, faults.insert);
      if !created {
        return Err(StatementFailed);
      }
      ghost var between := db;
      var outcome := Exec(DeactivateKey(oldHash), faults.update);
      if outcome == Failed {
        var _ := DeleteAPIKeyByHash(newHash, faults.cleanup);
        assert db.keys == if faults.cleanup then between.keys else before.keys;
        return Err(StatementFailed);
      }
      forall clientId, keyType ensures ActiveCount(db, clientId, keyType) == ActiveCount(before, clientId, keyType) {
        CountAfterInsert(before, newHash, Replacement(row, now), clientId, keyType);
        CountAfterLoss(between, oldHash, DeactivateKey(oldHash), clientId, keyType);
      }
      return Ok(newHash);
    }

    method UpsertRateLimitConfig(cfg: ConfigInput, fault: bool) returns (r: Result<()>)
      modifies this
      ensures Validate(cfg).Some? ==> r == Err(Invalid(Validate(cfg).value))
      ensures Validate(cfg).None? ==>
                r == if fault || cfg.clientId !in old(db).clients then Err(StatementFailed) else Ok(())
      ensures r.Err? ==> db == old(db)
      ensures r.Ok? ==> db == old(db).(configs := old(db).configs[(cfg.clientId, cfg.route) := cfg.row])
    {
      var complaint := Validate(cfg);
      if complaint.Some? {
        return Err(Invalid(complaint.value));
      }
      var outcome := Exec(UpsertConfig(cfg.clientId, cfg.route, cfg.row), fault);
      r := if outcome == Failed then Err(StatementFailed) else Ok(());
    }

    method DeleteRateLimitConfig(clientId: string, route: string, fault: bool) returns (r: Result<()>)
      modifies this
      ensures r == if fault then Err(StatementFailed)
                   else if (clientId, route) in old(db).configs then Ok(()) else Err(NotFound)
      ensures r.Err? ==> db == old(db)
      ensures r.Ok? ==> db == old(db).(configs := old(db).configs - {(clientId, route)})
    {
      var outcome := Exec(RemoveConfig(clientId, route), fault);
      r := if outcome == Failed then Err(StatementFailed) else if outcome.rows == 0 then Err(NotFound) else Ok(());
    }

    /** The query of a listing: the hashes of a client's keys, or of all keys when no client is named,
        newest first. */
    method QueryKeys(clientId: string) returns (hashes: seq<string>)
      ensures forall h :: h in hashes <==> h in db.keys && (clientId == "" || db.keys[h].clientId == clientId)
      ensures forall i, j :: 0 <= i < j < |hashes| ==>
                hashes[i] != hashes[j] && hashes[i] in db.keys && hashes[j] in db.keys &&
                db.keys[hashes[i]].createdAt >= db.keys[hashes[j]].createdAt
    {
      var rest := set h | h in db.keys && (clientId == "" || db.keys[h].clientId == clientId);
      ghost var all := rest;
      hashes := [];
      while rest != {}
        invariant rest <= all
        invariant forall h :: h in hashes <==> h in all && h !in rest
        invariant forall i :: 0 <= i < |hashes| ==> hashes[i] in db.keys
        invariant forall i, h :: 0 <= i < |hashes| && h in rest ==> db.keys[hashes[i]].createdAt >= db.keys[h].createdAt
        invariant forall i, j :: 0 <= i < j < |hashes| ==>
                    hashes[i] != hashes[j] && db.keys[hashes[i]].createdAt >= db.keys[hashes[j]].createdAt
        decreases rest
      {
        ghost var _ := NewestExists(db.keys, rest);
        var newest :| newest in rest && forall h :: h in rest ==> db.keys[newest].createdAt >= db.keys[h].createdAt;
        assert newest in all;
        hashes := hashes + [newest];
        rest := rest - {newest};
      }
    }

    /** The keys of a client, or of all clients when no client is named, newest first. */
    method ListAPIKeys(clientId: string, fault: bool) returns (r: Result<seq<APIKey>>)
      ensures if fault then r == Err(StatementFailed) else r.Ok?
      ensures r.Ok? ==> forall k :: k in r.value <==> Listed(db, clientId, k)
      ensures r.Ok? ==> forall i, j :: 0 <= i < j < |r.value| ==>
                r.value[i].hash != r.value[j].hash && r.value[i].row.createdAt >= r.value[j].row.createdAt
    {
      if fault {
        return Err(StatementFailed);
      }
      var hashes := QueryKeys(clientId);
      assert forall i :: 0 <= i < |hashes| ==> hashes[i] in hashes;
      var keys: seq<APIKey> := [];
      for i := 0 to |hashes|
        invariant |keys| == i
        invariant forall j :: 0 <= j < i ==> hashes[j] in db.keys && keys[j] == APIKey(hashes[j], db.keys[hashes[j]])
      {
        keys := keys + [APIKey(hashes[i], db.keys[hashes[i]])];
      }
      forall k | Listed(db, clientId, k) ensures k in keys {
        var j :| 0 <= j < |hashes| && hashes[j] == k.hash;
        assert keys[j] == k;
      }
      return Ok(keys);
    }
  }

  ghost function NewestExists(keys: map<string, KeyRow>, hashes: set<string>): (newest: string)
    requires hashes != {} && hashes <= keys.Keys
    ensures newest in hashes && forall h :: h in hashes ==> keys[newest].createdAt >= keys[h].createdAt
    decreases |hashes|
  {
    var h :| h in hashes;
    if hashes == {h} then h else
      assert hashes - {h} != {};
      var best := NewestExists(keys, hashes - {h});
      if keys[h].createdAt >= keys[best].createdAt then h else best
  }

  /** A row of the key table together with its hash. */
  datatype APIKey = APIKey(hash: string, row: KeyRow)

  predicate Listed(db: Db, clientId: string, k: APIKey) {
    k.hash in db.keys && k.row == db.keys[k.hash] && (clientId == "" || k.row.clientId == clientId)
  }

  /** The row a rotation inserts: same client and type, no expiry. */
  function Replacement(row: KeyRow, now: int): KeyRow {
    NewKey(row.clientId, row.name + " (rotated)", row.keyType, now, None)
  }

  /** The old key is active and its replacement can be inserted. */
  predicate Rotatable(db: Db, oldHash: string, newHash: string) {
    oldHash in db.keys && db.keys[oldHash].active && newHash !in db.keys && db.keys[oldHash].clientId in db.clients
  }

  /** A successful rotation: the old key inactive, one new active key of the same client and type,
      everything else as before. */
  predicate RotatedTo(before: Db, oldHash: string, newHash: string, after: Db, now: int) {
    && oldHash in before.keys && newHash !in before.keys
    && after.clients == before.clients && after.configs == before.configs
    && after.keys.Keys == before.keys.Keys + {newHash}
    && after.keys[oldHash] == before.keys[oldHash].(active := false)
    && (var row := before.keys[oldHash];
        after.keys[newHash] == KeyRow(row.clientId, row.name + " (rotated)", row.keyType, true, now, None, None))
    && forall h :: h in before.keys && h != oldHash ==> after.keys[h] == before.keys[h]
  }
}
