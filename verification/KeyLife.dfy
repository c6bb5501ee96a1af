/** The life of API keys in runs of the whole service: where keys come from, how long they are accepted,
    and what ends them. */
module KeyLife {
  import opened Prelude
  import opened Database
  import opened PostgresStore
  import opened Interleaving
  import Auth

  // ---- What ends a key ----

  predicate StoredActive(db: Db, hash: string) {
    hash in db.keys && db.keys[hash].active
  }

  lemma {:induction false} StepKeepsIssued(s: State, e: Event)
    requires Inv(s) && Enabled(s, e)
    ensures Extends(s.issued, Next(s, e).issued)
  {
    if e.Run? {
      IssuedExtends(s, s.procs[e.i], e.ch);
    }
  }

  lemma {:induction false} RetiredStays(states: seq<State>, events: seq<Event>, k: nat, hash: string)
    requires IsRun(states, events) && k < |events| && hash in states[k].issued
    ensures hash in states[k + 1].issued
    ensures hash != MASTER && !StoredActive(states[k].db, hash) ==> !StoredActive(states[k + 1].db, hash)
  {
    assert StepOf(states, events, k);
    RunKeepsInv(states, events, k);
    StepKeepsIssued(states[k], events[k]);
    if hash in states[k + 1].db.keys {
      if hash in states[k].db.keys {
        RowOnlyAges(states, events, k, k + 1, hash);
      } else {
        GoneKeyReturnsByBootstrap(states, events, k, hash);
      }
    }
  }

  /** Step `k` is the last one of a request for `op`, and it succeeds. */
  predicate DoneAt(states: seq<State>, events: seq<Event>, k: nat, op: Op)
    requires |states| == |events| + 1
  {
    && k < |events| && events[k].Run? && events[k].i < |states[k].procs| && events[k].i < |states[k + 1].procs|
    && states[k].procs[events[k].i].op == op && states[k + 1].procs[events[k].i].stage == Finished(true)
  }

  /** A key whose revocation succeeds was stored, keeps everything but its activity, and never works
      again; only the master key can be deleted and seeded anew. */
  lemma {:induction false} RevokedKeyStaysDead(states: seq<State>, events: seq<Event>, k: nat, b: nat, hash: string)
    requires IsRun(states, events) && DoneAt(states, events, k, RevokeKey(hash)) && k < b < |states|
    ensures hash in states[k].db.keys && hash in states[b].issued
    ensures states[k + 1].db
            == states[k].db.(keys := states[k].db.keys[hash := states[k].db.keys[hash].(active := false)])
    ensures b == k + 1 || hash != MASTER ==> !StoredActive(states[b].db, hash)
    decreases b
  {
    assert StepOf(states, events, k);
    if b == k + 1 {
      RunKeepsInv(states, events, k);
      StepKeepsIssued(states[k], events[k]);
    } else {
      RevokedKeyStaysDead(states, events, k, b - 1, hash);
      RetiredStays(states, events, b - 1, hash);
    }
  }

  lemma {:induction false} GoneStays(states: seq<State>, events: seq<Event>, a: nat, b: nat, hash: string)
    requires IsRun(states, events) && a <= b < |states|
    requires hash in states[a].issued && hash != MASTER && hash !in states[a].db.keys
    ensures hash in states[b].issued && hash !in states[b].db.keys
    decreases b
  {
    if a < b {
      GoneStays(states, events, a, b - 1, hash);
      assert StepOf(states, events, b - 1);
      RunKeepsInv(states, events, b - 1);
      StepKeepsIssued(states[b - 1], events[b - 1]);
      if hash in states[b].db.keys {
        GoneKeyReturnsByBootstrap(states, events, b - 1, hash);
      }
    }
  }

  /** A key whose deletion succeeds was stored, is the one row removed, and never returns unless it is
      the master key. */
  lemma {:induction false} DeletedKeyStaysGone(states: seq<State>, events: seq<Event>, k: nat, b: nat, hash: string)
    requires IsRun(states, events) && DoneAt(states, events, k, DeleteKey(hash)) && k < b < |states|
    ensures hash in states[k].db.keys
    ensures states[k + 1].db == states[k].db.(keys := states[k].db.keys - {hash})
    ensures b == k + 1 || hash != MASTER ==> hash !in states[b].db.keys
  {
    assert StepOf(states, events, k);
    RunKeepsInv(states, events, k);
    StepKeepsIssued(states[k], events[k]);
    if hash != MASTER {
      GoneStays(states, events, k + 1, b, hash);
    }
  }

  // ---- What a created key is, and how long it is accepted ----

  /** A create request succeeds exactly when it names a client, the caller may create such a key for
      it, the client exists and the statement does not fail; then it stores exactly one row, as asked
      for: an admin key only if asked for, and an expiry only for a positive number of hours. */
  lemma {:induction false} CreateStoresOne(states: seq<State>, events: seq<Event>, k: nat, client: string, name: string,
                                           keyType: string, hours: int)
    requires IsRun(states, events) && k < |events| && events[k].Run? && events[k].i < |states[k].procs|
    requires states[k].procs[events[k].i].op == CreateKey(client, name, keyType, hours)
    ensures var s, s', caller, ch := states[k], states[k + 1], states[k].procs[events[k].i].caller, events[k].ch;
            var ok := && client != "" && (caller == Tenant(client) || caller.Admin?)
                      && (keyType != "admin" || caller.Admin?) && client in s.db.clients && !ch.fault;
            && |s'.procs| == |s.procs| && s'.procs[events[k].i].stage == Finished(ok)
            && s'.db == if !ok then s.db
                        else s.db.(keys := s.db.keys[ch.newHash :=
                               KeyRow(client, name, if keyType == "admin" then "admin" else "client", true, ch.now,
                                      if hours > 0 then Some(ch.now + 3600000 * hours) else None, None)])
  {
    assert StepOf(states, events, k);
    RunKeepsInv(states, events, k);
    assert Established(states[k].issued, states[k].procs[events[k].i]);
  }

  lemma {:induction false} IssuedStays(states: seq<State>, events: seq<Event>, a: nat, b: nat, hash: string)
    requires IsRun(states, events) && a <= b < |states| && hash in states[a].issued
    ensures hash in states[b].issued
    decreases b
  {
    if a < b {
      IssuedStays(states, events, a, b - 1, hash);
      assert StepOf(states, events, b - 1);
      RunKeepsInv(states, events, b - 1);
      StepKeepsIssued(states[b - 1], events[b - 1]);
    }
  }

  lemma {:induction false} StoredThroughout(states: seq<State>, events: seq<Event>, a: nat, b: nat, hash: string)
    requires IsRun(states, events) && a <= b < |states|
    requires hash in states[a].issued && hash != MASTER && hash in states[b].db.keys
    ensures forall k :: a <= k <= b ==> hash in states[k].db.keys
  {
    forall k: nat | a <= k <= b ensures hash in states[k].db.keys {
      IssuedStays(states, events, a, k, hash);
      if hash !in states[k].db.keys {
        GoneStays(states, events, k, b, hash);
      }
    }
  }

  /** A key created at time `t` authenticates no request after `t` plus the hours asked for, and none
      after a year in any case; and whoever it authenticates is its client, and an admin exactly with
      an admin key. */
  lemma {:induction false} CreatedKeyExpires(states: seq<State>, events: seq<Event>, k: nat, b: nat, client: string,
                                             name: string, keyType: string, hours: int)
    requires IsRun(states, events) && DoneAt(states, events, k, CreateKey(client, name, keyType, hours))
    requires k < b < |events| && events[b].Arrive? && (events[b].caller.Tenant? || events[b].caller.Admin?)
    requires events[b].hash == events[k].ch.newHash
    ensures hours > 0 ==> events[b].now <= events[k].ch.now + 3600000 * hours
    ensures events[b].now <= events[k].ch.now + 31536000000
    ensures events[b].caller == if keyType == "admin" then Admin(client) else Tenant(client)
  {
    var hash := events[k].ch.newHash;
    assert StepOf(states, events, b);
    assert StepOf(states, events, k);
    CreateStoresOne(states, events, k, client, name, keyType, hours);
    RunKeepsInv(states, events, k);
    RunKeepsInv(states, events, k + 1);
    assert hash in states[k + 1].issued && hash != MASTER;
    StoredThroughout(states, events, k + 1, b, hash);
    RowOnlyAges(states, events, k + 1, b, hash);
    Auth.LifeOfKey(states[b].db.keys[hash], events[b].now, MAX_KEY_AGE);
  }

  // ---- Admin keys ----

  predicate Rotates(s: State, i: nat, hash: string) {
    i < |s.procs| && s.procs[i].op == RotateKey(hash)
  }

  lemma {:induction false} ReadingStep(states: seq<State>, events: seq<Event>, i: nat, k: nat, hash: string)
    returns (m: nat)
    requires IsRun(states, events) && k < |states| && Rotates(states[k], i, hash)
    requires states[k].procs[i].stage.Selected?
    ensures m < k && events[m].Run? && events[m].i == i
    ensures StoredActive(states[m].db, hash) && states[k].procs[i].stage.row == states[m].db.keys[hash]
    decreases k
  {
    assert k > 0 && StepOf(states, events, k - 1);
    if states[k - 1].procs[i].stage.Owned? {
      m := k - 1;
    } else {
      m := ReadingStep(states, events, i, k - 1, hash);
    }
  }

  predicate StoredAdmin(db: Db, hash: string) {
    hash in db.keys && db.keys[hash].keyType == "admin"
  }

  /** Step `j` stores the key `hash`, by bootstrap, for an admin who asks for an admin key, or as the
      replacement of an admin key. */
  predicate AdminOrigin(states: seq<State>, events: seq<Event>, j: nat, hash: string)
    requires |states| == |events| + 1
  {
    && j < |events| && events[j].Run? && events[j].i < |states[j].procs|
    && hash !in states[j].db.keys && hash in states[j + 1].db.keys
    && var p := states[j].procs[events[j].i];
       || (p.op.Bootstrap? && p.caller.Service?)
       || (p.op.CreateKey? && p.caller.Admin? && p.op.keyType == "admin")
       || (p.op.RotateKey? && p.stage.Selected? && p.stage.row.keyType == "admin")
  }

  /** Every stored admin key has such an origin. */
  lemma {:induction false} AdminKeysHaveOrigin(states: seq<State>, events: seq<Event>, k: nat, hash: string)
    requires IsRun(states, events) && k < |states| && StoredAdmin(states[k].db, hash)
    ensures exists j: nat :: j < k && AdminOrigin(states, events, j, hash)
    decreases k
  {
    assert k > 0;
    assert StepOf(states, events, k - 1);
    if hash in states[k - 1].db.keys {
      RowOnlyAges(states, events, k - 1, k, hash);
      AdminKeysHaveOrigin(states, events, k - 1, hash);
    } else {
      RunKeepsInv(states, events, k - 1);
      assert Established(states[k - 1].issued, states[k - 1].procs[events[k - 1].i]);
      assert AdminOrigin(states, events, k - 1, hash);
    }
  }

  /** The request of step `k` rotates `oldHash`, which at step `m` was an active admin key of its own
      client. */
  predicate ReplacesOwnAdmin(states: seq<State>, events: seq<Event>, k: nat, m: nat, oldHash: string)
    requires |states| == |events| + 1
  {
    && k < |events| && m < |states| && events[k].Run? && Rotates(states[k], events[k].i, oldHash)
    && StoredActive(states[m].db, oldHash) && StoredAdmin(states[m].db, oldHash)
    && states[k].procs[events[k].i].caller == Tenant(states[m].db.keys[oldHash].clientId)
  }

  /** A step of a client's request leaves every key of other clients as it is; one of an
      unauthenticated registration leaves every key as it is, except those that others stored for the
      very client it rolls back. */
  lemma {:induction false} OthersKeysStay(states: seq<State>, events: seq<Event>, k: nat, hash: string)
    requires IsRun(states, events) && k < |events| && events[k].Run? && events[k].i < |states[k].procs|
    requires hash in states[k].db.keys
    requires var p := states[k].procs[events[k].i];
             || (p.caller.Tenant? && p.caller.clientId != states[k].db.keys[hash].clientId)
             || (p.caller.Public?
                 && !(p.op.Register? && p.stage.RollBack? && p.op.client == states[k].db.keys[hash].clientId))
    ensures hash in states[k + 1].db.keys && states[k + 1].db.keys[hash] == states[k].db.keys[hash]
  {
    var p := states[k].procs[events[k].i];
    if p.caller.Tenant? {
      TenantFrame(states, events, k, p.caller.clientId);
    } else {
      assert StepOf(states, events, k);
      RunKeepsInv(states, events, k);
      assert Established(states[k].issued, p);
    }
  }

  lemma {:induction false} TypeStays(states: seq<State>, events: seq<Event>, k: nat, hash: string)
    requires IsRun(states, events) && k < |events|
    ensures hash in states[k].db.keys && StoredAdmin(states[k + 1].db, hash) ==> StoredAdmin(states[k].db, hash)
  {
    if hash in states[k].db.keys && hash in states[k + 1].db.keys {
      RowOnlyAges(states, events, k, k + 1, hash);
    }
  }

  /** Whoever stores an admin key without being an admin or the service is rotating one. */
  lemma {:induction false} OnlyRotationAdds(states: seq<State>, events: seq<Event>, k: nat, hash: string)
    requires IsRun(states, events) && k < |events| && events[k].Run? && events[k].i < |states[k].procs|
    requires states[k].procs[events[k].i].caller.Tenant? || states[k].procs[events[k].i].caller.Public?
    requires StoredAdmin(states[k + 1].db, hash) && !StoredAdmin(states[k].db, hash)
    ensures var p := states[k].procs[events[k].i];
            && p.caller.Tenant? && p.op.RotateKey? && p.stage.Selected?
            && p.stage.row.keyType == "admin" && p.stage.row.clientId == p.caller.clientId
  {
    assert StepOf(states, events, k);
    RunKeepsInv(states, events, k);
    assert Established(states[k].issued, states[k].procs[events[k].i]);
    TypeStays(states, events, k, hash);
  }

  /** No escalation: a step of a client's or of an unauthenticated request adds an admin key only as the
      replacement of one of the client's own that was stored, active and of that type when the request
      read it. */
  lemma {:induction false} NoEscalation(states: seq<State>, events: seq<Event>, k: nat, hash: string)
    requires IsRun(states, events) && k < |events| && events[k].Run? && events[k].i < |states[k].procs|
    requires states[k].procs[events[k].i].caller.Tenant? || states[k].procs[events[k].i].caller.Public?
    requires StoredAdmin(states[k + 1].db, hash) && !StoredAdmin(states[k].db, hash)
    ensures exists oldHash, m: nat :: m < k && ReplacesOwnAdmin(states, events, k, m, oldHash)
  {
    OnlyRotationAdds(states, events, k, hash);
    var oldHash := states[k].procs[events[k].i].op.hash;
    var m := ReadingStep(states, events, events[k].i, k, oldHash);
    assert ReplacesOwnAdmin(states, events, k, m, oldHash);
  }
}
