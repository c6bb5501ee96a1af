/** When rotations of one key lose count: exactly how many may wait or arrive, and a run of the service
    in which they do. */
module RotationConflict {
  import opened Prelude
  import opened Database
  import opened PostgresStore
  import opened Handlers
  import opened Interleaving
  import opened KeyLife
  import opened RotationRace

  // ---- Building races ----

  /** A race of nothing but racers' steps, none of them a failing compensation. */
  predicate OnlyRacers(s: State, events: seq<Event>, key: OldKey)
    decreases |events|
  {
    events == [] ||
    (RacerStep(s, events[0], key) && !OrphanStep(s, events[0], key) && OnlyRacers(Next(s, events[0]), events[1..], key))
  }

  /** From `s` such a race leads to `t`. */
  predicate Leads(s: State, events: seq<Event>, t: State, key: OldKey) {
    OnlyRacers(s, events, key) && Race(s, events, key) && t == Final(s, events, key)
  }

  lemma {:induction false} NothingElse(s: State, events: seq<Event>, key: OldKey)
    requires OnlyRacers(s, events, key) && Race(s, events, key)
    ensures Orphans(s, events, key) == 0 && Outside(s, events, key) == 0 && Joiners(events, key) == 0
    decreases |events|
  {
    if events != [] {
      NothingElse(Next(s, events[0]), events[1..], key);
    }
  }

  lemma {:induction false} Append(s: State, first: seq<Event>, t: State, second: seq<Event>, u: State, key: OldKey)
    requires Leads(s, first, t, key) && Leads(t, second, u, key)
    ensures Leads(s, first + second, u, key)
    decreases |first|
  {
    if first == [] {
      assert first + second == second;
    } else {
      assert Leads(Next(s, first[0]), first[1..], t, key);
      Append(Next(s, first[0]), first[1..], t, second, u, key);
      assert (first + second)[1..] == first[1..] + second;
    }
  }

  /** One step of a rotation of the old key, not a failing compensation. */
  lemma {:induction false} OneStep(s: State, e: Event, key: OldKey)
    requires RacerStep(s, e, key) && !OrphanStep(s, e, key)
    ensures Leads(s, [e], Next(s, e), key)
  {
    assert [e][1..] == [] && Leads(Next(s, e), [], Next(s, e), key);
  }

  lemma {:induction false} OneOf(procs: seq<Process>, key: OldKey) returns (x: nat)
    requires Contenders(procs, key) >= 1
    ensures x < |procs| && Contender(procs[x], key)
  {
    var n := |procs| - 1;
    if Contender(procs[n], key) {
      x := n;
    } else {
      x := OneOf(procs[..n], key);
    }
  }

  lemma {:induction false} TwoOf(procs: seq<Process>, key: OldKey) returns (x: nat, y: nat)
    requires Contenders(procs, key) >= 2
    ensures x < y < |procs| && Contender(procs[x], key) && Contender(procs[y], key)
  {
    var n := |procs| - 1;
    if Contender(procs[n], key) {
      x := OneOf(procs[..n], key);
      y := n;
    } else {
      x, y := TwoOf(procs[..n], key);
    }
  }

  /** A hash longer than every one in use. */
  lemma {:induction false} LongerThanAll(used: set<string>) returns (h: string)
    ensures forall u :: u in used ==> |u| < |h|
    decreases |used|
  {
    if used == {} {
      h := "";
    } else {
      var u :| u in used;
      var rest := LongerThanAll(used - {u});
      h := rest + u + "x";
    }
  }

  /** Request `i` tries its next statement, with `newHash` if it needs a generated hash. */
  function Try(i: nat, newHash: string): Event {
    Run(i, Choice(false, false, newHash, 0, 0))
  }

  /** The two racers, and everybody else where they were. */
  predicate Pair(s: State, s0: State, key: OldKey, x: nat, y: nat, one: Stage, other: Stage) {
    && x < y < |s.procs| == |s0.procs|
    && s.procs == s0.procs[x := s0.procs[x].(stage := one)][y := s0.procs[y].(stage := other)]
    && Racer(s.procs[x], key.hash) && Racer(s.procs[y], key.hash)
  }

  /** Both take a step. */
  lemma {:induction false} Round(s: State, key: OldKey, x: nat, y: nat, a: string, b: string)
    requires x != y && RacerStep(s, Try(x, a), key) && RacerStep(Next(s, Try(x, a)), Try(y, b), key)
    ensures Leads(s, [Try(x, a), Try(y, b)], Next(Next(s, Try(x, a)), Try(y, b)), key)
  {
    var s1 := Next(s, Try(x, a));
    OneStep(s, Try(x, a), key);
    OneStep(s1, Try(y, b), key);
    Append(s, [Try(x, a)], s1, [Try(y, b)], Next(s1, Try(y, b)), key);
    assert [Try(x, a)] + [Try(y, b)] == [Try(x, a), Try(y, b)];
  }

  /** Both scan. */
  lemma {:induction false} BothScan(s: State, key: OldKey, x: nat, y: nat, a: string, b: string) returns (t: State)
    requires Inv(s) && AtTheLine(s, key)
    requires x < y < |s.procs| && Contender(s.procs[x], key) && Contender(s.procs[y], key)
    ensures Leads(s, [Try(x, a), Try(y, b)], t, key)
    ensures t.db == s.db && t.issued == s.issued && Pair(t, s, key, x, y, Owned, Owned)
  {
    assert Established(s.issued, s.procs[x]) && Established(s.issued, s.procs[y]);
    t := Next(Next(s, Try(x, a)), Try(y, b));
    Round(s, key, x, y, a, b);
  }

  /** Both read the old key while it is active. */
  lemma {:induction false} BothRead(s: State, s0: State, key: OldKey, x: nat, y: nat, a: string, b: string)
    returns (t: State)
    requires Pair(s, s0, key, x, y, Owned, Owned) && StoredActive(s.db, key.hash)
    ensures Leads(s, [Try(x, a), Try(y, b)], t, key)
    ensures t.db == s.db && t.issued == s.issued
    ensures Pair(t, s0, key, x, y, Selected(s.db.keys[key.hash]), Selected(s.db.keys[key.hash]))
  {
    t := Next(Next(s, Try(x, a)), Try(y, b));
    Round(s, key, x, y, a, b);
  }

  /** Both store a replacement. */
  lemma {:induction false} BothStore(s: State, s0: State, key: OldKey, x: nat, y: nat, a: string, b: string,
                                     row: KeyRow)
    returns (t: State)
    requires Pair(s, s0, key, x, y, Selected(row), Selected(row)) && row.clientId in s.db.clients
    requires KeysAreIssued(s.db, s.issued) && a !in s.issued && b !in s.issued && a != b
    ensures Leads(s, [Try(x, a), Try(y, b)], t, key) && Pair(t, s0, key, x, y, Replaced(a), Replaced(b))
  {
    var between := Next(s, Try(x, a));
    assert b !in between.issued && b !in between.db.keys;
    t := Next(between, Try(y, b));
    Round(s, key, x, y, a, b);
  }

  /** Both deactivate the old key. */
  lemma {:induction false} BothDeactivate(s: State, s0: State, key: OldKey, x: nat, y: nat, a: string, b: string)
    returns (t: State)
    requires Pair(s, s0, key, x, y, Replaced(a), Replaced(b))
    ensures Leads(s, [Try(x, a), Try(y, b)], t, key) && Pair(t, s0, key, x, y, Finished(true), Finished(true))
  {
    t := Next(Next(s, Try(x, a)), Try(y, b));
    Round(s, key, x, y, a, b);
  }

  lemma {:induction false} PairWins(s: State, s0: State, key: OldKey, x: nat, y: nat)
    requires Pair(s, s0, key, x, y, Finished(true), Finished(true))
    requires s0.procs[x].stage.Start? && s0.procs[y].stage.Start?
    ensures Wins(s.procs, key.hash) == Wins(s0.procs, key.hash) + 2
  {
    var p, q := s0.procs[x].(stage := Finished(true)), s0.procs[y].(stage := Finished(true));
    TallyUpdate(s0.procs, x, p, key);
    TallyUpdate(s0.procs[x := p], y, q, key);
  }

  // ---- The others give up ----

  /** Rotations of the old key numbered `n` and up are over, the others have not read it yet. */
  predicate OverFrom(s: State, hash: string, n: nat) {
    forall k :: 0 <= k < |s.procs| && Racer(s.procs[k], hash) ==>
      s.procs[k].stage.Finished? || (k < n && (s.procs[k].stage.Start? || s.procs[k].stage.Owned?))
  }

  function Fail(i: nat): Event {
    Run(i, Choice(true, false, "", 0, 0))
  }

  /** A failing statement ends a rotation at the scan or, for an admin, at the reading. */
  lemma {:induction false} GiveUp(s: State, key: OldKey, n: nat) returns (events: seq<Event>, t: State)
    requires n < |s.procs| && OverFrom(s, key.hash, n + 1)
    ensures Leads(s, events, t, key)
    ensures OverFrom(t, key.hash, n) && |t.procs| == |s.procs| && Wins(t.procs, key.hash) == Wins(s.procs, key.hash)
    decreases if s.procs[n].stage.Start? then 1 else 0
  {
    events, t := [], s;
    if Racer(s.procs[n], key.hash) && !s.procs[n].stage.Finished? {
      var s1 := Next(s, Fail(n));
      TallyUpdate(s.procs, n, s1.procs[n], key);
      OneStep(s, Fail(n), key);
      events, t := [Fail(n)], s1;
      if !s1.procs[n].stage.Finished? {
        var rest, u := GiveUp(s1, key, n);
        Append(s, [Fail(n)], s1, rest, u, key);
        events, t := [Fail(n)] + rest, u;
      }
    }
  }

  lemma {:induction false} RestGiveUp(s: State, key: OldKey, n: nat) returns (events: seq<Event>, t: State)
    requires n <= |s.procs| && OverFrom(s, key.hash, n)
    ensures Leads(s, events, t, key) && Over(t, key.hash) && Wins(t.procs, key.hash) == Wins(s.procs, key.hash)
    decreases n
  {
    if n == 0 {
      events, t := [], s;
    } else {
      var first, s1 := GiveUp(s, key, n - 1);
      var rest, u := RestGiveUp(s1, key, n - 1);
      Append(s, first, s1, rest, u, key);
      events, t := first + rest, u;
    }
  }

  // ---- Two contenders both win ----

  /** Both scan, and both read the old key while it is active. */
  lemma {:induction false} PairReads(s: State, key: OldKey, x: nat, y: nat, a: string, b: string) returns (t: State)
    requires Inv(s) && AtTheLine(s, key)
    requires x < y < |s.procs| && Contender(s.procs[x], key) && Contender(s.procs[y], key)
    ensures Leads(s, [Try(x, a), Try(y, b)] + [Try(x, a), Try(y, b)], t, key)
    ensures t.db == s.db && t.issued == s.issued
    ensures Pair(t, s, key, x, y, Selected(s.db.keys[key.hash]), Selected(s.db.keys[key.hash]))
  {
    var s1 := BothScan(s, key, x, y, a, b);
    t := BothRead(s1, s, key, x, y, a, b);
    Append(s, [Try(x, a), Try(y, b)], s1, [Try(x, a), Try(y, b)], t, key);
  }

  /** Both store a replacement, and both deactivate. */
  lemma {:induction false} PairReplaces(s: State, s0: State, key: OldKey, x: nat, y: nat, a: string, b: string,
                                        row: KeyRow)
    returns (t: State)
    requires Pair(s, s0, key, x, y, Selected(row), Selected(row)) && row.clientId in s.db.clients
    requires KeysAreIssued(s.db, s.issued) && a !in s.issued && b !in s.issued && a != b
    ensures Leads(s, [Try(x, a), Try(y, b)] + [Try(x, a), Try(y, b)], t, key)
    ensures Pair(t, s0, key, x, y, Finished(true), Finished(true))
  {
    var s1 := BothStore(s, s0, key, x, y, a, b, row);
    t := BothDeactivate(s1, s0, key, x, y, a, b);
    Append(s, [Try(x, a), Try(y, b)], s1, [Try(x, a), Try(y, b)], t, key);
  }

  lemma {:induction false} PairRace(s: State, key: OldKey, x: nat, y: nat, a: string, b: string)
    returns (events: seq<Event>, t: State)
    requires Inv(s) && AtTheLine(s, key)
    requires x < y < |s.procs| && Contender(s.procs[x], key) && Contender(s.procs[y], key)
    requires a !in s.issued && b !in s.issued && a != b
    ensures Leads(s, events, t, key) && Pair(t, s, key, x, y, Finished(true), Finished(true))
  {
    var twice := [Try(x, a), Try(y, b)] + [Try(x, a), Try(y, b)];
    var s1 := PairReads(s, key, x, y, a, b);
    t := PairReplaces(s1, s, key, x, y, a, b, s.db.keys[key.hash]);
    Append(s, twice, s1, twice, t, key);
    events := twice + twice;
  }

  lemma {:induction false} OthersHaveNotRead(s: State, t: State, key: OldKey, x: nat, y: nat)
    requires AtTheLine(s, key) && Pair(t, s, key, x, y, Finished(true), Finished(true))
    ensures OverFrom(t, key.hash, |t.procs|)
  {
  }

  /** With two contenders there is a race in which both succeed and all others fail. */
  lemma {:induction false} TwoContendersBothWin(s: State, key: OldKey) returns (events: seq<Event>, t: State)
    requires Inv(s) && AtTheLine(s, key) && Contenders(s.procs, key) >= 2
    ensures Leads(s, events, t, key) && Over(t, key.hash) && Wins(t.procs, key.hash) == Wins(s.procs, key.hash) + 2
  {
    var x, y := TwoOf(s.procs, key);
    var a := LongerThanAll(s.issued.Keys);
    var b := LongerThanAll(s.issued.Keys + {a});
    var first, s1 := PairRace(s, key, x, y, a, b);
    PairWins(s1, s, key, x, y);
    OthersHaveNotRead(s, s1, key, x, y);
    var rest, u := RestGiveUp(s1, key, |s1.procs|);
    Append(s, first, s1, rest, u, key);
    events, t := first + rest, u;
  }

  // ---- Contenders that arrive ----

  /** A request with the old key itself: of an admin or of the owner, whichever the key is for. */
  function WithOldKey(row: KeyRow, hash: string): Event {
    Arrive(if row.keyType == "admin" then Admin(row.clientId) else Tenant(row.clientId), RotateKey(hash), hash,
           if row.expiresAt.Some? then Min(row.createdAt, row.expiresAt.value) else row.createdAt)
  }

  lemma {:induction false} OneMoreJoins(s: State, key: OldKey)
    requires Inv(s) && AtTheLine(s, key) && key.hash != ""
    ensures var e := WithOldKey(s.db.keys[key.hash], key.hash);
            && RaceStep(s, e, key) && Joins(e, key) && OutsideStep(s, e, key) == 0 && Inv(Next(s, e))
            && AtTheLine(Next(s, e), key) && Actives(Next(s, e), key) == Actives(s, key)
            && Contenders(Next(s, e).procs, key) == Contenders(s.procs, key) + 1
            && Wins(Next(s, e).procs, key.hash) == Wins(s.procs, key.hash)
  {
    var e := WithOldKey(s.db.keys[key.hash], key.hash);
    assert Enabled(s, e);
    StepKeepsInv(s, e);
    TallySnoc(s.procs, Process(e.caller, e.op, Start), key);
  }

  /** Two who wait or arrive, together, can both win. */
  lemma {:induction false} TwoBothWin(s: State, key: OldKey, joiners: nat) returns (events: seq<Event>)
    requires Inv(s) && AtTheLine(s, key) && key.hash != "" && Contenders(s.procs, key) + joiners >= 2
    ensures Race(s, events, key) && Joiners(events, key) <= joiners && Over(Final(s, events, key), key.hash)
    ensures Wins(Final(s, events, key).procs, key.hash) == Wins(s.procs, key.hash) + 2
    decreases joiners
  {
    if Contenders(s.procs, key) >= 2 {
      var t;
      events, t := TwoContendersBothWin(s, key);
      NothingElse(s, events, key);
    } else {
      var e := WithOldKey(s.db.keys[key.hash], key.hash);
      OneMoreJoins(s, key);
      var rest := TwoBothWin(Next(s, e), key, joiners - 1);
      events := [e] + rest;
      assert events[1..] == rest;
    }
  }

  // ---- Exactly when the active keys are conserved ----

  /** In every finished race that at most `joiners` further contenders join, whatever the order of the
      statements, whichever of them fail, and whatever else goes on, the rotations conserve the
      active keys of the old key's client and type. */
  ghost predicate EveryRaceConserves(s: State, key: OldKey, joiners: nat) {
    forall events ::
      Race(s, events, key) && Joiners(events, key) <= joiners && Over(Final(s, events, key), key.hash) ==>
      Conserved(s, events, key)
  }

  /** Nobody gets past the scan with an empty hash. */
  lemma {:induction false} NobodyContends(procs: seq<Process>, key: OldKey)
    requires key.hash == ""
    ensures Contenders(procs, key) == 0
  {
    if procs != [] {
      NobodyContends(procs[..|procs| - 1], key);
    }
  }

  lemma {:induction false} NobodyJoins(events: seq<Event>, key: OldKey)
    requires key.hash == ""
    ensures Joiners(events, key) == 0
  {
    if events != [] {
      NobodyJoins(events[1..], key);
    }
  }

  /** Rotations of one key conserve its client's active keys in every race exactly when at most one
      of the requests that wait or arrive is from an admin or the owner of the key. */
  lemma {:induction false} RaceConservesIffOneContender(s: State, key: OldKey, joiners: nat)
    requires Inv(s) && AtTheLine(s, key)
    ensures EveryRaceConserves(s, key, joiners) <==> key.hash == "" || Contenders(s.procs, key) + joiners <= 1
  {
    if key.hash == "" || Contenders(s.procs, key) + joiners <= 1 {
      forall events
        | Race(s, events, key) && Joiners(events, key) <= joiners && Over(Final(s, events, key), key.hash)
        ensures Conserved(s, events, key)
      {
        if key.hash == "" {
          NobodyContends(s.procs, key);
          NobodyJoins(events, key);
        }
        OneContenderConserves(s, events, key);
      }
    } else {
      var events := TwoBothWin(s, key, joiners);
      RaceLedger(s, events, key);
    }
  }

  // ---- From nothing ----

  lemma {:induction false} OneMoreStep(states: seq<State>, events: seq<Event>, e: Event, s: State)
    requires IsRun(states, events) && Enabled(states[|events|], e) && s == Next(states[|events|], e)
    ensures IsRun(states + [s], events + [e])
  {
    forall k: nat | k < |events + [e]| ensures StepOf(states + [s], events + [e], k) {
      if k < |events| {
        assert StepOf(states, events, k);
      }
    }
  }

  /** A race from a state that a run reached is more of that run. */
  lemma {:induction false} RaceContinuesRun(states: seq<State>, events: seq<Event>, race: seq<Event>, key: OldKey)
    returns (more: seq<State>)
    requires IsRun(states, events) && Race(states[|events|], race, key)
    ensures IsRun(more, events + race) && states <= more
    ensures more[|events + race|] == Final(states[|events|], race, key)
    decreases |race|
  {
    if race == [] {
      more := states;
      assert events + race == events;
    } else {
      var s := Next(states[|events|], race[0]);
      OneMoreStep(states, events, race[0], s);
      more := RaceContinuesRun(states + [s], events + [race[0]], race[1..], key);
      assert events + [race[0]] + race[1..] == events + race;
    }
  }

  const MASTER_KEY := OldKey(MASTER, DEFAULT_CLIENT, "admin")

  /** A bootstrap at some stage on an empty key table. */
  function Seeding(stage: Stage): State {
    State(Db(map[DEFAULT_CLIENT := ""], map[], map[]), [], [Process(Service, Bootstrap, stage)],
          map[MASTER := DEFAULT_CLIENT])
  }

  const NO_FAULT := Choice(false, false, "", 0, 0)

  lemma {:induction false} SeedingSteps()
    ensures Enabled(Seeding(Start), Run(0, NO_FAULT)) && Next(Seeding(Start), Run(0, NO_FAULT)) == Seeding(Counted)
    ensures Enabled(Seeding(Counted), Run(0, NO_FAULT))
    ensures Next(Seeding(Counted), Run(0, NO_FAULT)) == Seeding(DefaultReady)
  {
  }

  lemma {:induction false} SeedingEnds()
    ensures Enabled(Seeding(DefaultReady), Run(0, NO_FAULT))
    ensures var s := Next(Seeding(DefaultReady), Run(0, NO_FAULT));
            && s.procs == [Process(Service, Bootstrap, Finished(true))]
            && s.db.keys == map[MASTER := NewKey(DEFAULT_CLIENT, "Master Admin Key", "admin", 0, None)]
  {
  }

  lemma {:induction false} SeedingRuns() returns (states: seq<State>, events: seq<Event>)
    ensures IsRun(states, events) && states[|events|] == Seeding(DefaultReady)
  {
    var boot, step := Arrive(Service, Bootstrap, "", 0), Run(0, NO_FAULT);
    SeedingSteps();
    states, events := [Seeding(Start).(procs := [])], [];
    assert IsRun(states, events);
    OneMoreStep(states, events, boot, Seeding(Start));
    states, events := states + [Seeding(Start)], events + [boot];
    OneMoreStep(states, events, step, Seeding(Counted));
    states, events := states + [Seeding(Counted)], events + [step];
    OneMoreStep(states, events, step, Seeding(DefaultReady));
    states, events := states + [Seeding(DefaultReady)], events + [step];
  }

  /** The service starts with its default client and seeds the master key. */
  lemma {:induction false} MasterKeySeeded() returns (states: seq<State>, events: seq<Event>)
    ensures IsRun(states, events)
    ensures var s := states[|events|];
            && s.procs == [Process(Service, Bootstrap, Finished(true))]
            && s.db.keys == map[MASTER := NewKey(DEFAULT_CLIENT, "Master Admin Key", "admin", 0, None)]
  {
    states, events := SeedingRuns();
    SeedingEnds();
    var s := Next(Seeding(DefaultReady), Run(0, NO_FAULT));
    OneMoreStep(states, events, Run(0, NO_FAULT), s);
    states, events := states + [s], events + [Run(0, NO_FAULT)];
  }

  /** Then two admins ask to rotate it. */
  lemma {:induction false} TwoAdminsWait() returns (states: seq<State>, events: seq<Event>)
    ensures IsRun(states, events)
    ensures AtTheLine(states[|events|], MASTER_KEY) && Contenders(states[|events|].procs, MASTER_KEY) == 2
    ensures Wins(states[|events|].procs, MASTER) == 0 && |Actives(states[|events|], MASTER_KEY)| == 1
  {
    states, events := MasterKeySeeded();
    var s := states[|events|];
    var ask := Arrive(Admin(DEFAULT_CLIENT), RotateKey(MASTER), MASTER, 0);
    var asked := Process(Admin(DEFAULT_CLIENT), RotateKey(MASTER), Start);
    var s1 := Next(s, ask);
    var s2 := Next(s1, ask);
    OneMoreStep(states, events, ask, s1);
    OneMoreStep(states + [s1], events + [ask], ask, s2);
    states, events := states + [s1] + [s2], events + [ask] + [ask];
    assert s1.procs == s.procs + [asked] && s2.procs == s.procs + [asked] + [asked];
    TallySnoc(s.procs, asked, MASTER_KEY);
    TallySnoc(s.procs + [asked], asked, MASTER_KEY);
    assert s2.procs[..2] == s1.procs && s1.procs[..1] == s.procs && s.procs[..0] == [];
    assert Contender(asked, MASTER_KEY) && !Contender(s.procs[0], MASTER_KEY);
    assert Contenders(s.procs, MASTER_KEY) == 0;
    assert Contenders(s1.procs, MASTER_KEY) == 1;
    assert Actives(s2, MASTER_KEY) == {MASTER};
  }

  /** So from an empty key table the service can be brought to report success to both and to hold
      two active admin keys where there was one. */
  lemma {:induction false} ServiceCanDoubleAKey() returns (states: seq<State>, events: seq<Event>, start: nat)
    ensures IsRun(states, events) && start <= |events|
    ensures Over(states[|events|], MASTER) && Wins(states[|events|].procs, MASTER) == 2
    ensures ActiveCount(states[start].db, DEFAULT_CLIENT, "admin") == 1
    ensures ActiveCount(states[|events|].db, DEFAULT_CLIENT, "admin") == 2
  {
    var before, steps := TwoAdminsWait();
    start := |steps|;
    RunKeepsInv(before, steps, start);
    var race, last := TwoContendersBothWin(before[start], MASTER_KEY);
    NothingElse(before[start], race, MASTER_KEY);
    RaceLedger(before[start], race, MASTER_KEY);
    states := RaceContinuesRun(before, steps, race, MASTER_KEY);
    events := steps + race;
  }
}
