/** Several rotations of one key at the same time, in the middle of everything else the service does. */
module RotationRace {
  import opened Prelude
  import opened Database
  import opened PostgresStore
  import opened Interleaving
  import opened KeyLife
  import Auth

  // ---- Any run: every success adds a key, and the old key is retired ----

  /** Step `k` is the last statement of a rotation of `hash`, and it succeeds. */
  predicate SucceedsAt(states: seq<State>, events: seq<Event>, k: nat, hash: string)
    requires |states| == |events| + 1
  {
    && k < |events| && events[k].Run? && events[k].i < |states[k].procs| && events[k].i < |states[k + 1].procs|
    && states[k].procs[events[k].i].op == RotateKey(hash)
    && states[k + 1].procs[events[k].i].stage == Finished(true)
  }

  lemma {:induction false} JustRetired(states: seq<State>, events: seq<Event>, k: nat, hash: string)
    requires IsRun(states, events) && SucceedsAt(states, events, k, hash)
    ensures hash in states[k + 1].issued && !StoredActive(states[k + 1].db, hash)
  {
    assert StepOf(states, events, k);
    RunKeepsInv(states, events, k);
    StepKeepsIssued(states[k], events[k]);
    assert Established(states[k].issued, states[k].procs[events[k].i]);
  }

  /** Whatever else runs, a key is gone or inactive from the moment a rotation of it succeeds. Only
      the master key can come back, through a bootstrap (`GoneKeyReturnsByBootstrap`). */
  lemma {:induction false} RotatedKeyIsRetired(states: seq<State>, events: seq<Event>, k: nat, b: nat, hash: string)
    requires IsRun(states, events) && SucceedsAt(states, events, k, hash) && k < b < |states|
    ensures hash in states[b].issued
    ensures b == k + 1 || hash != MASTER ==> !StoredActive(states[b].db, hash)
    decreases b
  {
    if b == k + 1 {
      JustRetired(states, events, k, hash);
    } else {
      RotatedKeyIsRetired(states, events, k, b - 1, hash);
      RetiredStays(states, events, b - 1, hash);
    }
  }

  /** At step `m` request `i` reads the active row of `hash`; at step `j` it stores an active key
      with a hash never used before and that row's client and type. */
  predicate ReplacesAt(states: seq<State>, events: seq<Event>, i: nat, hash: string, m: nat, j: nat)
    requires |states| == |events| + 1
  {
    && m < j < |events| && StoredActive(states[m].db, hash)
    && events[m].Run? && events[m].i == i && events[j].Run? && events[j].i == i
    && (var row, newHash := states[m].db.keys[hash], events[j].ch.newHash;
        && newHash !in states[j].issued && newHash in states[j + 1].db.keys
        && states[j + 1].db.keys[newHash] == Replacement(row, events[j].ch.now)
        && ActiveCount(states[j + 1].db, row.clientId, row.keyType)
           == ActiveCount(states[j].db, row.clientId, row.keyType) + 1)
  }

  lemma {:induction false} ReplacementStep(states: seq<State>, events: seq<Event>, i: nat, k: nat, hash: string)
    returns (j: nat)
    requires IsRun(states, events) && k < |states| && Rotates(states[k], i, hash)
    requires states[k].procs[i].stage.Replaced? || states[k].procs[i].stage == Finished(true)
    ensures j < k && events[j].Run? && events[j].i == i && Rotates(states[j], i, hash)
    ensures states[j].procs[i].stage.Selected?
    ensures Rotates(states[j + 1], i, hash) && states[j + 1].procs[i].stage.Replaced?
    decreases k
  {
    assert k > 0 && StepOf(states, events, k - 1);
    if states[k - 1].procs[i].stage.Selected? {
      j := k - 1;
    } else {
      j := ReplacementStep(states, events, i, k - 1, hash);
    }
  }

  /** In any run each rotation that succeeded had its own step at which the active keys of the old
      key's client and type grew by one. */
  lemma {:induction false} EverySuccessAdds(states: seq<State>, events: seq<Event>, i: nat, k: nat, hash: string)
    requires IsRun(states, events) && k < |states| && Rotates(states[k], i, hash)
    requires states[k].procs[i].stage == Finished(true)
    ensures exists m: nat, j: nat :: j < k && ReplacesAt(states, events, i, hash, m, j)
  {
    var j := ReplacementStep(states, events, i, k, hash);
    var m := ReadingStep(states, events, i, j, hash);
    assert StepOf(states, events, j);
    var row, ch := states[m].db.keys[hash], events[j].ch;
    CountAfterInsert(states[j].db, ch.newHash, Replacement(row, ch.now), row.clientId, row.keyType);
    assert ReplacesAt(states, events, i, hash, m, j);
  }

  // ---- Races ----

  /** The key being rotated. Its owner and type do not change while its row exists. */
  datatype OldKey = OldKey(hash: string, clientId: string, keyType: string)

  /** The active keys the race is about: those of the old key's client and type. */
  function Actives(s: State, key: OldKey): set<string> {
    ActiveKeys(s.db.keys, key.clientId, key.keyType)
  }

  predicate Racer(p: Process, hash: string) {
    p.op == RotateKey(hash)
  }

  /** The old key is active and no rotation of it in progress has begun. Anything else may be in
      progress, and any request may be over. */
  predicate AtTheLine(s: State, key: OldKey) {
    && StoredActive(s.db, key.hash)
    && s.db.keys[key.hash].clientId == key.clientId && s.db.keys[key.hash].keyType == key.keyType
    && forall k :: 0 <= k < |s.procs| && Racer(s.procs[k], key.hash) ==>
         s.procs[k].stage.Start? || s.procs[k].stage.Finished?
  }

  /** The replacement a rotation of the old key is still answerable for. */
  function PendingHash(p: Process, hash: string): Option<string> {
    if !Racer(p, hash) then None else
      match p.stage
      case Replaced(newHash) => Some(newHash)
      case CleanUp(newHash) => Some(newHash)
      case _ => None
  }

  /** Whether the old key and the racers' replacements are active is as it was, and the old key was
      not stored anew. */
  predicate LeavesAlone(before: State, after: State, key: OldKey) {
    && (key.hash in Actives(after, key) <==> key.hash in Actives(before, key))
    && (key.hash in after.db.keys ==> key.hash in before.db.keys)
    && forall k :: 0 <= k < |before.procs| && PendingHash(before.procs[k], key.hash).Some? ==>
         (PendingHash(before.procs[k], key.hash).value in Actives(after, key)
          <==> PendingHash(before.procs[k], key.hash).value in Actives(before, key))
  }

  predicate RacerStep(s: State, e: Event, key: OldKey) {
    Enabled(s, e) && e.Run? && Racer(s.procs[e.i], key.hash)
  }

  /** A step of the race: a rotation of the old key takes a step; or anything else happens that
      leaves the keys the race is about alone. Requests keep arriving, more rotations of the old key
      among them, and other keys come and go. */
  predicate RaceStep(s: State, e: Event, key: OldKey) {
    Enabled(s, e) && (RacerStep(s, e, key) || LeavesAlone(s, Next(s, e), key))
  }

  predicate Race(s: State, events: seq<Event>, key: OldKey)
    decreases |events|
  {
    events == [] || (RaceStep(s, events[0], key) && Race(Next(s, events[0]), events[1..], key))
  }

  function Final(s: State, events: seq<Event>, key: OldKey): State
    requires Race(s, events, key)
    decreases |events|
  {
    if events == [] then s else Final(Next(s, events[0]), events[1..], key)
  }

  /** All rotations of the old key are over. */
  predicate Over(s: State, hash: string) {
    forall k :: 0 <= k < |s.procs| && Racer(s.procs[k], hash) ==> s.procs[k].stage.Finished?
  }

  /** A compensating delete fails, which leaves its replacement behind. */
  predicate OrphanStep(s: State, e: Event, key: OldKey) {
    RacerStep(s, e, key) && s.procs[e.i].stage.CleanUp? && e.ch.fault
  }

  function Orphans(s: State, events: seq<Event>, key: OldKey): nat
    requires Race(s, events, key)
    decreases |events|
  {
    if events == [] then 0
    else (if OrphanStep(s, events[0], key) then 1 else 0) + Orphans(Next(s, events[0]), events[1..], key)
  }

  /** What a step other than a racer's does to the number of active keys. */
  function OutsideStep(s: State, e: Event, key: OldKey): int
    requires Enabled(s, e)
  {
    if RacerStep(s, e, key) then 0 else |Actives(Next(s, e), key)| - |Actives(s, key)|
  }

  function Outside(s: State, events: seq<Event>, key: OldKey): int
    requires Race(s, events, key)
    decreases |events|
  {
    if events == [] then 0
    else OutsideStep(s, events[0], key) + Outside(Next(s, events[0]), events[1..], key)
  }

  // ---- The tally ----

  /** The request has stored a replacement that is still there. */
  predicate HasReplacement(p: Process) {
    p.stage.Replaced? || p.stage.CleanUp? || p.stage == Finished(true)
  }

  /** Rotations of the old key with a replacement stored. */
  function Replacements(procs: seq<Process>, hash: string): nat {
    if procs == [] then 0 else
      var p := procs[|procs| - 1];
      Replacements(procs[..|procs| - 1], hash) + (if Racer(p, hash) && HasReplacement(p) then 1 else 0)
  }

  /** Rotations of the old key that succeeded. */
  function Wins(procs: seq<Process>, hash: string): nat {
    if procs == [] then 0 else
      var p := procs[|procs| - 1];
      Wins(procs[..|procs| - 1], hash) + (if Racer(p, hash) && p.stage == Finished(true) then 1 else 0)
  }

  /** An admin, or the tenant owning the old key: the ownership scan lets nobody else through. */
  predicate MayRotate(p: Process, key: OldKey) {
    key.hash != "" && (p.caller.Admin? || p.caller == Tenant(key.clientId))
  }

  /** A rotation of the old key that has succeeded or still can. */
  predicate HasChance(p: Process, key: OldKey) {
    && Racer(p, key.hash)
    && (p.stage == Finished(true) || p.stage.Owned? || p.stage.Selected? || p.stage.Replaced?
        || (p.stage.Start? && MayRotate(p, key)))
  }

  function Chances(procs: seq<Process>, key: OldKey): nat {
    if procs == [] then 0
    else Chances(procs[..|procs| - 1], key) + (if HasChance(procs[|procs| - 1], key) then 1 else 0)
  }

  /** Rotations of the old key that have not begun and that the scan lets through. */
  predicate Contender(p: Process, key: OldKey) {
    Racer(p, key.hash) && p.stage.Start? && MayRotate(p, key)
  }

  function Contenders(procs: seq<Process>, key: OldKey): nat {
    if procs == [] then 0
    else Contenders(procs[..|procs| - 1], key) + (if Contender(procs[|procs| - 1], key) then 1 else 0)
  }

  lemma {:induction false} TallyUpdate(procs: seq<Process>, i: nat, p: Process, key: OldKey)
    requires i < |procs| && p.op == procs[i].op
    ensures var racer := Racer(p, key.hash);
            && Replacements(procs[i := p], key.hash) == Replacements(procs, key.hash)
               - (if racer && HasReplacement(procs[i]) then 1 else 0) + (if racer && HasReplacement(p) then 1 else 0)
            && Wins(procs[i := p], key.hash) == Wins(procs, key.hash)
               - (if racer && procs[i].stage == Finished(true) then 1 else 0)
               + (if racer && p.stage == Finished(true) then 1 else 0)
            && Chances(procs[i := p], key) == Chances(procs, key)
               - (if HasChance(procs[i], key) then 1 else 0) + (if HasChance(p, key) then 1 else 0)
    decreases |procs|
  {
    var n := |procs| - 1;
    if i < n {
      TallyUpdate(procs[..n], i, p, key);
      assert procs[i := p][..n] == procs[..n][i := p];
    } else {
      assert procs[i := p][..n] == procs[..n];
    }
  }

  lemma {:induction false} TallySnoc(procs: seq<Process>, p: Process, key: OldKey)
    requires p.stage.Start?
    ensures Replacements(procs + [p], key.hash) == Replacements(procs, key.hash)
    ensures Wins(procs + [p], key.hash) == Wins(procs, key.hash)
    ensures Chances(procs + [p], key) == Chances(procs, key) + (if Contender(p, key) then 1 else 0)
    ensures Contenders(procs + [p], key) == Contenders(procs, key) + (if Contender(p, key) then 1 else 0)
  {
    assert (procs + [p])[..|procs|] == procs;
  }

  /** Before the start everything with a replacement is a past success, and what has a chance is
      one of those or a contender. */
  lemma {:induction false} TallyAtTheLine(procs: seq<Process>, key: OldKey)
    requires forall k :: 0 <= k < |procs| && Racer(procs[k], key.hash) ==>
               procs[k].stage.Start? || procs[k].stage.Finished?
    ensures Replacements(procs, key.hash) == Wins(procs, key.hash)
    ensures Chances(procs, key) == Wins(procs, key.hash) + Contenders(procs, key)
  {
    if procs != [] {
      TallyAtTheLine(procs[..|procs| - 1], key);
    }
  }

  lemma {:induction false} TallyAtTheEnd(procs: seq<Process>, key: OldKey)
    requires forall k :: 0 <= k < |procs| && Racer(procs[k], key.hash) ==> procs[k].stage.Finished?
    ensures Replacements(procs, key.hash) == Wins(procs, key.hash) == Chances(procs, key)
  {
    if procs != [] {
      TallyAtTheEnd(procs[..|procs| - 1], key);
    }
  }

  // ---- What every step of a race keeps ----

  /** A replacement in the making is an active key of the old key's client and type. */
  predicate ReplacementStored(s: State, p: Process, key: OldKey) {
    Racer(p, key.hash) ==>
      match p.stage
      case Selected(row) => row.clientId == key.clientId && row.keyType == key.keyType
      case Replaced(newHash) => newHash in Actives(s, key) && newHash != key.hash
      case CleanUp(newHash) => newHash in Actives(s, key) && newHash != key.hash
      case _ => true
  }

  /** `past` rotations had succeeded before the race; the old key is active until one more does. */
  ghost predicate RaceInv(s: State, key: OldKey, past: nat) {
    && Inv(s) && IssuedTo(s.issued, key.hash, key.clientId)
    && (key.hash in s.db.keys ==>
          s.db.keys[key.hash].clientId == key.clientId && s.db.keys[key.hash].keyType == key.keyType)
    && (forall k :: 0 <= k < |s.procs| ==> ReplacementStored(s, s.procs[k], key))
    && (forall j, k :: 0 <= j < k < |s.procs| && PendingHash(s.procs[j], key.hash).Some? ==>
          PendingHash(s.procs[j], key.hash) != PendingHash(s.procs[k], key.hash))
    && Wins(s.procs, key.hash) >= past
    && (key.hash in Actives(s, key) <==> Wins(s.procs, key.hash) == past)
  }

  /** The active keys, less one for each replacement, and one more if the old key is not among them:
      what a race conserves. */
  function Balance(s: State, key: OldKey): int {
    |Actives(s, key)| - Replacements(s.procs, key.hash) + (if key.hash in Actives(s, key) then 0 else 1)
  }

  /** How a racer moves, and the active keys with it. */
  predicate Moves(before: set<string>, after: set<string>, was: Stage, now: Stage, hash: string, ch: Choice) {
    match was
    case Selected(_) =>
      || (now == Replaced(ch.newHash) && after == before + {ch.newHash} && ch.newHash !in before && ch.newHash != hash)
      || (now == Finished(false) && after == before)
    case Replaced(h) => (now == Finished(true) && after == before - {hash}) || (now == CleanUp(h) && after == before)
    case CleanUp(h) =>
      now == Finished(false) && after == (if ch.fault then before else before - {h}) && h in before && h != hash
    case _ => (now.Owned? || now.Selected? || now == Finished(false)) && was != Finished(true) && after == before
  }

  lemma {:induction false} SelectedMoves(s: State, e: Event, key: OldKey, past: nat)
    requires RaceInv(s, key, past) && RacerStep(s, e, key) && s.procs[e.i].stage.Selected?
    ensures Moves(Actives(s, key), Actives(Next(s, e), key), s.procs[e.i].stage, Next(s, e).procs[e.i].stage,
                  key.hash, e.ch)
  {
    var p := s.procs[e.i];
    assert ReplacementStored(s, p, key);
    ActiveAfterInsert(s.db.keys, e.ch.newHash, Replacement(p.stage.row, e.ch.now), key.clientId, key.keyType);
  }

  lemma {:induction false} RacerMoves(s: State, e: Event, key: OldKey, past: nat)
    requires RaceInv(s, key, past) && RacerStep(s, e, key)
    ensures Moves(Actives(s, key), Actives(Next(s, e), key), s.procs[e.i].stage, Next(s, e).procs[e.i].stage,
                  key.hash, e.ch)
  {
    var p := s.procs[e.i];
    match p.stage
    case Selected(_) => SelectedMoves(s, e, key, past);
    case Replaced(_) => ActiveAfterLoss(s.db.keys, key.hash, key.clientId, key.keyType);
    case CleanUp(newHash) =>
      assert ReplacementStored(s, p, key);
      ActiveAfterLoss(s.db.keys, newHash, key.clientId, key.keyType);
    case _ =>
  }

  /** The mover's replacement, and those of the others, which are neither it nor the old key. */
  lemma {:induction false} ReplacementsStay(s: State, e: Event, key: OldKey, past: nat, k: nat)
    requires RaceInv(s, key, past) && RacerStep(s, e, key) && k < |s.procs|
    ensures ReplacementStored(Next(s, e), Next(s, e).procs[k], key)
  {
    var p := s.procs[e.i];
    RacerMoves(s, e, key, past);
    assert ReplacementStored(s, p, key) && ReplacementStored(s, s.procs[k], key);
    if k != e.i && PendingHash(s.procs[k], key.hash).Some? {
      assert PendingHash(s.procs[k], key.hash) != PendingHash(p, key.hash);
    }
  }

  lemma {:induction false} PendingStayDistinct(s: State, e: Event, key: OldKey, past: nat, j: nat, k: nat)
    requires RaceInv(s, key, past) && RacerStep(s, e, key) && j < k < |s.procs|
    requires PendingHash(Next(s, e).procs[j], key.hash).Some?
    ensures PendingHash(Next(s, e).procs[j], key.hash) != PendingHash(Next(s, e).procs[k], key.hash)
  {
    assert ReplacementStored(s, s.procs[j], key) && ReplacementStored(s, s.procs[k], key);
  }

  /** The same in numbers: the old key stays active unless the racer succeeds. */
  lemma {:induction false} SizeWithout(keys: set<string>, hash: string)
    ensures |keys - {hash}| == |keys| - (if hash in keys then 1 else 0)
  {
    assert if hash in keys then keys == (keys - {hash}) + {hash} else keys == keys - {hash};
  }

  lemma {:induction false} MovesInNumbers(before: set<string>, after: set<string>, was: Process, now: Process,
                                          hash: string, ch: Choice)
    requires Moves(before, after, was.stage, now.stage, hash, ch)
    ensures was.stage != Finished(true)
    ensures hash in after <==> hash in before && now.stage != Finished(true)
    ensures |after| == |before| + (if HasReplacement(now) then 1 else 0) - (if HasReplacement(was) then 1 else 0)
                       - (if hash in before && now.stage == Finished(true) then 1 else 0)
                       + (if was.stage.CleanUp? && ch.fault then 1 else 0)
  {
    match was.stage
    case CleanUp(h) => SizeWithout(before, h);
    case Replaced(_) => SizeWithout(before, hash);
    case _ =>
  }

  lemma {:induction false} RacerKeepsBalance(s: State, e: Event, key: OldKey, past: nat)
    requires RaceInv(s, key, past) && RacerStep(s, e, key)
    ensures Balance(Next(s, e), key) == Balance(s, key) + (if OrphanStep(s, e, key) then 1 else 0)
    ensures Wins(Next(s, e).procs, key.hash) >= past
    ensures key.hash in Actives(Next(s, e), key) <==> Wins(Next(s, e).procs, key.hash) == past
  {
    RacerMoves(s, e, key, past);
    MovesInNumbers(Actives(s, key), Actives(Next(s, e), key), s.procs[e.i], Next(s, e).procs[e.i],
                   key.hash, e.ch);
    TallyUpdate(s.procs, e.i, Next(s, e).procs[e.i], key);
  }

  lemma {:induction false} OldRowStays(s: State, e: Event, key: OldKey, past: nat)
    requires RaceInv(s, key, past) && RaceStep(s, e, key)
    ensures var s' := Next(s, e);
            && IssuedTo(s'.issued, key.hash, key.clientId)
            && (key.hash in s'.db.keys ==>
                  s'.db.keys[key.hash].clientId == key.clientId && s'.db.keys[key.hash].keyType == key.keyType)
  {
    StepKeepsIssued(s, e);
    if e.Run? && key.hash in s.db.keys && StatementOf(s.procs[e.i], e.ch).Some? {
      var stmt := StatementOf(s.procs[e.i], e.ch).value;
      if key.hash in Execute(s.db, stmt).keys {
        Auth.StatementsOnlyAge(s.db, stmt, key.hash);
      }
    }
  }

  lemma {:induction false} RacerKeepsInv(s: State, e: Event, key: OldKey, past: nat)
    requires RaceInv(s, key, past) && RacerStep(s, e, key)
    ensures RaceInv(Next(s, e), key, past)
  {
    StepKeepsInv(s, e);
    OldRowStays(s, e, key, past);
    RacerKeepsBalance(s, e, key, past);
    var s' := Next(s, e);
    forall k: nat | k < |s'.procs| ensures ReplacementStored(s', s'.procs[k], key) {
      ReplacementsStay(s, e, key, past, k);
    }
    forall j: nat, k: nat | j < k < |s'.procs| && PendingHash(s'.procs[j], key.hash).Some?
      ensures PendingHash(s'.procs[j], key.hash) != PendingHash(s'.procs[k], key.hash)
    {
      PendingStayDistinct(s, e, key, past, j, k);
    }
  }

  predicate Joins(e: Event, key: OldKey) {
    e.Arrive? && Contender(Process(e.caller, e.op, Start), key)
  }

  /** What else happens meanwhile moves no racer. */
  lemma {:induction false} BystanderKeepsTally(s: State, e: Event, key: OldKey)
    requires RaceStep(s, e, key) && !RacerStep(s, e, key)
    ensures Wins(Next(s, e).procs, key.hash) == Wins(s.procs, key.hash)
    ensures Balance(Next(s, e), key) == Balance(s, key) + OutsideStep(s, e, key)
    ensures Chances(Next(s, e).procs, key) == Chances(s.procs, key) + (if Joins(e, key) then 1 else 0)
  {
    match e
    case Arrive(caller, op, _, _) => TallySnoc(s.procs, Process(caller, op, Start), key);
    case Run(i, _) => TallyUpdate(s.procs, i, Next(s, e).procs[i], key);
  }

  lemma {:induction false} BystanderMovesNoRacer(s: State, e: Event, key: OldKey, k: nat)
    requires RaceStep(s, e, key) && !RacerStep(s, e, key) && k < |Next(s, e).procs|
    ensures Racer(Next(s, e).procs[k], key.hash) ==>
              Next(s, e).procs[k].stage.Start? || (k < |s.procs| && Next(s, e).procs[k] == s.procs[k])
    ensures PendingHash(Next(s, e).procs[k], key.hash)
            == if k < |s.procs| then PendingHash(s.procs[k], key.hash) else None
  {
  }

  lemma {:induction false} BystanderSparesReplacement(s: State, e: Event, key: OldKey, past: nat, k: nat)
    requires RaceInv(s, key, past) && RaceStep(s, e, key) && !RacerStep(s, e, key) && k < |Next(s, e).procs|
    ensures ReplacementStored(Next(s, e), Next(s, e).procs[k], key)
  {
    BystanderMovesNoRacer(s, e, key, k);
    if k < |s.procs| {
      assert ReplacementStored(s, s.procs[k], key);
      assert PendingHash(s.procs[k], key.hash).Some? ==>
          PendingHash(s.procs[k], key.hash).value in Actives(Next(s, e), key);
    }
  }

  lemma {:induction false} BystanderKeepsInv(s: State, e: Event, key: OldKey, past: nat)
    requires RaceInv(s, key, past) && RaceStep(s, e, key) && !RacerStep(s, e, key)
    ensures RaceInv(Next(s, e), key, past)
  {
    StepKeepsInv(s, e);
    OldRowStays(s, e, key, past);
    BystanderKeepsTally(s, e, key);
    var s' := Next(s, e);
    forall k: nat | k < |s'.procs| ensures ReplacementStored(s', s'.procs[k], key) {
      BystanderSparesReplacement(s, e, key, past, k);
    }
    forall j: nat, k: nat | j < k < |s'.procs| && PendingHash(s'.procs[j], key.hash).Some?
      ensures PendingHash(s'.procs[j], key.hash) != PendingHash(s'.procs[k], key.hash)
    {
      BystanderMovesNoRacer(s, e, key, j);
      BystanderMovesNoRacer(s, e, key, k);
    }
  }

  lemma {:induction false} RaceStepKeepsInv(s: State, e: Event, key: OldKey, past: nat)
    requires RaceInv(s, key, past) && RaceStep(s, e, key)
    ensures RaceInv(Next(s, e), key, past)
    ensures Balance(Next(s, e), key)
            == Balance(s, key) + (if OrphanStep(s, e, key) then 1 else 0) + OutsideStep(s, e, key)
  {
    if RacerStep(s, e, key) {
      RacerKeepsInv(s, e, key, past);
      RacerKeepsBalance(s, e, key, past);
    } else {
      BystanderKeepsInv(s, e, key, past);
      BystanderKeepsTally(s, e, key);
    }
  }

  lemma {:induction false} RaceKeepsInv(s: State, events: seq<Event>, key: OldKey, past: nat)
    requires RaceInv(s, key, past) && Race(s, events, key)
    ensures RaceInv(Final(s, events, key), key, past)
    ensures Balance(Final(s, events, key), key)
            == Balance(s, key) + Orphans(s, events, key) + Outside(s, events, key)
    decreases |events|
  {
    if events != [] {
      RaceStepKeepsInv(s, events[0], key, past);
      RaceKeepsInv(Next(s, events[0]), events[1..], key, past);
    }
  }

  lemma {:induction false} LineIsInv(s: State, key: OldKey)
    requires Inv(s) && AtTheLine(s, key)
    ensures RaceInv(s, key, Wins(s.procs, key.hash))
    ensures Balance(s, key) == |Actives(s, key)| - Wins(s.procs, key.hash)
  {
    TallyAtTheLine(s.procs, key);
  }

  /** The ledger of a race, at every moment of it: besides what others did to the active keys and the
      replacements left behind by failed compensations, each rotation with a replacement stored has
      added an active key, and one is missing once a rotation has succeeded, because the old key is
      gone or inactive from then on and not before. */
  lemma {:induction false} RaceLedger(s: State, events: seq<Event>, key: OldKey)
    requires Inv(s) && AtTheLine(s, key) && Race(s, events, key)
    ensures var s' := Final(s, events, key);
            var won := Wins(s'.procs, key.hash) - Wins(s.procs, key.hash);
            var others := Orphans(s, events, key) + Outside(s, events, key);
            && won >= 0 && (StoredActive(s'.db, key.hash) <==> won == 0)
            && |Actives(s', key)| == |Actives(s, key)| + others
               + (Replacements(s'.procs, key.hash) - Wins(s.procs, key.hash)) - (if won > 0 then 1 else 0)
            && (Over(s', key.hash) ==>
                  |Actives(s', key)| == |Actives(s, key)| + others + won - (if won > 0 then 1 else 0))
  {
    LineIsInv(s, key);
    RaceKeepsInv(s, events, key, Wins(s.procs, key.hash));
    if Over(Final(s, events, key), key.hash) {
      TallyAtTheEnd(Final(s, events, key).procs, key);
    }
  }

  // ---- At most one contender ----

  /** Contenders that arrive during the race. */
  function Joiners(events: seq<Event>, key: OldKey): nat {
    if events == [] then 0 else (if Joins(events[0], key) then 1 else 0) + Joiners(events[1..], key)
  }

  lemma {:induction false} StepAddsNoChance(s: State, e: Event, key: OldKey, past: nat)
    requires RaceInv(s, key, past) && RaceStep(s, e, key)
    ensures Chances(Next(s, e).procs, key) <= Chances(s.procs, key) + (if Joins(e, key) then 1 else 0)
  {
    if RacerStep(s, e, key) {
      assert Established(s.issued, s.procs[e.i]);
      TallyUpdate(s.procs, e.i, Next(s, e).procs[e.i], key);
    } else {
      BystanderKeepsTally(s, e, key);
    }
  }

  lemma {:induction false} ChancesOnlyJoin(s: State, events: seq<Event>, key: OldKey, past: nat)
    requires RaceInv(s, key, past) && Race(s, events, key)
    ensures Chances(Final(s, events, key).procs, key) <= Chances(s.procs, key) + Joiners(events, key)
    decreases |events|
  {
    if events != [] {
      StepAddsNoChance(s, events[0], key, past);
      RaceStepKeepsInv(s, events[0], key, past);
      ChancesOnlyJoin(Next(s, events[0]), events[1..], key, past);
    }
  }

  /** The rotations have conserved the active keys: these differ only by what others did and by
      what failed compensations left behind. */
  predicate Conserved(s: State, events: seq<Event>, key: OldKey)
    requires Race(s, events, key)
  {
    |Actives(Final(s, events, key), key)|
    == |Actives(s, key)| + Orphans(s, events, key) + Outside(s, events, key)
  }

  lemma {:induction false} OneContenderConserves(s: State, events: seq<Event>, key: OldKey)
    requires Inv(s) && AtTheLine(s, key) && Race(s, events, key) && Over(Final(s, events, key), key.hash)
    requires Contenders(s.procs, key) + Joiners(events, key) <= 1
    ensures Conserved(s, events, key)
  {
    LineIsInv(s, key);
    RaceLedger(s, events, key);
    ChancesOnlyJoin(s, events, key, Wins(s.procs, key.hash));
    TallyAtTheLine(s.procs, key);
    TallyAtTheEnd(Final(s, events, key).procs, key);
  }
}
