/** The authentication decision and how it can change over a key's life. */
module Auth {
  import opened Prelude
  import opened Database
  import PostgresStore

  predicate IsExpired(row: KeyRow, now: int) {
    row.expiresAt.Some? && now > row.expiresAt.value
  }

  predicate IsValid(row: KeyRow, now: int) {
    row.active && !IsExpired(row, now)
  }

  /** Over the maximum age, when there is one. */
  predicate TooOld(row: KeyRow, now: int, maxAge: int) {
    maxAge > 0 && now - row.createdAt > maxAge
  }

  predicate Acceptable(row: KeyRow, now: int, maxAge: int) {
    IsValid(row, now) && !TooOld(row, now, maxAge)
  }

  /** How long a row is accepted: while it is active, up to its expiry if it has one, and up to the
      maximum age if there is one. */
  lemma {:induction false} LifeOfKey(row: KeyRow, now: int, maxAge: int)
    ensures Acceptable(row, now, maxAge) <==>
            && row.active
            && (row.expiresAt != None ==> now <= row.expiresAt.value)
            && (maxAge > 0 ==> now <= row.createdAt + maxAge)
  {
  }

  datatype AuthResult =
    | MissingKey | InvalidKey | InactiveKey | ExpiredKey
    | Authenticated(clientId: string, isAdmin: bool)

  /** The middleware's checks in order, for the hash of the presented key, if one was presented.
      The clock is read again for the age check. The separate check for an inactive key never
      fires: validation already refused it. */
  method Authenticate(store: PostgresStore.Store, presented: Option<string>, fault: bool, now: int, later: int,
                      maxAge: int)
    returns (r: AuthResult)
    ensures r != InactiveKey
    ensures r == MissingKey <==> presented == None
    ensures r.Authenticated? <==>
              presented.Some? && !fault && presented.value in store.db.keys &&
              (var row := store.db.keys[presented.value];
               row.active && (row.expiresAt != None ==> now <= row.expiresAt.value) &&
               (maxAge > 0 ==> later <= row.createdAt + maxAge))
    ensures r.Authenticated? ==>
              r.clientId == store.db.keys[presented.value].clientId &&
              (r.isAdmin <==> store.db.keys[presented.value].keyType == "admin")
    ensures r == ExpiredKey <==>
              presented.Some? && !fault && presented.value in store.db.keys &&
              (var row := store.db.keys[presented.value];
               row.active && (row.expiresAt != None ==> now <= row.expiresAt.value) &&
               maxAge > 0 && later > row.createdAt + maxAge)
  {
    if presented == None {
      return MissingKey;
    }
    if fault || presented.value !in store.db.keys {
      return InvalidKey;
    }
    var row := store.db.keys[presented.value];
    if !IsValid(row, now) {
      return InvalidKey;
    }
    if !row.active {
      return InactiveKey;
    }
    if TooOld(row, later, maxAge) {
      return ExpiredKey;
    }
    return Authenticated(row.clientId, row.keyType == "admin");
  }

  /** A row that has only aged: its owner, type, creation and expiry are as before, and it has not
      become active again. */
  predicate OnlyAged(before: KeyRow, after: KeyRow) {
    && after.clientId == before.clientId && after.keyType == before.keyType
    && after.createdAt == before.createdAt && after.expiresAt == before.expiresAt
    && (after.active ==> before.active)
  }

  /** No statement does more to an existing key than age it. */
  lemma {:induction false} StatementsOnlyAge(db: Db, s: Statement, hash: string)
    requires hash in db.keys && hash in Execute(db, s).keys
    ensures OnlyAged(db.keys[hash], Execute(db, s).keys[hash])
  {
  }

  lemma {:induction false} RejectionPersists(before: KeyRow, after: KeyRow, now: int, later: int, maxAge: int)
    requires OnlyAged(before, after) && now <= later && !Acceptable(before, now, maxAge)
    ensures !Acceptable(after, later, maxAge)
  {
  }
}
