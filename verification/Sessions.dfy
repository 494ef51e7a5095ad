/** Refresh-token families: opening a session, rotating a token, closing a session. */
module Sessions {
  import opened Prelude
  import opened Store

  /** The client context recorded with a session. */
  datatype Meta = Meta(device: string, ip: string)

  /** A new family with its first token. The token and the family are drawn by the service. */
  function IssueStep(t: Tables, user: UserId, token: string, family: string, meta: Meta, ttl: int, now: int,
                     faults: set<Call>)
    : (Tables, Reply)
  {
    if user == "" then (t, MissingSubject)
    else if Entropy in faults || Insert in faults || user !in t.users || Digest(token) in t.refresh then (t, StoreError)
    else
      (t.(refresh := t.refresh[Digest(token) := Refresh(user, family, meta.device, meta.ip, now + ttl, None)]),
       if Sign in faults then StoreError else Session(token))
  }

  /** The tokens after rotating `presented` into `token`. */
  function Rotated(refresh: map<Digest, Refresh>, presented: Digest, token: Digest, ip: string, ttl: int,
                   now: int): map<Digest, Refresh>
    requires presented in refresh
  {
    var row := refresh[presented];
    refresh[presented := RevokedAt(row, now)][token := Refresh(row.user, row.family, row.device, ip, now + ttl, None)]
  }

  /** Rotation: reuse is checked before expiry. */
  function RefreshStep(t: Tables, presented: string, token: string, meta: Meta, ttl: int, now: int, faults: set<Call>)
    : (Tables, Reply)
  {
    var h := Digest(presented);
    if presented == "" then (t, InvalidRefresh)
    else if Begin in faults || ReadRow in faults then (t, StoreError)
    else if h !in t.refresh then (t, InvalidRefresh)
    else if t.refresh[h].revokedAt.Some? then
      if RevokeFamily in faults || Commit in faults then (t, StoreError)
      else (t.(refresh := FamilyRevoked(t.refresh, t.refresh[h].family, now)), RefreshReused)
    else if t.refresh[h].expiresAt <= now then (t, InvalidRefresh)
    else if faults !! {Revoke, Entropy, Insert, Commit} && Digest(token) !in t.refresh then
      (t.(refresh := Rotated(t.refresh, h, Digest(token), meta.ip, ttl, now)),
       if Sign in faults then StoreError else Session(token))
    else (t, StoreError)
  }

  /** Closing a session; an unknown token is as good as a closed one. */
  function LogoutStep(t: Tables, presented: string, now: int, faults: set<Call>): (Tables, Reply) {
    var h := Digest(presented);
    if presented == "" then (t, Done)
    else if Begin in faults || ReadRow in faults then (t, StoreError)
    else if h !in t.refresh then (t, Done)
    else if RevokeFamily in faults || Commit in faults then (t, StoreError)
    else (t.(refresh := FamilyRevoked(t.refresh, t.refresh[h].family, now)), Done)
  }

  method Issue(db: Database, user: UserId, token: string, family: string, meta: Meta, ttl: int, now: int,
               faults: set<Call>)
    returns (r: Reply)
    modifies db
    ensures (db.tables, r) == IssueStep(old(db.tables), user, token, family, meta, ttl, now, faults)
    ensures db.inFlight == old(db.inFlight)
  {
    if user == "" {
      return MissingSubject;
    }
    if Entropy in faults {
      return StoreError;
    }
    if Insert in faults || user !in db.tables.users || Digest(token) in db.tables.refresh {
      return StoreError;
    }
    db.tables := db.tables.(refresh := db.tables.refresh[Digest(token) := Refresh(user, family, meta.device, meta.ip,
      now + ttl, None)]);
    if Sign in faults {
      return StoreError;
    }
    return Session(token);
  }

  /** `UPDATE ... WHERE co_token_family = (SELECT co_token_family ... WHERE tx_token_hash = $1)` */
  method RevokeFamilyOf(tx: Tx, h: Digest, now: int, faults: set<Call>) returns (ok: bool)
    modifies tx`work
    ensures ok <==> RevokeFamily !in faults
    ensures !ok ==> tx.work == old(tx.work)
    ensures ok ==> tx.work == old(tx.work).(refresh :=
                     if h in old(tx.work).refresh
                       then FamilyRevoked(old(tx.work).refresh, old(tx.work).refresh[h].family, now)
                     else old(tx.work).refresh)
  {
    if RevokeFamily in faults {
      return false;
    }
    if h in tx.work.refresh {
      tx.work := tx.work.(refresh := FamilyRevoked(tx.work.refresh, tx.work.refresh[h].family, now));
    }
    return true;
  }

  /** The body of a rotation; `settled` tells the caller whether the transaction has ended. */
  method RefreshIn(tx: Tx, presented: string, token: string, meta: Meta, ttl: int, now: int, faults: set<Call>)
    returns (r: Reply, settled: bool)
    requires presented != "" && Begin !in faults
    requires tx.active && tx.work == tx.db.tables && tx.db.inFlight > 0
    modifies tx, tx.db
    ensures (tx.db.tables, r) == RefreshStep(old(tx.db.tables), presented, token, meta, ttl, now, faults)
    ensures settled == !tx.active && tx.db.inFlight == old(tx.db.inFlight) - if settled then 1 else 0
  {
    var h := Digest(presented);
    if ReadRow in faults {
      return StoreError, false;
    }
    if h !in tx.work.refresh {
      return InvalidRefresh, false;
    }
    var row := tx.work.refresh[h];
    if row.revokedAt.Some? {
      var revoked := RevokeFamilyOf(tx, h, now, faults);
      if !revoked {
        return StoreError, false;
      }
      var committed := tx.Commit(Commit in faults);
      return if committed then RefreshReused else StoreError, committed;
    }
    if row.expiresAt <= now {
      return InvalidRefresh, false;
    }
    if Revoke in faults {
      return StoreError, false;
    }
    tx.work := tx.work.(refresh := tx.work.refresh[h := row.(revokedAt := Some(now))]);
    if Entropy in faults {
      return StoreError, false;
    }
    if Insert in faults || Digest(token) in tx.work.refresh {
      return StoreError, false;
    }
    tx.work := tx.work.(refresh := tx.work.refresh[Digest(token) := Refresh(row.user, row.family, row.device, meta.ip,
      now + ttl, None)]);
    var ok := tx.Commit(Commit in faults);
    if !ok {
      return StoreError, false;
    }
    return if Sign in faults then StoreError else Session(token), true;
  }

  method Refreshing(db: Database, presented: string, token: string, meta: Meta, ttl: int, now: int, faults: set<Call>)
    returns (r: Reply)
    modifies db
    ensures (db.tables, r) == RefreshStep(old(db.tables), presented, token, meta, ttl, now, faults)
    ensures db.inFlight == old(db.inFlight)
  {
    if presented == "" {
      return InvalidRefresh;
    }
    if Begin in faults {
      return StoreError;
    }
    var tx := new Tx.Begin(db);
    var settled;
    r, settled := RefreshIn(tx, presented, token, meta, ttl, now, faults);
    if !settled {
      tx.Rollback();
    }
  }

  method LogoutIn(tx: Tx, presented: string, now: int, faults: set<Call>) returns (r: Reply, settled: bool)
    requires presented != "" && Begin !in faults
    requires tx.active && tx.work == tx.db.tables && tx.db.inFlight > 0
    modifies tx, tx.db
    ensures (tx.db.tables, r) == LogoutStep(old(tx.db.tables), presented, now, faults)
    ensures settled == !tx.active && tx.db.inFlight == old(tx.db.inFlight) - if settled then 1 else 0
  {
    if ReadRow in faults {
      return StoreError, false;
    }
    if Digest(presented) !in tx.work.refresh {
      return Done, false;
    }
    var revoked := RevokeFamilyOf(tx, Digest(presented), now, faults);
    if !revoked {
      return StoreError, false;
    }
    var committed := tx.Commit(Commit in faults);
    return if committed then Done else StoreError, committed;
  }

  method Logout(db: Database, presented: string, now: int, faults: set<Call>) returns (r: Reply)
    modifies db
    ensures (db.tables, r) == LogoutStep(old(db.tables), presented, now, faults)
    ensures db.inFlight == old(db.inFlight)
  {
    if presented == "" {
      return Done;
    }
    if Begin in faults {
      return StoreError;
    }
    var tx := new Tx.Begin(db);
    var settled;
    r, settled := LogoutIn(tx, presented, now, faults);
    if !settled {
      tx.Rollback();
    }
  }
}
