/**
 What each operation on sessions, credentials and accounts answers and does, exactly: the
 condition of every answer, and the whole effect on the tables.
 */
module OutcomeLaws {
  import opened Prelude
  import opened Store
  import opened Machine
  import opened RequestLaws
  import AtomicityLaws
  import Passwords
  import Sessions

  // ---------------------------------------------------------------------------
  // Sessions.
  // ---------------------------------------------------------------------------

  /** The row of the presented token is there and can be read. */
  ghost predicate Presented(t: Tables, presented: string, faults: set<Call>) {
    presented != "" && faults !! {Begin, ReadRow} && Digest(presented) in t.refresh
  }

  /** Exactly the live tokens of the family are revoked, at `now`; no other row and no other
      table changes. */
  ghost predicate FamilyOut(t: Tables, t': Tables, family: string, now: int) {
    && t' == t.(refresh := t'.refresh) && t'.refresh.Keys == t.refresh.Keys
    && forall h | h in t.refresh ::
         t'.refresh[h] == if t.refresh[h].family == family && t.refresh[h].revokedAt.None?
                          then t.refresh[h].(revokedAt := Some(now)) else t.refresh[h]
  }

  /** A logout ends the presented token's family and nothing else; an unknown token is answered
      like a closed one, with nothing changed. */
  lemma LogoutOutcome(cfg: Config, t: Tables, e: Event)
    requires e.op.LogOut?
    ensures var (t', reply) := Step(cfg, t, e);
            var h := Digest(e.op.presented);
            var known := Presented(t, e.op.presented, e.faults);
            var ends := known && e.faults !! {RevokeFamily, Commit};
            && (ends ==> FamilyOut(t, t', t.refresh[h].family, e.now))
            && (!ends ==> t' == t)
            && (reply == Done || reply == StoreError)
            && (reply == Done <==> ends || e.op.presented == "" || (e.faults !! {Begin, ReadRow} && h !in t.refresh))
  {
  }

  /** The presented token is spent at `now`, its successor is the one new row, and nothing else
      changes. */
  ghost predicate Exchanged(t: Tables, t': Tables, presented: Digest, token: Digest, ip: string, ttl: int, now: int) {
    && presented in t.refresh && token !in t.refresh
    && t' == t.(refresh := t'.refresh) && t'.refresh.Keys == t.refresh.Keys + {token}
    && t'.refresh[presented] == t.refresh[presented].(revokedAt := Some(now))
    && t'.refresh[token] == t.refresh[presented].(ip := ip, expiresAt := now + ttl, revokedAt := None)
    && forall h | h in t.refresh && h != presented :: t'.refresh[h] == t.refresh[h]
  }

  /** A refresh exchanges a live, unexpired token; a revoked one ends its family, expired or not;
      every other presentation changes nothing. */
  lemma RefreshOutcome(cfg: Config, t: Tables, e: Event)
    requires e.op.Refreshing?
    ensures var (t', reply) := Step(cfg, t, e);
            var h := Digest(e.op.presented);
            var known := Presented(t, e.op.presented, e.faults);
            var reused := known && t.refresh[h].revokedAt.Some?;
            var expired := known && t.refresh[h].revokedAt.None? && t.refresh[h].expiresAt <= e.now;
            var exchanges := && known && !reused && !expired && e.faults !! {Revoke, Entropy, Insert, Commit}
                             && Digest(e.op.token) !in t.refresh;
            && (exchanges ==>
                  Exchanged(t, t', h, Digest(e.op.token), e.op.meta.ip, cfg.ttl, e.now))
            && (reused && e.faults !! {RevokeFamily, Commit} ==> FamilyOut(t, t', t.refresh[h].family, e.now))
            && (!exchanges && !(reused && e.faults !! {RevokeFamily, Commit}) ==> t' == t)
            && (reply == RefreshReused <==> reused && e.faults !! {RevokeFamily, Commit})
            && (reply == InvalidRefresh <==>
                  e.op.presented == "" || (e.faults !! {Begin, ReadRow} && h !in t.refresh) || expired)
            && (reply.Session? <==> exchanges && Sign !in e.faults)
            && (reply.Session? ==> reply == Session(e.op.token))
            && (reply == RefreshReused || reply == InvalidRefresh || reply.Session? || reply == StoreError)
  {
  }

  /** One new live token of a new family, and nothing else. */
  ghost predicate Opened(t: Tables, t': Tables, user: UserId, token: string, family: string, meta: Sessions.Meta,
                         ttl: int, now: int)
  {
    && Digest(token) !in t.refresh
    && t' == t.(refresh := t'.refresh) && t'.refresh.Keys == t.refresh.Keys + {Digest(token)}
    && t'.refresh[Digest(token)] == Refresh(user, family, meta.device, meta.ip, now + ttl, None)
    && forall h | h in t.refresh :: t'.refresh[h] == t.refresh[h]
  }

  /** A session can be opened for the user with this token. */
  ghost predicate Openable(t: Tables, user: UserId, token: string, faults: set<Call>) {
    user != "" && user in t.users && Digest(token) !in t.refresh && faults !! {Entropy, Insert}
  }

  lemma OpenOutcome(cfg: Config, t: Tables, e: Event)
    requires e.op.Open?
    ensures var (t', reply) := Step(cfg, t, e);
            var opens := Openable(t, e.op.user, e.op.token, e.faults);
            && (opens ==> Opened(t, t', e.op.user, e.op.token, e.op.family, e.op.meta, cfg.ttl, e.now))
            && (!opens ==> t' == t)
            && (reply == MissingSubject <==> e.op.user == "")
            && (reply.Session? <==> opens && Sign !in e.faults)
            && (reply == MissingSubject || reply == StoreError || reply == Session(e.op.token))
  {
  }

  // ---------------------------------------------------------------------------
  // Logging in.
  // ---------------------------------------------------------------------------

  ghost predicate LockedNow(u: User, now: int) {
    u.lockedUntil.Some? && now < u.lockedUntil.value
  }

  /** The row with one more counted failure, locked from the configured limit on. */
  ghost function OneMoreFailure(cfg: Config, u: User, now: int): User {
    u.(failed := u.failed + 1,
       lockedUntil := if u.failed + 1 >= Configured(cfg.lockout.maxAttempts, 5)
                      then Some(now + Configured(cfg.lockout.lockDuration, 900_000_000_000)) else u.lockedUntil)
  }

  /** Which answer a login gives. A session is answered iff the address has an active, unlocked
      owner, the password is his, the token is fresh, and no call fails. */
  lemma LoginAnswers(cfg: Config, t: Tables, e: Event)
    requires e.op.LogIn?
    ensures var reply := Step(cfg, t, e).1;
            var o := Owner(t.users, e.op.email);
            var found := ReadUser !in e.faults && o.Some?;
            var able := found && !LockedNow(t.users[o.value], e.now) && t.users[o.value].active;
            var wrong := able && RecordFailure !in e.faults && !Knows(t.users[o.value], e.op.plain);
            var locks := wrong && t.users[o.value].failed + 1 >= Configured(cfg.lockout.maxAttempts, 5);
            && (reply.Session? <==>
                  && able && Knows(t.users[o.value], e.op.plain) && ResetFailures !in e.faults
                  && Openable(t, o.value, e.op.token, e.faults) && Sign !in e.faults)
            && (reply.Session? ==> reply == Session(e.op.token))
            && (reply.Locked? <==> (found && LockedNow(t.users[o.value], e.now)) || locks)
            && (found && LockedNow(t.users[o.value], e.now) ==>
                  reply == Locked(t.users[o.value].lockedUntil.value - e.now))
            && (locks ==> reply == Locked(Configured(cfg.lockout.lockDuration, 900_000_000_000)))
            && (reply == InvalidCredentials <==>
                  || (ReadUser !in e.faults && o.None?)
                  || (found && !LockedNow(t.users[o.value], e.now) && !t.users[o.value].active)
                  || (wrong && !locks))
            && (reply.Session? || reply.Locked? || reply == InvalidCredentials || reply == StoreError
              || reply == MissingSubject)
  {
    var o := Owner(t.users, e.op.email);
    LockoutInFields(cfg.lockout);
    if o.Some? {
      VerifiesIff(t.users[o.value], e.op.plain);
    }
  }

  /** What a login does: the right password clears the counter and the lock and opens a session,
      a wrong one is counted, and everything else changes nothing. */
  lemma LoginDoes(cfg: Config, t: Tables, e: Event)
    requires e.op.LogIn?
    ensures var t' := Step(cfg, t, e).0;
            var o := Owner(t.users, e.op.email);
            var able := && ReadUser !in e.faults && o.Some?
                        && !LockedNow(t.users[o.value], e.now) && t.users[o.value].active;
            var clears := able && Knows(t.users[o.value], e.op.plain) && ResetFailures !in e.faults;
            var counts := able && !Knows(t.users[o.value], e.op.plain) && RecordFailure !in e.faults;
            && (clears ==>
                  var cleared := t.(users := t.users[o.value := t.users[o.value].(failed := 0, lockedUntil := None)]);
                  if Openable(t, o.value, e.op.token, e.faults)
                  then Opened(cleared, t', o.value, e.op.token, e.op.family, e.op.meta, cfg.ttl, e.now)
                  else t' == cleared)
            && (counts ==> t' == t.(users := t.users[o.value := OneMoreFailure(cfg, t.users[o.value], e.now)]))
            && (!clears && !counts ==> t' == t)
  {
    var o := Owner(t.users, e.op.email);
    LockoutInFields(cfg.lockout);
    if o.Some? {
      VerifiesIff(t.users[o.value], e.op.plain);
    }
  }

  // ---------------------------------------------------------------------------
  // Spending a code.
  // ---------------------------------------------------------------------------

  /** The answers of an operation that spends a code found by `found`, for one that is compared
      with `hash`. */
  ghost predicate SpendAnswers(reply: Reply, found: Option<Code>, matches: bool, e: Event) {
    var readable := e.faults !! {Begin, ReadRow};
    var alive := readable && found.Some? && e.now < found.value.expiresAt;
    && (reply == TooManyAttempts <==> alive && found.value.attempts >= 5)
    && (reply == InvalidCode <==>
          || (readable && found.None?)
          || (readable && found.Some? && found.value.expiresAt <= e.now)
          || (alive && found.value.attempts < 5 && !matches && e.faults !! {RecordAttempt, Commit}))
  }

  /** With `ResetIsAllOrNothing`: every answer of a reset. */
  lemma ResetAnswers(cfg: Config, t: Tables, e: Event)
    requires e.op.Reset?
    ensures var reply := Step(cfg, t, e).1;
            var i := Passwords.ResetCode(t, e.op.email);
            var found := if i.Some? then Some(t.codes[i.value]) else None;
            && SpendAnswers(reply, found, found.Some? && found.value.hash == Digest(e.op.code), e)
            && (reply == Done || reply == TooManyAttempts || reply == InvalidCode || reply == StoreError)
  {
  }

  /** With `VerifyChangeIsAllOrNothing`: every answer of an address change. */
  lemma VerifyChangeAnswers(cfg: Config, t: Tables, e: Event)
    requires e.op.VerifyChange?
    ensures var reply := Step(cfg, t, e).1;
            var i := NewestUnused(t.codes, e.op.user, EMAIL_CHANGE);
            var found := if i.Some? then Some(t.codes[i.value]) else None;
            && SpendAnswers(reply, found, found.Some? && found.value.hash == Digest(e.op.code), e)
            && (reply == Done || reply == TooManyAttempts || reply == InvalidCode || reply == EmailTaken
              || reply == StoreError)
  {
  }

  /** With `ChangeIsAllOrNothing`: a password change is refused iff the user is live and does not
      give his password. */
  lemma ChangeAnswers(cfg: Config, t: Tables, e: Event)
    requires e.op.ChangePassword?
    ensures var reply := Step(cfg, t, e).1;
            && (reply == InvalidPassword <==>
                  ReadHash !in e.faults && IsLive(t, e.op.user) && !Knows(t.users[e.op.user], e.op.current))
            && (reply == Done || reply == InvalidPassword || reply == StoreError)
  {
    if IsLive(t, e.op.user) {
      VerifiesIff(t.users[e.op.user], e.op.current);
    }
  }

  // ---------------------------------------------------------------------------
  // Signing up.
  // ---------------------------------------------------------------------------

  /** The pending row an issuing request leaves: its password, its code, no attempts, and ten
      minutes to live. */
  ghost function Requested(e: Event): Pending
    requires e.op.AskSignup? && e.op.draw.Some?
  {
    Pending(e.op.newPassword, Digest(e.op.draw.value), 0, e.now + 600_000_000_000)
  }

  /** A signup request replaces the pending row of the address as a whole, or changes nothing. */
  lemma AskSignupOutcome(cfg: Config, t: Tables, e: Event)
    requires e.op.AskSignup?
    ensures var (t', reply) := Step(cfg, t, e);
            var issues := AtomicityLaws.Issues(t, e, e.op.email);
            && (issues ==> t' == t.(signups := t.signups[e.op.email := Requested(e)]))
            && (!issues ==> t' == t)
            && (reply == Done || reply == StoreError)
            && (reply == Done <==>
                  Publish !in e.faults && ReadUser !in e.faults && (issues || Owner(t.users, e.op.email).Some?))
  {
  }

  /** The last request that issued a code for the address. */
  ghost function LastIssue(cfg: Config, t: Tables, es: seq<Event>, email: string): (e: Option<Event>)
    ensures e.Some? ==> e.value.op.AskSignup? && e.value.op.draw.Some? && e.value.op.email == email
  {
    if es == [] then None
    else if AtomicityLaws.Issues(Run(cfg, t, es[..|es| - 1]), es[|es| - 1], email) then Some(es[|es| - 1])
    else LastIssue(cfg, t, es[..|es| - 1], email)
  }

  /** But for the attempts, a pending row stays as the last issuing request left it. */
  lemma PendingKept(cfg: Config, t: Tables, e: Event, email: string)
    requires !AtomicityLaws.Issues(t, e, email) && email in Step(cfg, t, e).0.signups
    ensures email in t.signups
    ensures Step(cfg, t, e).0.signups[email] == t.signups[email].(attempts := Step(cfg, t, e).0.signups[email].attempts)
  {
    if e.op.VerifySignup? {
      AtomicityLaws.SignupIsAllOrNothing(cfg, t, e);
    }
  }

  lemma IssuedRow(cfg: Config, t: Tables, e: Event, email: string)
    requires AtomicityLaws.Issues(t, e, email)
    ensures email in Step(cfg, t, e).0.signups && Step(cfg, t, e).0.signups[email] == Requested(e)
  {
    AskSignupOutcome(cfg, t, e);
  }

  /** Over every run a pending row carries the password and the code of the last request that
      issued for its address, and expires ten minutes after it. */
  lemma {:induction false} PendingIsLastRequest(cfg: Config, t: Tables, es: seq<Event>, email: string)
    requires t.signups == map[] && email in Run(cfg, t, es).signups
    ensures var (p, last) := (Run(cfg, t, es).signups[email], LastIssue(cfg, t, es, email));
            last.Some? && p == Requested(last.value).(attempts := p.attempts)
  {
    var before, last := es[..|es| - 1], es[|es| - 1];
    var mid := Run(cfg, t, before);
    if AtomicityLaws.Issues(mid, last, email) {
      IssuedRow(cfg, mid, last, email);
    } else {
      PendingKept(cfg, mid, last, email);
      PendingIsLastRequest(cfg, t, before, email);
    }
  }

  /** The verification gets as far as registering the account. */
  ghost predicate Registers(t: Tables, e: Event)
    requires e.op.VerifySignup?
  {
    && e.faults !! {Begin, ReadRow, Promote, Discard, Commit} && e.op.email in t.signups
    && e.now < t.signups[e.op.email].expiresAt && t.signups[e.op.email].attempts < 5
    && t.signups[e.op.email].hash == Digest(e.op.code)
    && e.op.id !in t.users && Owner(t.users, e.op.email).None?
  }

  /** Every answer of a signup verification, and the account it registers. */
  lemma VerifySignupOutcome(cfg: Config, t: Tables, e: Event)
    requires e.op.VerifySignup?
    ensures var (t', reply) := Step(cfg, t, e);
            var readable := e.faults !! {Begin, ReadRow};
            var p := t.signups;
            var alive := readable && e.op.email in p && e.now < p[e.op.email].expiresAt;
            && (reply == TooManyAttempts <==> alive && p[e.op.email].attempts >= 5)
            && (reply == InvalidCode <==>
                  || (readable && e.op.email !in p)
                  || (readable && e.op.email in p && p[e.op.email].expiresAt <= e.now)
                  || (alive && p[e.op.email].attempts < 5 && p[e.op.email].hash != Digest(e.op.code)
                      && e.faults !! {RecordAttempt, Commit}))
            && (reply.Session? <==>
                  && Registers(t, e) && e.op.id != "" && Digest(e.op.token) !in t.refresh
                  && e.faults !! {Entropy, Insert, Sign})
            && (Registers(t, e) <==> e.op.id in t'.users && e.op.id !in t.users)
            && (Registers(t, e) ==>
                  var account := User(Some(e.op.email), Some(p[e.op.email].password), true, 0, None, false);
                  t'.users == t.users[e.op.id := account])
  {
  }

  /** Over every run the account a verification registers has the password of the last request
      that issued for its address, and the code was that request's. */
  lemma RegisteredAsRequested(cfg: Config, t: Tables, es: seq<Event>, e: Event)
    requires t.signups == map[] && e.op.VerifySignup? && Registers(Run(cfg, t, es), e)
    ensures var (after, last) := (Step(cfg, Run(cfg, t, es), e).0, LastIssue(cfg, t, es, e.op.email));
            && last.Some? && last.value.op.draw == Some(e.op.code) && e.now < last.value.now + 600_000_000_000
            && e.op.id in after.users && after.users[e.op.id].password == Some(last.value.op.newPassword)
  {
    PendingIsLastRequest(cfg, t, es, e.op.email);
    VerifySignupOutcome(cfg, Run(cfg, t, es), e);
  }

  // ---------------------------------------------------------------------------
  // Accounts.
  // ---------------------------------------------------------------------------

  /** A first social login adds one account without a password; it gets the provider's verified
      address unless a live account has it. */
  lemma JoinOutcome(cfg: Config, t: Tables, e: Event)
    requires e.op.Join?
    ensures var (t', reply) := Step(cfg, t, e);
            var adds := e.op.id !in t.users && e.faults !! {Begin, Promote, Insert, Commit};
            var taken := e.op.verified.Some? && Owner(t.users, e.op.verified.value).Some?;
            && reply == (if adds then Done else StoreError)
            && (!adds ==> t' == t)
            && (adds ==> t' == t.(users := t'.users) && t'.users.Keys == t.users.Keys + {e.op.id}
                         && (forall u | u in t.users :: t'.users[u] == t.users[u])
                         && t'.users[e.op.id] == User(if taken then None
                           else e.op.verified, None, true, 0, None, false))
  {
  }

  /** An administrator's edit moves the status of one live account, and only if one is given. */
  lemma AdministerOutcome(cfg: Config, t: Tables, e: Event)
    requires e.op.Administer?
    ensures var (t', reply) := Step(cfg, t, e);
            var edits := UpdateUser !in e.faults && IsLive(t, e.op.user);
            && (reply == NotFound <==> UpdateUser !in e.faults && !IsLive(t, e.op.user))
            && (reply == Done <==> edits && ReadUser !in e.faults)
            && (!edits || e.op.active.None? ==> t' == t)
            && (edits && e.op.active.Some? ==>
                  t' == t.(users := t.users[e.op.user := t.users[e.op.user].(active := e.op.active.value)]))
  {
    if IsLive(t, e.op.user) {
      assert t.users[e.op.user := t.users[e.op.user]] == t.users;
    }
  }
}
