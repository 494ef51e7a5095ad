/**
 When a code is asked for: the exact condition under which one is stored, what is stored, and
 what every refusal means, in terms of the rows, the draws and the configured numbers.
 */
module RequestLaws {
  import opened Prelude
  import opened Store
  import opened Machine
  import CodeLaws
  import EmailChange
  import Login
  import Passwords
  import Quota

  // ---------------------------------------------------------------------------
  // The configured numbers.
  // ---------------------------------------------------------------------------

  /** A field counts when it is positive; otherwise the default does. */
  function Configured(field: int, default: int): int {
    if field > 0 then field else default
  }

  /** The check in the fields themselves: 60 seconds, 24 hours and 5 codes unless configured. */
  lemma CheckInFields(q: Quota.Quota, now: int, lastAt: Option<int>, inWindow: nat)
    ensures var cooldown := Configured(q.cooldown, 60_000_000_000);
            var window := Configured(q.window, 86_400_000_000_000);
            var waits := lastAt.Some? && now - lastAt.value < cooldown;
            && (q.Check(now, lastAt, inWindow).Pass? <==> !waits && inWindow < Configured(q.limit, 5))
            && (waits ==> q.Check(now, lastAt, inWindow) == Fail(cooldown - (now - lastAt.value)))
            && (!waits && inWindow >= Configured(q.limit, 5) ==> q.Check(now, lastAt, inWindow) == Fail(window))
    ensures q.Cooldown() == Configured(q.cooldown, 60_000_000_000)
    ensures q.Window() == Configured(q.window, 86_400_000_000_000)
    ensures q.Limit() == Configured(q.limit, 5)
  {
  }

  /** The lockout in its fields: 5 attempts and 15 minutes unless configured. */
  lemma LockoutInFields(l: Login.Lockout)
    ensures l.Max() == Configured(l.maxAttempts, 5) && l.Duration() == Configured(l.lockDuration, 900_000_000_000)
  {
  }

  /** The two bounds for a configured quota: over every run a window holds at most `limit` codes
      of a user, consecutive ones are `cooldown` apart, and a window less ten minutes holds at
      most five counted wrong guesses for each of `limit` codes. */
  lemma ConfiguredBounds(cfg: Config, t: Tables, es: seq<Event>, user: UserId, purpose: Purpose, from: int, to: int)
    requires t.codes == []
    ensures var q := if purpose == PASSWORD_RESET then cfg.resetQuota else cfg.changeQuota;
            var codes := Run(cfg, t, es).codes;
            var window := Configured(q.window, 86_400_000_000_000);
            && (to - from <= window ==>
                  CodeLaws.CountIn(codes, user, purpose, from, to) <= Configured(q.limit, 5))
            && (forall i, j | 0 <= i < j < |codes| &&
                                 IsFor(codes[i], user, purpose) && IsFor(codes[j], user, purpose) ::
                  codes[j].createdAt - codes[i].createdAt >= Configured(q.cooldown, 60_000_000_000))
            && (to - from <= window - 600_000_000_000 && Nondecreasing(es) ==>
                  CodeLaws.GuessesIn(CodeLaws.Guesses(cfg, t, es), codes, user, purpose, from, to) <=
                  Configured(q.limit, 5) * 5)
  {
    var q := CodeLaws.QuotaFor(cfg, purpose);
    CheckInFields(q, 0, None, 0);
    CodeLaws.CreationsAreLimited(cfg, t, es, user, purpose, from, from);
    if to - from <= q.Window() {
      CodeLaws.CreationsAreLimited(cfg, t, es, user, purpose, from, to);
    }
    if to - from <= q.Window() - 600_000_000_000 && Nondecreasing(es) {
      CodeLaws.GuessesAreLimited(cfg, t, es, user, purpose, from, to);
    }
  }

  /** As the service configures address changes, with a limit of one and the other defaults: one
      code a day, and five counted guesses in any 23 hours and 50 minutes. */
  lemma AddressChangesAreRare(cfg: Config, t: Tables, es: seq<Event>, user: UserId, from: int, to: int)
    requires t.codes == [] && Nondecreasing(es) && cfg.changeQuota == Quota.Quota(0, 0, 1)
    ensures to - from <= 24 * 60 * MINUTE ==>
              CodeLaws.CountIn(Run(cfg, t, es).codes, user, EMAIL_CHANGE, from, to) <= 1
    ensures to - from <= (24 * 60 - 10) * MINUTE ==>
              CodeLaws.GuessesIn(CodeLaws.Guesses(cfg, t, es), Run(cfg, t, es).codes, user, EMAIL_CHANGE, from, to) <= 5
  {
    CheckInFields(cfg.changeQuota, 0, None, 0);
    if to - from <= 24 * 60 * MINUTE {
      CodeLaws.CreationsAreLimited(cfg, t, es, user, EMAIL_CHANGE, from, to);
    }
    if to - from <= (24 * 60 - 10) * MINUTE {
      CodeLaws.GuessesAreLimited(cfg, t, es, user, EMAIL_CHANGE, from, to);
    }
  }

  // ---------------------------------------------------------------------------
  // Admission, read off the rows.
  // ---------------------------------------------------------------------------

  /** The user's codes of the purpose created at or after an instant. */
  ghost function Recent(codes: seq<Code>, user: UserId, purpose: Purpose, since: int): set<nat> {
    set i: nat | i < |codes| && IsFor(codes[i], user, purpose) && codes[i].createdAt >= since
  }

  lemma RecentSnoc(before: seq<Code>, c: Code, user: UserId, purpose: Purpose, since: int)
    ensures var own := IsFor(c, user, purpose) && c.createdAt >= since;
            Recent(before + [c], user, purpose, since) ==
            Recent(before, user, purpose, since) + if own then {|before|} else {}
  {
    forall i: nat
      ensures i in Recent(before + [c], user, purpose, since) <==>
              i in Recent(before, user, purpose, since)
                || (i == |before| && IsFor(c, user, purpose) && c.createdAt >= since)
    {
    }
  }

  lemma {:induction false} CountIsCardinality(codes: seq<Code>, user: UserId, purpose: Purpose, since: int)
    ensures CountSince(codes, user, purpose, since) == |Recent(codes, user, purpose, since)|
  {
    if codes != [] {
      var before, last := codes[..|codes| - 1], codes[|codes| - 1];
      CountIsCardinality(before, user, purpose, since);
      RecentSnoc(before, last, user, purpose, since);
      assert codes == before + [last];
      assert |before| !in Recent(before, user, purpose, since);
    }
  }

  /** The last creation is the newest one there is. */
  lemma {:induction false} LastIsNewest(codes: seq<Code>, user: UserId, purpose: Purpose)
    ensures var last := LastCreated(codes, user, purpose);
            && (last.Some? ==> exists i | 0 <= i < |codes| ::
              IsFor(codes[i], user, purpose) && codes[i].createdAt == last.value)
            && (forall i | 0 <= i < |codes| && IsFor(codes[i], user, purpose) ::
                  last.Some? && codes[i].createdAt <= last.value)
  {
    if codes != [] {
      var before, n := codes[..|codes| - 1], |codes| - 1;
      LastIsNewest(before, user, purpose);
      var last := LastCreated(before, user, purpose);
      if last.Some? {
        var i :| 0 <= i < |before| && IsFor(before[i], user, purpose) && before[i].createdAt == last.value;
        assert IsFor(codes[i], user, purpose);
      }
      forall i | 0 <= i < |codes| && IsFor(codes[i], user, purpose)
        ensures LastCreated(codes, user, purpose).Some? && codes[i].createdAt <= LastCreated(codes, user, purpose).value
      {
        if i < n {
          assert IsFor(before[i], user, purpose);
        }
      }
    }
  }

  /** No code of the user is younger than the cooldown, and the window holds fewer than the
      limit. */
  ghost predicate Admits(q: Quota.Quota, codes: seq<Code>, user: UserId, purpose: Purpose, now: int) {
    && (forall i | 0 <= i < |codes| && IsFor(codes[i], user, purpose) ::
          now - codes[i].createdAt >= Configured(q.cooldown, 60_000_000_000))
    && |Recent(codes, user, purpose, now - Configured(q.window, 86_400_000_000_000))| < Configured(q.limit, 5)
  }

  lemma AdmitsIff(q: Quota.Quota, codes: seq<Code>, user: UserId, purpose: Purpose, now: int)
    ensures q.Check(now, LastCreated(codes, user, purpose),
              CountSince(codes, user, purpose, now - q.Window())).Pass? <==>
            Admits(q, codes, user, purpose, now)
  {
    CheckInFields(q, now, LastCreated(codes, user, purpose), CountSince(codes, user, purpose, now - q.Window()));
    CountIsCardinality(codes, user, purpose, now - q.Window());
    LastIsNewest(codes, user, purpose);
  }

  // ---------------------------------------------------------------------------
  // The code loop.
  // ---------------------------------------------------------------------------

  /** Draw `k` is the first that is free, and nothing fails up to it. */
  ghost predicate FirstFree(codes: seq<Code>, draws: Passwords.Draws, faults: set<Call>, i: nat, k: nat) {
    && i <= k < 3
    && (forall j | i <= j <= k :: draws[j].Some? && StoreCode(j) !in faults)
    && (forall j | i <= j < k :: Collides(codes, Digest(draws[j].value)))
    && !Collides(codes, Digest(draws[k].value))
  }

  ghost predicate SomeFree(codes: seq<Code>, draws: Passwords.Draws, faults: set<Call>) {
    exists k: nat :: FirstFree(codes, draws, faults, 0, k)
  }

  lemma OneFirstFree(codes: seq<Code>, draws: Passwords.Draws, faults: set<Call>, a: nat, b: nat)
    requires FirstFree(codes, draws, faults, 0, a) && FirstFree(codes, draws, faults, 0, b)
    ensures a == b
  {
  }

  /** The new row: unused, no attempts, good for ten minutes. */
  function Fresh(user: UserId, purpose: Purpose, target: string, code: string, now: int): Code {
    Code(user, purpose, Digest(code), target, 0, now, now + 600_000_000_000, None)
  }

  lemma {:induction false} ResetLoop(codes: seq<Code>, user: UserId, email: string, draws: Passwords.Draws, i: nat,
                                     now: int, faults: set<Call>) returns (k: nat)
    ensures var r := Passwords.CreateReset(codes, user, email, draws, i, now, faults);
            if r.Ok? then
              && FirstFree(codes, draws, faults, i, k)
              && r.value == codes + [Fresh(user, PASSWORD_RESET, email, draws[k].value, now)]
            else
              r == Err(StoreError) && forall m: nat :: !FirstFree(codes, draws, faults, i, m)
    decreases Passwords.MAX_CODE_TRIES - i
  {
    k := i;
    if i < Passwords.MAX_CODE_TRIES && draws[i].Some? && StoreCode(i) !in faults
       && Collides(codes, Digest(draws[i].value)) {
      k := ResetLoop(codes, user, email, draws, i + 1, now, faults);
      LaterFirstFree(codes, draws, faults, i);
    }
  }

  lemma LaterFirstFree(codes: seq<Code>, draws: Passwords.Draws, faults: set<Call>, i: nat)
    requires i < 3 && draws[i].Some? && StoreCode(i) !in faults && Collides(codes, Digest(draws[i].value))
    ensures forall k: nat :: FirstFree(codes, draws, faults, i, k) <==> FirstFree(codes, draws, faults, i + 1, k)
  {
  }

  lemma {:induction false} ChangeLoop(codes: seq<Code>, user: UserId, target: string, draws: Passwords.Draws, i: nat,
                                      now: int, faults: set<Call>) returns (k: nat)
    ensures var r := EmailChange.CreateChange(codes, user, target, draws, i, now, faults);
            if r.Ok? then
              && FirstFree(codes, draws, faults, i, k) && faults !! {Begin, Invalidate, Commit}
              && r.value == Invalidated(codes, user, EMAIL_CHANGE, now)
                + [Fresh(user, EMAIL_CHANGE, target, draws[k].value, now)]
            else
              && r == Err(StoreError)
              && (faults !! {Begin, Invalidate, Commit} ==> forall m: nat :: !FirstFree(codes, draws, faults, i, m))
    decreases Passwords.MAX_CODE_TRIES - i
  {
    k := i;
    if i < Passwords.MAX_CODE_TRIES && draws[i].Some? && StoreCode(i) !in faults
       && Collides(codes, Digest(draws[i].value)) && Begin !in faults && Invalidate !in faults {
      k := ChangeLoop(codes, user, target, draws, i + 1, now, faults);
      LaterFirstFree(codes, draws, faults, i);
    }
  }

  // ---------------------------------------------------------------------------
  // Asking for a recovery code.
  // ---------------------------------------------------------------------------

  /** The address has an account, the quota admits it, a free code is drawn, nothing fails. */
  ghost predicate StoresReset(cfg: Config, t: Tables, e: Event)
    requires e.op.AskReset?
  {
    && e.faults !! {ReadUser, ReadLast, ReadCount} && Owner(t.users, e.op.email).Some?
    && Admits(cfg.resetQuota, t.codes, Owner(t.users, e.op.email).value, PASSWORD_RESET, e.now)
    && SomeFree(t.codes, e.op.draws, e.faults)
  }

  /** A code is stored exactly then; it is the first free draw, sent to the address asked for.
      A request that stores none changes nothing. */
  lemma AskResetOutcome(cfg: Config, t: Tables, e: Event)
    requires e.op.AskReset?
    ensures var (t', reply) := Step(cfg, t, e);
            && (StoresReset(cfg, t, e) ==>
                  && t' == t.(codes := t'.codes)
                  && (reply == if Publish in e.faults then StoreError else Done)
                  && exists k: nat | FirstFree(t.codes, e.op.draws, e.faults, 0, k) ::
                       t'.codes == t.codes + [Fresh(Owner(t.users, e.op.email).value, PASSWORD_RESET, e.op.email,
                                                    e.op.draws[k].value, e.now)])
            && (!StoresReset(cfg, t, e) ==> t' == t)
            && (reply == Done || reply == StoreError)
            && (reply == Done <==>
                  && ReadUser !in e.faults
                  && (Owner(t.users, e.op.email).Some? ==>
                        && e.faults !! {ReadLast, ReadCount}
                        && (Admits(cfg.resetQuota, t.codes, Owner(t.users, e.op.email).value, PASSWORD_RESET, e.now) ==>
                              SomeFree(t.codes, e.op.draws, e.faults) && Publish !in e.faults)))
  {
    var o := Owner(t.users, e.op.email);
    if o.Some? {
      AdmitsIff(cfg.resetQuota, t.codes, o.value, PASSWORD_RESET, e.now);
      var k := ResetLoop(t.codes, o.value, e.op.email, e.op.draws, 0, e.now, e.faults);
    }
  }

  // ---------------------------------------------------------------------------
  // Asking for an address change.
  // ---------------------------------------------------------------------------

  /** The user's row holds a readable hash of this password. */
  ghost predicate Knows(u: User, plain: string) {
    exists salt :: u.password == Some(Hashed(plain, salt))
  }

  lemma VerifiesIff(u: User, plain: string)
    ensures Verifies(u.password, plain) <==> Knows(u, plain)
  {
    if Verifies(u.password, plain) {
      assert u.password == Some(Hashed(plain, u.password.value.salt));
    }
  }

  ghost predicate IsLive(t: Tables, user: UserId) {
    user in t.users && !t.users[user].deleted
  }

  /** The target is the address the user has, or none for a user without one. */
  ghost predicate SameAddress(u: User, target: string) {
    u.email == Some(target) || (u.email.None? && target == "")
  }

  /** The request gets past the account and its address. */
  ghost predicate Addressable(t: Tables, e: Event)
    requires e.op.AskChange?
  {
    && ReadUser !in e.faults && IsLive(t, e.op.user)
    && !SameAddress(t.users[e.op.user], e.op.target)
  }

  /** And past the search for another owner of the target. */
  ghost predicate Claimable(t: Tables, e: Event)
    requires e.op.AskChange?
  {
    Addressable(t, e) && ReadAddress !in e.faults && Owner(t.users, e.op.target).None?
  }

  /** And past the password. */
  ghost predicate Authorised(t: Tables, e: Event)
    requires e.op.AskChange?
  {
    Claimable(t, e) && ReadHash !in e.faults && Knows(t.users[e.op.user], e.op.current)
  }

  ghost predicate StoresChange(cfg: Config, t: Tables, e: Event)
    requires e.op.AskChange?
  {
    && Authorised(t, e) && e.faults !! {ReadLast, ReadCount, Begin, Invalidate, Commit}
    && Admits(cfg.changeQuota, t.codes, e.op.user, EMAIL_CHANGE, e.now)
    && SomeFree(t.codes, e.op.draws, e.faults)
  }

  /** The user's unused change codes are used up, and the first free draw is stored. */
  ghost predicate ChangeStored(t: Tables, t': Tables, e: Event)
    requires e.op.AskChange?
  {
    && t' == t.(codes := t'.codes) && |t'.codes| == |t.codes| + 1
    && (forall i | 0 <= i < |t.codes| ::
          t'.codes[i] == if IsFor(t.codes[i], e.op.user, EMAIL_CHANGE) && t.codes[i].usedAt.None?
                         then t.codes[i].(usedAt := Some(e.now)) else t.codes[i])
    && exists k: nat | FirstFree(t.codes, e.op.draws, e.faults, 0, k) ::
         t'.codes[|t.codes|] == Fresh(e.op.user, EMAIL_CHANGE, e.op.target, e.op.draws[k].value, e.now)
  }

  /** The flow stores what its code loop yields, or changes nothing. */
  lemma EffectOfChange(t: Tables, user: UserId, target: string, current: string, draws: Passwords.Draws,
                       quota: Quota.Quota, now: int, faults: set<Call>)
    ensures var (t', reply) := EmailChange.RequestChangeStep(t, user, target, current, draws, quota, now, faults);
            var r := EmailChange.CreateChange(t.codes, user, target, draws, 0, now, faults);
            var check := quota.Check(now, LastCreated(t.codes, user, EMAIL_CHANGE),
                                     CountSince(t.codes, user, EMAIL_CHANGE, now - quota.Window()));
            var stores := && faults !! {ReadUser, ReadAddress, ReadHash, ReadLast, ReadCount} && Live(t.users, user)
                          && !SameAddress(t.users[user], target) && Owner(t.users, target).None?
                          && Verifies(t.users[user].password, current) && check.Pass? && r.Ok?;
            && (stores ==> t' == t.(codes := r.value) && reply == if Publish in faults then StoreError else Done)
            && (!stores ==> t' == t && reply != Done)
  {
    LoopErrors(t.codes, user, target, draws, 0, now, faults);
  }

  lemma StoredPointwise(t: Tables, e: Event, k: nat)
    requires e.op.AskChange? && FirstFree(t.codes, e.op.draws, e.faults, 0, k)
    ensures var row := Fresh(e.op.user, EMAIL_CHANGE, e.op.target, e.op.draws[k].value, e.now);
            ChangeStored(t, t.(codes := Invalidated(t.codes, e.op.user, EMAIL_CHANGE, e.now) + [row]), e)
  {
  }

  lemma ChangeFlowStores(cfg: Config, t: Tables, e: Event)
    requires e.op.AskChange?
    ensures var (t', reply) := EmailChange.RequestChangeStep(t, e.op.user, e.op.target, e.op.current, e.op.draws,
                                                             cfg.changeQuota, e.now, e.faults);
            && (StoresChange(cfg, t, e) ==>
                  ChangeStored(t, t', e) && reply == if Publish in e.faults then StoreError else Done)
            && (!StoresChange(cfg, t, e) ==> t' == t && reply != Done)
  {
    var op, quota := e.op, cfg.changeQuota;
    if IsLive(t, op.user) {
      VerifiesIff(t.users[op.user], op.current);
    }
    AdmitsIff(quota, t.codes, op.user, EMAIL_CHANGE, e.now);
    EffectOfChange(t, op.user, op.target, op.current, op.draws, quota, e.now, e.faults);
    var k := ChangeLoop(t.codes, op.user, op.target, op.draws, 0, e.now, e.faults);
    if StoresChange(cfg, t, e) {
      StoredPointwise(t, e, k);
    }
  }

  /** A change code is stored iff the user is live, gives his password, asks for an address that
      is neither his nor any live account's, is admitted, draws a free code, and no call fails. */
  lemma AskChangeStores(cfg: Config, t: Tables, e: Event)
    requires e.op.AskChange?
    ensures var (t', reply) := Step(cfg, t, e);
            && (StoresChange(cfg, t, e) ==>
                  ChangeStored(t, t', e) && reply == if Publish in e.faults then StoreError else Done)
            && (!StoresChange(cfg, t, e) ==> t' == t && reply != Done)
  {
    ChangeFlowStores(cfg, t, e);
  }

  lemma {:induction false} LoopErrors(codes: seq<Code>, user: UserId, target: string, draws: Passwords.Draws, i: nat,
                                      now: int, faults: set<Call>)
    ensures var r := EmailChange.CreateChange(codes, user, target, draws, i, now, faults);
            r.Ok? || r == Err(StoreError)
    decreases Passwords.MAX_CODE_TRIES - i
  {
    if i < Passwords.MAX_CODE_TRIES {
      LoopErrors(codes, user, target, draws, i + 1, now, faults);
    }
  }

  /** What each refusal means. */
  lemma AskChangeRefuses(cfg: Config, t: Tables, e: Event)
    requires e.op.AskChange?
    ensures var reply := Step(cfg, t, e).1;
            && (reply == SameEmail <==>
                  ReadUser !in e.faults && IsLive(t, e.op.user) && SameAddress(t.users[e.op.user], e.op.target))
            && (reply == EmailTaken <==>
                  Addressable(t, e) && ReadAddress !in e.faults && Owner(t.users, e.op.target).Some?)
            && (reply == InvalidPassword <==>
                  || (ReadUser !in e.faults && !IsLive(t, e.op.user))
                  || (Claimable(t, e) && ReadHash !in e.faults && !Knows(t.users[e.op.user], e.op.current)))
            && (reply.TooManyRequests? <==>
                  && Authorised(t, e) && e.faults !! {ReadLast, ReadCount}
                  && !Admits(cfg.changeQuota, t.codes, e.op.user, EMAIL_CHANGE, e.now))
            && (reply.TooManyRequests? ==>
                  cfg.changeQuota.Check(e.now, LastCreated(t.codes, e.op.user, EMAIL_CHANGE),
                                        CountSince(t.codes, e.op.user, EMAIL_CHANGE, e.now - cfg.changeQuota.Window()))
                  == Fail(reply.retryAfter))
            && (reply.SameEmail? || reply.EmailTaken? || reply.InvalidPassword? || reply.TooManyRequests?
                || reply == StoreError || reply == Done)
  {
    var op, quota := e.op, cfg.changeQuota;
    if IsLive(t, op.user) {
      VerifiesIff(t.users[op.user], op.current);
    }
    AdmitsIff(quota, t.codes, op.user, EMAIL_CHANGE, e.now);
    LoopErrors(t.codes, op.user, op.target, op.draws, 0, e.now, e.faults);
    RepliesOfChange(t, op.user, op.target, op.current, op.draws, quota, e.now, e.faults);
  }

  /** The same of the flow, where the account and its password are looked at as the code does. */
  lemma RepliesOfChange(t: Tables, user: UserId, target: string, current: string, draws: Passwords.Draws,
                        quota: Quota.Quota, now: int, faults: set<Call>)
    ensures var reply := EmailChange.RequestChangeStep(t, user, target, current, draws, quota, now, faults).1;
            var past := ReadUser !in faults && Live(t.users, user) && !SameAddress(t.users[user], target);
            var free := past && ReadAddress !in faults && Owner(t.users, target).None?;
            var known := free && ReadHash !in faults && Verifies(t.users[user].password, current);
            var check := quota.Check(now, LastCreated(t.codes, user, EMAIL_CHANGE),
                                     CountSince(t.codes, user, EMAIL_CHANGE, now - quota.Window()));
            && (reply == SameEmail <==>
                  ReadUser !in faults && Live(t.users, user) && SameAddress(t.users[user], target))
            && (reply == EmailTaken <==> past && ReadAddress !in faults && Owner(t.users, target).Some?)
            && (reply == InvalidPassword <==>
                  || (ReadUser !in faults && !Live(t.users, user))
                  || (free && ReadHash !in faults && !Verifies(t.users[user].password, current)))
            && (reply.TooManyRequests? <==> known && faults !! {ReadLast, ReadCount} && check.Fail?)
            && (reply.TooManyRequests? ==> check == Fail(reply.retryAfter))
            && (reply.SameEmail? || reply.EmailTaken? || reply.InvalidPassword? || reply.TooManyRequests?
                || reply == StoreError || reply == Done)
  {
    LoopErrors(t.codes, user, target, draws, 0, now, faults);
  }
}
