/** What one-time codes promise over every run of the service. */
module CodeLaws {
  import opened Prelude
  import opened Store
  import opened Machine
  import Quota
  import Passwords
  import EmailChange

  // ---------------------------------------------------------------------------
  // What one operation can do to the code table.
  // ---------------------------------------------------------------------------

  function QuotaFor(cfg: Config, purpose: Purpose): Quota.Quota {
    if purpose == PASSWORD_RESET then cfg.resetQuota else cfg.changeQuota
  }

  /** A code of `user` for `purpose` passed the quota and was appended. */
  ghost predicate Creates(cfg: Config, codes: seq<Code>, codes': seq<Code>, user: UserId, purpose: Purpose,
                          target: string, code: string, now: int) {
    var quota := QuotaFor(cfg, purpose);
    var kept := if purpose == EMAIL_CHANGE then Invalidated(codes, user, EMAIL_CHANGE, now) else codes;
    && !Collides(codes, Digest(code))
    && quota.Check(now, LastCreated(codes, user, purpose), CountSince(codes, user, purpose, now - quota.Window())).Pass?
    && codes' == Passwords.WithCode(kept, user, purpose, target, code, now)
  }

  ghost predicate Misses(codes: seq<Code>, codes': seq<Code>, i: nat, now: int) {
    && i < |codes| && codes[i].usedAt.None? && codes[i].attempts < Passwords.MAX_ATTEMPTS && now < codes[i].expiresAt
    && codes' == codes[i := codes[i].(attempts := codes[i].attempts + 1)]
  }

  ghost predicate Uses(codes: seq<Code>, codes': seq<Code>, i: nat, now: int) {
    && i < |codes| && codes[i].usedAt.None? && codes[i].attempts < Passwords.MAX_ATTEMPTS && now < codes[i].expiresAt
    && codes' == codes[i := codes[i].(usedAt := Some(now))]
  }

  /** The code the operation compares the presented code with. */
  ghost function Compared(t: Tables, e: Event): (r: Option<nat>)
    ensures r.Some? ==> r.value < |t.codes| && t.codes[r.value].usedAt.None?
    ensures r.Some? ==> t.codes[r.value].attempts < Passwords.MAX_ATTEMPTS && e.now < t.codes[r.value].expiresAt
  {
    var found := match e.op
      case Reset(email, _, _) => Passwords.ResetCode(t, email)
      case VerifyChange(user, _) => NewestUnused(t.codes, user, EMAIL_CHANGE)
      case _ => None;
    if found.Some? && Begin !in e.faults && ReadRow !in e.faults
       && e.now < t.codes[found.value].expiresAt && t.codes[found.value].attempts < Passwords.MAX_ATTEMPTS
    then found else None
  }

  ghost predicate WrongGuess(t: Tables, e: Event) {
    Compared(t, e).Some? && (e.op.Reset? || e.op.VerifyChange?)
      && Digest(e.op.code) != t.codes[Compared(t, e).value].hash
  }

  /** A wrong guess is counted unless the store fails to record it. */
  ghost predicate CountedGuess(t: Tables, e: Event) {
    WrongGuess(t, e) && RecordAttempt !in e.faults && Commit !in e.faults
  }

  /** The code takes effect: the password or the address changes. */
  ghost predicate TakesEffect(cfg: Config, t: Tables, e: Event) {
    Compared(t, e).Some? && Step(cfg, t, e).1 == Done
  }

  ghost predicate CodeStep(cfg: Config, t: Tables, e: Event, codes': seq<Code>) {
    if CountedGuess(t, e) then Misses(t.codes, codes', Compared(t, e).value, e.now)
    else if TakesEffect(cfg, t, e) then Uses(t.codes, codes', Compared(t, e).value, e.now)
    else
      || codes' == t.codes
      || exists user, purpose, target, code :: Creates(cfg, t.codes, codes', user, purpose, target, code, e.now)
  }

  lemma {:induction false} CreateResetShape(codes: seq<Code>, user: UserId, email: string, draws: Passwords.Draws,
                                            i: nat, now: int, faults: set<Call>)
    returns (code: string)
    requires Passwords.CreateReset(codes, user, email, draws, i, now, faults).Ok?
    ensures !Collides(codes, Digest(code))
    ensures Passwords.CreateReset(codes, user, email, draws, i, now, faults).value ==
            Passwords.WithCode(codes, user, PASSWORD_RESET, email, code, now)
    decreases Passwords.MAX_CODE_TRIES - i
  {
    code := draws[i].value;
    if Collides(codes, Digest(code)) {
      code := CreateResetShape(codes, user, email, draws, i + 1, now, faults);
    }
  }

  /** However many draws collide, the pending change is only replaced by the code that is
      finally stored; a request that stores none leaves it as it was. */
  lemma {:induction false} CreateChangeShape(codes: seq<Code>, user: UserId, target: string, draws: Passwords.Draws,
                                             i: nat, now: int, faults: set<Call>)
    returns (code: string)
    requires EmailChange.CreateChange(codes, user, target, draws, i, now, faults).Ok?
    ensures !Collides(codes, Digest(code))
    ensures EmailChange.CreateChange(codes, user, target, draws, i, now, faults).value ==
            Passwords.WithCode(Invalidated(codes, user, EMAIL_CHANGE, now), user, EMAIL_CHANGE, target, code, now)
    decreases Passwords.MAX_CODE_TRIES - i
  {
    code := draws[i].value;
    if Collides(codes, Digest(code)) {
      code := CreateChangeShape(codes, user, target, draws, i + 1, now, faults);
    }
  }

  lemma AskResetCodes(cfg: Config, t: Tables, e: Event)
    requires e.op.AskReset?
    ensures CodeStep(cfg, t, e, Step(cfg, t, e).0.codes)
  {
    var codes' := Step(cfg, t, e).0.codes;
    if codes' != t.codes {
      var user := Owner(t.users, e.op.email).value;
      var code := CreateResetShape(t.codes, user, e.op.email, e.op.draws, 0, e.now, e.faults);
      assert Creates(cfg, t.codes, codes', user, PASSWORD_RESET, e.op.email, code, e.now);
    }
  }

  lemma AskChangeCodes(cfg: Config, t: Tables, e: Event)
    requires e.op.AskChange?
    ensures CodeStep(cfg, t, e, Step(cfg, t, e).0.codes)
  {
    var codes' := Step(cfg, t, e).0.codes;
    if codes' != t.codes {
      var code := CreateChangeShape(t.codes, e.op.user, e.op.target, e.op.draws, 0, e.now, e.faults);
      assert Creates(cfg, t.codes, codes', e.op.user, EMAIL_CHANGE, e.op.target, code, e.now);
    }
  }

  lemma ResetCodes(cfg: Config, t: Tables, e: Event)
    requires e.op.Reset?
    ensures CodeStep(cfg, t, e, Step(cfg, t, e).0.codes)
  {
  }

  lemma VerifyChangeCodes(cfg: Config, t: Tables, e: Event)
    requires e.op.VerifyChange?
    ensures CodeStep(cfg, t, e, Step(cfg, t, e).0.codes)
  {
  }

  lemma StepCodes(cfg: Config, t: Tables, e: Event)
    ensures CodeStep(cfg, t, e, Step(cfg, t, e).0.codes)
  {
    match e.op
    case AskReset(_, _) => AskResetCodes(cfg, t, e);
    case AskChange(_, _, _, _) => AskChangeCodes(cfg, t, e);
    case Reset(_, _, _) => ResetCodes(cfg, t, e);
    case VerifyChange(_, _) => VerifyChangeCodes(cfg, t, e);
    case _ => assert Compared(t, e).None?;
  }

  // ---------------------------------------------------------------------------
  // Quota: spacing and windows.
  // ---------------------------------------------------------------------------

  /** If code `i` is for the user and purpose, it was created at least a cooldown after the
      previous ones, when the window before it held fewer than the limit. */
  ghost predicate PacedAt(codes: seq<Code>, user: UserId, purpose: Purpose, quota: Quota.Quota, i: nat)
    requires i < |codes|
  {
    IsFor(codes[i], user, purpose) ==>
      && CountSince(codes[..i], user, purpose, codes[i].createdAt - quota.Window()) < quota.Limit()
      && forall j | 0 <= j < i && IsFor(codes[j], user, purpose) ::
           codes[j].createdAt + quota.Cooldown() <= codes[i].createdAt
  }

  ghost predicate Paced(codes: seq<Code>, user: UserId, purpose: Purpose, quota: Quota.Quota) {
    forall i | 0 <= i < |codes| :: PacedAt(codes, user, purpose, quota, i)
  }

  /** Who a code is for and when it was created never change. */
  ghost predicate SameStamps(a: seq<Code>, b: seq<Code>) {
    && |a| == |b|
    && forall i | 0 <= i < |a| ::
      a[i].user == b[i].user && a[i].purpose == b[i].purpose && a[i].createdAt == b[i].createdAt
      && a[i].expiresAt == b[i].expiresAt
  }

  lemma {:induction false} SameCounts(a: seq<Code>, b: seq<Code>, user: UserId, purpose: Purpose, since: int)
    requires SameStamps(a, b)
    ensures CountSince(a, user, purpose, since) == CountSince(b, user, purpose, since)
  {
    if a != [] {
      SameCounts(a[..|a| - 1], b[..|b| - 1], user, purpose, since);
    }
  }

  lemma SamePace(a: seq<Code>, b: seq<Code>, user: UserId, purpose: Purpose, quota: Quota.Quota)
    requires SameStamps(a, b) && Paced(a, user, purpose, quota)
    ensures Paced(b, user, purpose, quota)
  {
    forall i | 0 <= i < |b|
      ensures PacedAt(b, user, purpose, quota, i)
    {
      assert PacedAt(a, user, purpose, quota, i);
      SameCounts(a[..i], b[..i], user, purpose, b[i].createdAt - quota.Window());
    }
  }

  lemma {:induction false} LastIsLast(codes: seq<Code>, user: UserId, purpose: Purpose, j: nat)
    requires j < |codes| && IsFor(codes[j], user, purpose)
    ensures LastCreated(codes, user, purpose).Some? && codes[j].createdAt <= LastCreated(codes, user, purpose).value
  {
    if j < |codes| - 1 {
      LastIsLast(codes[..|codes| - 1], user, purpose, j);
    }
  }

  lemma PaceKept(kept: seq<Code>, c: Code, user: UserId, purpose: Purpose, quota: Quota.Quota, i: nat)
    requires i < |kept| && PacedAt(kept, user, purpose, quota, i)
    ensures PacedAt(kept + [c], user, purpose, quota, i)
  {
    assert (kept + [c])[..i] == kept[..i];
  }

  lemma PaceLast(codes: seq<Code>, kept: seq<Code>, c: Code, user: UserId, purpose: Purpose, quota: Quota.Quota)
    requires SameStamps(codes, kept)
    requires IsFor(c, user, purpose) ==>
               quota.Check(c.createdAt, LastCreated(codes, user, purpose),
                           CountSince(codes, user, purpose, c.createdAt - quota.Window())).Pass?
    ensures PacedAt(kept + [c], user, purpose, quota, |kept|)
  {
    assert (kept + [c])[..|kept|] == kept;
    SameCounts(codes, kept, user, purpose, c.createdAt - quota.Window());
    forall j | 0 <= j < |kept| && IsFor(kept[j], user, purpose) && IsFor(c, user, purpose)
      ensures kept[j].createdAt + quota.Cooldown() <= c.createdAt
    {
      LastIsLast(codes, user, purpose, j);
    }
  }

  lemma PaceAppend(codes: seq<Code>, kept: seq<Code>, c: Code, user: UserId, purpose: Purpose, quota: Quota.Quota)
    requires Paced(codes, user, purpose, quota) && SameStamps(codes, kept)
    requires IsFor(c, user, purpose) ==>
               quota.Check(c.createdAt, LastCreated(codes, user, purpose),
                           CountSince(codes, user, purpose, c.createdAt - quota.Window())).Pass?
    ensures Paced(kept + [c], user, purpose, quota)
  {
    SamePace(codes, kept, user, purpose, quota);
    forall i: nat | i < |kept + [c]|
      ensures PacedAt(kept + [c], user, purpose, quota, i)
    {
      if i < |kept| {
        PaceKept(kept, c, user, purpose, quota, i);
      } else {
        PaceLast(codes, kept, c, user, purpose, quota);
      }
    }
  }

  lemma PaceCreated(cfg: Config, codes: seq<Code>, codes': seq<Code>, u: UserId, p: Purpose, target: string,
                    code: string,
                    now: int, user: UserId, purpose: Purpose)
    requires Paced(codes, user, purpose, QuotaFor(cfg, purpose)) && Creates(cfg, codes, codes', u, p, target, code, now)
    ensures Paced(codes', user, purpose, QuotaFor(cfg, purpose))
  {
    var kept := if p == EMAIL_CHANGE then Invalidated(codes, u, EMAIL_CHANGE, now) else codes;
    PaceAppend(codes, kept, codes'[|codes|], user, purpose, QuotaFor(cfg, purpose));
  }

  lemma PaceStep(cfg: Config, t: Tables, e: Event, codes': seq<Code>, user: UserId, purpose: Purpose,
                 quota: Quota.Quota)
    requires quota == QuotaFor(cfg, purpose)
    requires Paced(t.codes, user, purpose, quota) && CodeStep(cfg, t, e, codes')
    ensures Paced(codes', user, purpose, quota)
  {
    if |codes'| == |t.codes| {
      SamePace(t.codes, codes', user, purpose, quota);
    } else {
      var u, p, target, code :| Creates(cfg, t.codes, codes', u, p, target, code, e.now);
      PaceCreated(cfg, t.codes, codes', u, p, target, code, e.now, user, purpose);
    }
  }

  lemma {:induction false} CodesStayPaced(cfg: Config, t: Tables, es: seq<Event>, user: UserId, purpose: Purpose,
                                          quota: Quota.Quota)
    requires quota == QuotaFor(cfg, purpose)
    requires t.codes == []
    ensures Paced(Run(cfg, t, es).codes, user, purpose, quota)
  {
    if es != [] {
      var mid, last := Run(cfg, t, es[..|es| - 1]), es[|es| - 1];
      CodesStayPaced(cfg, t, es[..|es| - 1], user, purpose, quota);
      StepCodes(cfg, mid, last);
      PaceStep(cfg, mid, last, Step(cfg, mid, last).0.codes, user, purpose, quota);
    }
  }

  lemma {:induction false} NoneSince(codes: seq<Code>, user: UserId, purpose: Purpose, since: int)
    requires forall i | 0 <= i < |codes| && IsFor(codes[i], user, purpose) :: codes[i].createdAt < since
    ensures CountSince(codes, user, purpose, since) == 0
  {
    if codes != [] {
      var before := codes[..|codes| - 1];
      forall i | 0 <= i < |before| && IsFor(before[i], user, purpose) ensures before[i].createdAt < since {
        assert IsFor(codes[i], user, purpose);
      }
      NoneSince(before, user, purpose, since);
    }
  }

  /** The time to wait that a refusal names: after it the cooldown is over, and if it was the
      window that refused, the request passes unless another code was created meanwhile. */
  lemma RefusalTellsWhenToRetry(codes: seq<Code>, user: UserId, purpose: Purpose, quota: Quota.Quota, now: int)
    requires quota.Check(now, LastCreated(codes, user, purpose),
               CountSince(codes, user, purpose, now - quota.Window())).Fail?
    ensures var last := LastCreated(codes, user, purpose);
            var wait := quota.Check(now, last, CountSince(codes, user, purpose, now - quota.Window())).error;
            var later := now + wait;
            && (last.Some? ==> later - last.value >= quota.Cooldown())
            && (last.None? || now - last.value >= quota.Cooldown() ==>
                  quota.Check(later, last, CountSince(codes, user, purpose, later - quota.Window())).Pass?)
  {
    var last := LastCreated(codes, user, purpose);
    if last.None? || now - last.value >= quota.Cooldown() {
      forall i | 0 <= i < |codes| && IsFor(codes[i], user, purpose) ensures codes[i].createdAt < now {
        LastIsLast(codes, user, purpose, i);
      }
      NoneSince(codes, user, purpose, now);
    }
  }

  /** How many codes of the user and purpose were created in a closed interval. */
  ghost function CountIn(codes: seq<Code>, user: UserId, purpose: Purpose, from: int, to: int): nat {
    if codes == [] then 0
    else
      var last := codes[|codes| - 1];
      CountIn(codes[..|codes| - 1], user, purpose, from, to) +
      if IsFor(last, user, purpose) && from <= last.createdAt <= to then 1 else 0
  }

  lemma {:induction false} CountInSince(codes: seq<Code>, user: UserId, purpose: Purpose, from: int, to: int,
                                        since: int)
    requires since <= from
    ensures CountIn(codes, user, purpose, from, to) <= CountSince(codes, user, purpose, since)
  {
    if codes != [] {
      CountInSince(codes[..|codes| - 1], user, purpose, from, to, since);
    }
  }

  lemma {:induction false} PacedWindow(codes: seq<Code>, user: UserId, purpose: Purpose, quota: Quota.Quota, from: int,
                                       to: int)
    requires Paced(codes, user, purpose, quota) && to - from <= quota.Window()
    ensures CountIn(codes, user, purpose, from, to) <= quota.Limit()
  {
    if codes != [] {
      var before, last := codes[..|codes| - 1], codes[|codes| - 1];
      forall i | 0 <= i < |before|
        ensures PacedAt(before, user, purpose, quota, i)
      {
        assert PacedAt(codes, user, purpose, quota, i) && before[..i] == codes[..i];
      }
      assert PacedAt(codes, user, purpose, quota, |codes| - 1);
      PacedWindow(before, user, purpose, quota, from, to);
      if IsFor(last, user, purpose) && from <= last.createdAt <= to {
        CountInSince(before, user, purpose, from, to, last.createdAt - quota.Window());
      }
    }
  }

  /** For every run, with no assumption on the clock: every closed window as long as the quota
      window holds at most the limit of code creations for one user and purpose, and
      consecutive creations are a cooldown apart. */
  lemma CreationsAreLimited(cfg: Config, t: Tables, es: seq<Event>, user: UserId, purpose: Purpose, from: int, to: int)
    requires t.codes == []
    requires to - from <= QuotaFor(cfg, purpose).Window()
    ensures var (codes, quota) := (Run(cfg, t, es).codes, QuotaFor(cfg, purpose));
            && CountIn(codes, user, purpose, from, to) <= quota.Limit()
            && (forall i, j | 0 <= i < j < |codes| && IsFor(codes[i], user, purpose)
              && IsFor(codes[j], user, purpose) ::
                  codes[j].createdAt - codes[i].createdAt >= quota.Cooldown())
  {
    var quota := QuotaFor(cfg, purpose);
    CodesStayPaced(cfg, t, es, user, purpose, quota);
    var codes := Run(cfg, t, es).codes;
    PacedWindow(codes, user, purpose, quota, from, to);
    forall i, j | 0 <= i < j < |codes| && IsFor(codes[i], user, purpose) && IsFor(codes[j], user, purpose)
      ensures codes[j].createdAt - codes[i].createdAt >= quota.Cooldown()
    {
      assert PacedAt(codes, user, purpose, quota, j);
    }
  }

  // ---------------------------------------------------------------------------
  // Guesses.
  // ---------------------------------------------------------------------------

  /** One counted wrong guess: which code, and when. */
  datatype Guess = Guess(code: nat, at: int)

  ghost function Guesses(cfg: Config, t: Tables, es: seq<Event>): seq<Guess> {
    if es == [] then []
    else
      var before, mid, last := Guesses(cfg, t, es[..|es| - 1]), Run(cfg, t, es[..|es| - 1]), es[|es| - 1];
      if CountedGuess(mid, last) then before + [Guess(Compared(mid, last).value, last.now)] else before
  }

  ghost function GuessesOn(log: seq<Guess>, i: nat): nat {
    if log == [] then 0
    else GuessesOn(log[..|log| - 1], i) + if log[|log| - 1].code == i then 1 else 0
  }

  /** The attempt counters tell the truth, stay within the limit, and every guess fell into
      the life of its code. */
  ghost predicate Accounted(codes: seq<Code>, log: seq<Guess>) {
    && (forall i | 0 <= i < |codes| :: GuessesOn(log, i) == codes[i].attempts <= Passwords.MAX_ATTEMPTS)
    && (forall i | 0 <= i < |codes| :: codes[i].expiresAt == codes[i].createdAt + Passwords.CODE_LIFETIME)
    && (forall g | 0 <= g < |log| ::
      log[g].code < |codes| && codes[log[g].code].createdAt <= log[g].at < codes[log[g].code].expiresAt)
  }

  lemma {:induction false} NoGuessesBeyond(codes: nat, log: seq<Guess>, i: nat)
    requires forall g | 0 <= g < |log| :: log[g].code < codes
    requires codes <= i
    ensures GuessesOn(log, i) == 0
  {
    if log != [] {
      NoGuessesBeyond(codes, log[..|log| - 1], i);
    }
  }

  ghost predicate CreatedBy(codes: seq<Code>, now: int) {
    forall i | 0 <= i < |codes| :: codes[i].createdAt <= now
  }

  lemma AccountMiss(codes: seq<Code>, codes': seq<Code>, log: seq<Guess>, k: nat, now: int)
    requires Accounted(codes, log) && CreatedBy(codes, now) && Misses(codes, codes', k, now)
    ensures Accounted(codes', log + [Guess(k, now)])
  {
    var log' := log + [Guess(k, now)];
    assert log'[..|log'| - 1] == log;
    forall i | 0 <= i < |codes'| ensures GuessesOn(log', i) == codes'[i].attempts <= Passwords.MAX_ATTEMPTS {
      assert GuessesOn(log, i) == codes[i].attempts;
    }
  }

  lemma AccountAppend(codes: seq<Code>, kept: seq<Code>, c: Code, log: seq<Guess>)
    requires Accounted(codes, log) && |kept| == |codes|
    requires forall i | 0 <= i < |codes| ::
               kept[i].attempts == codes[i].attempts && kept[i].createdAt == codes[i].createdAt
                 && kept[i].expiresAt == codes[i].expiresAt
    requires c.attempts == 0 && c.expiresAt == c.createdAt + Passwords.CODE_LIFETIME
    ensures Accounted(kept + [c], log)
  {
    NoGuessesBeyond(|codes|, log, |codes|);
  }

  lemma AccountSame(codes: seq<Code>, codes': seq<Code>, log: seq<Guess>)
    requires Accounted(codes, log) && |codes'| == |codes|
    requires forall i | 0 <= i < |codes| ::
               && codes'[i].attempts == codes[i].attempts && codes'[i].createdAt == codes[i].createdAt
               && codes'[i].expiresAt == codes[i].expiresAt
    ensures Accounted(codes', log)
  {
  }

  lemma AccountStep(cfg: Config, t: Tables, e: Event, codes': seq<Code>, log: seq<Guess>)
    requires Accounted(t.codes, log) && CreatedBy(t.codes, e.now) && CodeStep(cfg, t, e, codes')
    ensures Accounted(codes', if CountedGuess(t, e) then log + [Guess(Compared(t, e).value, e.now)] else log)
    ensures CreatedBy(codes', e.now)
  {
    var codes := t.codes;
    if CountedGuess(t, e) {
      AccountMiss(codes, codes', log, Compared(t, e).value, e.now);
    } else if |codes'| != |codes| {
      var u, p, target, code :| Creates(cfg, codes, codes', u, p, target, code, e.now);
      var kept := if p == EMAIL_CHANGE then Invalidated(codes, u, EMAIL_CHANGE, e.now) else codes;
      AccountAppend(codes, kept, codes'[|codes|], log);
    } else {
      AccountSame(codes, codes', log);
    }
  }

  /** For every run with nondecreasing clock: a code's attempt counter is the number of wrong
      guesses counted on it since it was issued, and never exceeds the limit. */
  lemma {:induction false} AttemptsAreExact(cfg: Config, t: Tables, es: seq<Event>)
    requires t.codes == [] && Nondecreasing(es)
    ensures Accounted(Run(cfg, t, es).codes, Guesses(cfg, t, es))
    ensures es != [] ==> CreatedBy(Run(cfg, t, es).codes, es[|es| - 1].now)
  {
    if es != [] {
      var before, last := es[..|es| - 1], es[|es| - 1];
      var mid := Run(cfg, t, before);
      AttemptsAreExact(cfg, t, before);
      if before != [] {
        assert before[|before| - 1].now <= last.now;
      }
      StepCodes(cfg, mid, last);
      AccountStep(cfg, mid, last, Step(cfg, mid, last).0.codes, Guesses(cfg, t, before));
    }
  }

  /** The counted wrong guesses made for a user and purpose in a closed interval. */
  ghost function GuessesIn(log: seq<Guess>, codes: seq<Code>, user: UserId, purpose: Purpose, from: int, to: int): nat {
    if log == [] then 0
    else
      var last := log[|log| - 1];
      GuessesIn(log[..|log| - 1], codes, user, purpose, from, to) +
      if last.code < |codes| && IsFor(codes[last.code], user, purpose) && from <= last.at <= to then 1 else 0
  }

  /** The guesses on those of the first `n` codes that were created in an interval. */
  ghost function GuessesOnCreated(log: seq<Guess>, codes: seq<Code>, user: UserId, purpose: Purpose, from: int,
                                  to: int, n: nat): nat {
    if log == [] then 0
    else
      var last := log[|log| - 1];
      GuessesOnCreated(log[..|log| - 1], codes, user, purpose, from, to, n) +
      if last.code < n && last.code < |codes| && IsFor(codes[last.code], user, purpose)
        && from <= codes[last.code].createdAt <= to then 1 else 0
  }

  lemma {:induction false} GuessesByCreation(log: seq<Guess>, codes: seq<Code>, user: UserId, purpose: Purpose,
                                             from: int, to: int)
    requires forall g | 0 <= g < |log| ::
               log[g].code < |codes| && codes[log[g].code].createdAt <= log[g].at < codes[log[g].code].createdAt
                 + Passwords.CODE_LIFETIME
    ensures GuessesIn(log, codes, user, purpose, from, to) <=
            GuessesOnCreated(log, codes, user, purpose, from - Passwords.CODE_LIFETIME + 1, to, |codes|)
  {
    if log != [] {
      GuessesByCreation(log[..|log| - 1], codes, user, purpose, from, to);
    }
  }

  lemma {:induction false} OneMoreCode(log: seq<Guess>, codes: seq<Code>, user: UserId, purpose: Purpose, from: int,
                                       to: int, n: nat)
    requires n < |codes|
    ensures GuessesOnCreated(log, codes, user, purpose, from, to, n + 1) ==
            GuessesOnCreated(log, codes, user, purpose, from, to, n) +
            if IsFor(codes[n], user, purpose) && from <= codes[n].createdAt <= to then GuessesOn(log, n) else 0
  {
    if log != [] {
      OneMoreCode(log[..|log| - 1], codes, user, purpose, from, to, n);
    }
  }

  lemma {:induction false} NoCodeNoGuess(log: seq<Guess>, codes: seq<Code>, user: UserId, purpose: Purpose, from: int,
                                         to: int)
    ensures GuessesOnCreated(log, codes, user, purpose, from, to, 0) == 0
  {
    if log != [] {
      NoCodeNoGuess(log[..|log| - 1], codes, user, purpose, from, to);
    }
  }

  lemma {:induction false} GuessesPerCode(log: seq<Guess>, codes: seq<Code>, user: UserId, purpose: Purpose, from: int,
                                          to: int, n: nat)
    requires n <= |codes| && forall i | 0 <= i < |codes| :: GuessesOn(log, i) <= Passwords.MAX_ATTEMPTS
    ensures GuessesOnCreated(log, codes, user, purpose, from, to, n) <=
            Passwords.MAX_ATTEMPTS * CountIn(codes[..n], user, purpose, from, to)
  {
    if n == 0 {
      NoCodeNoGuess(log, codes, user, purpose, from, to);
    } else {
      GuessesPerCode(log, codes, user, purpose, from, to, n - 1);
      OneMoreCode(log, codes, user, purpose, from, to, n - 1);
      assert codes[..n][..n - 1] == codes[..n - 1];
    }
  }

  lemma GuessesPerWindow(codes: seq<Code>, log: seq<Guess>, user: UserId, purpose: Purpose, quota: Quota.Quota,
                         from: int, to: int)
    requires Accounted(codes, log) && Paced(codes, user, purpose, quota)
             && to - from <= quota.Window() - Passwords.CODE_LIFETIME
    ensures GuessesIn(log, codes, user, purpose, from, to) <= quota.Limit() * Passwords.MAX_ATTEMPTS
  {
    var start := from - Passwords.CODE_LIFETIME + 1;
    GuessesByCreation(log, codes, user, purpose, from, to);
    GuessesPerCode(log, codes, user, purpose, start, to, |codes|);
    assert codes[..|codes|] == codes;
    PacedWindow(codes, user, purpose, quota, start, to);
  }

  /** The guess bound. For every run with nondecreasing clock and every interval no longer
      than the quota window minus the code lifetime, at most Limit * MaxAttempts wrong codes
      are counted for one user and purpose, however often codes are reissued. */
  lemma GuessesAreLimited(cfg: Config, t: Tables, es: seq<Event>, user: UserId, purpose: Purpose, from: int, to: int)
    requires t.codes == [] && Nondecreasing(es)
    requires to - from <= QuotaFor(cfg, purpose).Window() - Passwords.CODE_LIFETIME
    ensures GuessesIn(Guesses(cfg, t, es), Run(cfg, t, es).codes, user, purpose, from, to) <=
            QuotaFor(cfg, purpose).Limit() * Passwords.MAX_ATTEMPTS
  {
    var quota := QuotaFor(cfg, purpose);
    AttemptsAreExact(cfg, t, es);
    CodesStayPaced(cfg, t, es, user, purpose, quota);
    GuessesPerWindow(Run(cfg, t, es).codes, Guesses(cfg, t, es), user, purpose, quota, from, to);
  }

  /** The event compares a wrong code for the user and purpose in the interval. */
  ghost predicate ComparesIn(t: Tables, e: Event, user: UserId, purpose: Purpose, from: int, to: int) {
    WrongGuess(t, e) && IsFor(t.codes[Compared(t, e).value], user, purpose) && from <= e.now <= to
  }

  /** The wrong codes compared for a user and purpose in a closed interval, recorded or not. */
  ghost function ComparedIn(cfg: Config, t: Tables, es: seq<Event>, user: UserId, purpose: Purpose, from: int,
                            to: int): nat {
    if es == [] then 0
    else
      ComparedIn(cfg, t, es[..|es| - 1], user, purpose, from, to) +
      if ComparesIn(Run(cfg, t, es[..|es| - 1]), es[|es| - 1], user, purpose, from, to) then 1 else 0
  }

  ghost predicate LosesIn(t: Tables, e: Event, user: UserId, purpose: Purpose, from: int, to: int) {
    ComparesIn(t, e, user, purpose, from, to) && !CountedGuess(t, e)
  }

  /** Those of them the store failed to record. */
  ghost function UnrecordedIn(cfg: Config, t: Tables, es: seq<Event>, user: UserId, purpose: Purpose, from: int,
                              to: int): nat {
    if es == [] then 0
    else
      UnrecordedIn(cfg, t, es[..|es| - 1], user, purpose, from, to) +
      if LosesIn(Run(cfg, t, es[..|es| - 1]), es[|es| - 1], user, purpose, from, to) then 1 else 0
  }

  lemma OneSplits(t: Tables, e: Event, user: UserId, purpose: Purpose, from: int, to: int)
    ensures (if ComparesIn(t, e, user, purpose, from, to) then 1 else 0) ==
            (if LosesIn(t, e, user, purpose, from, to) then 1 else 0) +
            if CountedGuess(t, e) && IsFor(t.codes[Compared(t, e).value], user, purpose) && from <= e.now <= to
            then 1 else 0
  {
  }

  /** Codes keep their place, their user and their purpose. */
  ghost predicate Continues(codes: seq<Code>, codes': seq<Code>) {
    && |codes| <= |codes'|
    && forall i | 0 <= i < |codes| :: codes'[i].user == codes[i].user && codes'[i].purpose == codes[i].purpose
  }

  lemma StepContinues(cfg: Config, t: Tables, e: Event)
    ensures Continues(t.codes, Step(cfg, t, e).0.codes)
  {
    StepCodes(cfg, t, e);
  }

  lemma {:induction false} GuessesContinue(log: seq<Guess>, codes: seq<Code>, codes': seq<Code>, user: UserId,
                                           purpose: Purpose,
                                           from: int, to: int)
    requires Continues(codes, codes') && forall g | 0 <= g < |log| :: log[g].code < |codes|
    ensures GuessesIn(log, codes', user, purpose, from, to) == GuessesIn(log, codes, user, purpose, from, to)
  {
    if log != [] {
      GuessesContinue(log[..|log| - 1], codes, codes', user, purpose, from, to);
    }
  }

  lemma GuessLogged(log: seq<Guess>, g: Option<Guess>, codes: seq<Code>, codes': seq<Code>, user: UserId,
                    purpose: Purpose, from: int, to: int)
    requires Continues(codes, codes') && (forall i | 0 <= i < |log| :: log[i].code < |codes|)
    requires g.Some? ==> g.value.code < |codes|
    ensures GuessesIn(if g.Some? then log + [g.value] else log, codes', user, purpose, from, to) ==
            GuessesIn(log, codes, user, purpose, from, to) +
            if g.Some? && IsFor(codes[g.value.code], user, purpose) && from <= g.value.at <= to then 1 else 0
  {
    GuessesContinue(log, codes, codes', user, purpose, from, to);
    if g.Some? {
      assert (log + [g.value])[..|log|] == log;
    }
  }

  lemma GuessesInRange(cfg: Config, t: Tables, es: seq<Event>)
    requires t.codes == [] && Nondecreasing(es)
    ensures var log := Guesses(cfg, t, es);
            forall g | 0 <= g < |log| :: log[g].code < |Run(cfg, t, es).codes|
  {
    AttemptsAreExact(cfg, t, es);
  }

  /** Every compared wrong code was either recorded or lost by a failing store. */
  lemma {:induction false} RecordedOrNot(cfg: Config, t: Tables, es: seq<Event>, user: UserId, purpose: Purpose,
                                         from: int, to: int)
    requires t.codes == [] && Nondecreasing(es)
    ensures ComparedIn(cfg, t, es, user, purpose, from, to) ==
            GuessesIn(Guesses(cfg, t, es), Run(cfg, t, es).codes, user, purpose, from, to)
            + UnrecordedIn(cfg, t, es, user, purpose, from, to)
  {
    if es != [] {
      var before, last := es[..|es| - 1], es[|es| - 1];
      var mid := Run(cfg, t, before);
      var g := if CountedGuess(mid, last) then Some(Guess(Compared(mid, last).value, last.now)) else None;
      RecordedOrNot(cfg, t, before, user, purpose, from, to);
      GuessesInRange(cfg, t, before);
      StepContinues(cfg, mid, last);
      OneSplits(mid, last, user, purpose, from, to);
      GuessLogged(Guesses(cfg, t, before), g, mid.codes, Run(cfg, t, es).codes, user, purpose, from, to);
    }
  }

  /** What that means for the codes compared: more than the bound only by what the store failed
      to record. */
  lemma ComparisonsAreLimited(cfg: Config, t: Tables, es: seq<Event>, user: UserId, purpose: Purpose, from: int,
                              to: int)
    requires t.codes == [] && Nondecreasing(es)
    requires to - from <= QuotaFor(cfg, purpose).Window() - Passwords.CODE_LIFETIME
    ensures ComparedIn(cfg, t, es, user, purpose, from, to) <=
            QuotaFor(cfg, purpose).Limit() * Passwords.MAX_ATTEMPTS
            + UnrecordedIn(cfg, t, es, user, purpose, from, to)
  {
    GuessesAreLimited(cfg, t, es, user, purpose, from, to);
    RecordedOrNot(cfg, t, es, user, purpose, from, to);
  }

  function Repeated(e: Event, n: nat): (es: seq<Event>)
    ensures |es| == n
  {
    if n == 0 then [] else Repeated(e, n - 1) + [e]
  }

  /** A wrong guess on `t` for the user and purpose, which the store does not record. */
  ghost predicate Unrecorded(t: Tables, e: Event, user: UserId, purpose: Purpose) {
    && WrongGuess(t, e) && (RecordAttempt in e.faults || Commit in e.faults)
    && IsFor(t.codes[Compared(t, e).value], user, purpose)
  }

  lemma UnrecordedChangesNothing(cfg: Config, t: Tables, e: Event, user: UserId, purpose: Purpose)
    requires Unrecorded(t, e, user, purpose)
    ensures Step(cfg, t, e).0 == t
  {
    UncountedGuessIsAStoreError(cfg, t, e);
  }

  /** And that excess has no bound: while recording fails, the same wrong guess can be repeated
      any number of times, each compared, none counted, and nothing changes. */
  lemma {:induction false} UnrecordedGuessesRepeat(cfg: Config, t: Tables, e: Event, n: nat,
                                                   user: UserId, purpose: Purpose, from: int, to: int)
    requires Unrecorded(t, e, user, purpose) && from <= e.now <= to
    ensures Run(cfg, t, Repeated(e, n)) == t
    ensures ComparedIn(cfg, t, Repeated(e, n), user, purpose, from, to) == n
  {
    if n > 0 {
      var es := Repeated(e, n);
      assert es[..n - 1] == Repeated(e, n - 1) && es[n - 1] == e;
      UnrecordedGuessesRepeat(cfg, t, e, n - 1, user, purpose, from, to);
      UnrecordedChangesNothing(cfg, t, e, user, purpose);
    }
  }

  /** The one kind of wrong guess outside the bound: it is compared, the store fails to record
      it, and the caller gets a store error instead of "invalid code". */
  lemma UncountedGuessIsAStoreError(cfg: Config, t: Tables, e: Event)
    requires WrongGuess(t, e)
    ensures CountedGuess(t, e) <==> Step(cfg, t, e).1 == InvalidCode
    ensures !CountedGuess(t, e) ==> Step(cfg, t, e) == (t, StoreError)
    ensures CountedGuess(t, e) ==>
              Step(cfg, t, e).0.codes[Compared(t, e).value].attempts == t.codes[Compared(t, e).value].attempts + 1
  {
  }

  // ---------------------------------------------------------------------------
  // Single use.
  // ---------------------------------------------------------------------------

  ghost predicate OneUnusedChange(codes: seq<Code>) {
    forall i, j | 0 <= i < |codes| && 0 <= j < |codes| && codes[i].purpose == codes[j].purpose == EMAIL_CHANGE
                  && codes[i].user == codes[j].user && codes[i].usedAt.None? && codes[j].usedAt.None? :: i == j
  }

  lemma OneUnusedStep(cfg: Config, t: Tables, e: Event, codes': seq<Code>)
    requires OneUnusedChange(t.codes) && CodeStep(cfg, t, e, codes')
    ensures OneUnusedChange(codes')
  {
    if |codes'| != |t.codes| {
      var u, p, target, code :| Creates(cfg, t.codes, codes', u, p, target, code, e.now);
      forall i | 0 <= i < |t.codes| && codes'[i].usedAt.None?
        ensures t.codes[i].usedAt.None? && codes'[i] == t.codes[i] && !(p == EMAIL_CHANGE && IsFor(t.codes[i], u, p))
      {
      }
    }
  }

  /** A user never has two unused address-change codes. */
  lemma {:induction false} AtMostOneUnusedChange(cfg: Config, t: Tables, es: seq<Event>)
    requires t.codes == []
    ensures OneUnusedChange(Run(cfg, t, es).codes)
  {
    if es != [] {
      var mid, last := Run(cfg, t, es[..|es| - 1]), es[|es| - 1];
      AtMostOneUnusedChange(cfg, t, es[..|es| - 1]);
      StepCodes(cfg, mid, last);
      OneUnusedStep(cfg, mid, last, Step(cfg, mid, last).0.codes);
    }
  }

  ghost function EffectCount(cfg: Config, t: Tables, es: seq<Event>, i: nat): nat {
    if es == [] then 0
    else
      var mid, last := Run(cfg, t, es[..|es| - 1]), es[|es| - 1];
      EffectCount(cfg, t, es[..|es| - 1], i) +
        if TakesEffect(cfg, mid, last) && Compared(mid, last) == Some(i) then 1 else 0
  }

  /** Over every run each code takes effect at most once. */
  lemma {:induction false} CodesTakeEffectOnce(cfg: Config, t: Tables, es: seq<Event>, i: nat)
    ensures EffectCount(cfg, t, es, i) <= 1
    ensures EffectCount(cfg, t, es, i) == 1 ==> i < |Run(cfg, t, es).codes| && Run(cfg, t, es).codes[i].usedAt.Some?
  {
    if es != [] {
      var mid, last := Run(cfg, t, es[..|es| - 1]), es[|es| - 1];
      CodesTakeEffectOnce(cfg, t, es[..|es| - 1], i);
      StepCodes(cfg, mid, last);
    }
  }
}
