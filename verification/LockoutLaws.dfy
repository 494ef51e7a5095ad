/** How fast passwords can be guessed against one account, over every run of the service. */
module LockoutLaws {
  import opened Prelude
  import opened Store
  import opened Machine
  import Login

  /** The instants of the counted failures of a user since the counter was last cleared. */
  ghost function Failures(cfg: Config, t: Tables, es: seq<Event>, user: UserId): seq<int> {
    if es == [] then []
    else
      var before, mid, last := Failures(cfg, t, es[..|es| - 1], user), Run(cfg, t, es[..|es| - 1]), es[|es| - 1];
      var after := Step(cfg, mid, last).0;
      if user !in mid.users || user !in after.users then []
      else if after.users[user].failed == mid.users[user].failed + 1 then before + [last.now]
      else if after.users[user].failed == 0 then []
      else before
  }

  /** From the limit on, consecutive failures are at least a lock apart, so the n-th is at
      least n minus the limit locks after the one that reached the limit. */
  ghost predicate Spaced(lockout: Login.Lockout, times: seq<int>) {
    forall n | lockout.Max() <= n < |times| ::
      times[n] - times[lockout.Max() - 1] >= (n - (lockout.Max() - 1)) * lockout.Duration()
  }

  /** The row remembers the failures: how many, and a lock running from the last one. */
  ghost predicate Remembers(lockout: Login.Lockout, u: User, times: seq<int>) {
    && |times| == u.failed
    && (u.failed >= lockout.Max() ==> u.lockedUntil == Some(times[u.failed - 1] + lockout.Duration()))
  }

  lemma FailureStep(lockout: Login.Lockout, a: User, b: User, now: int, times: seq<int>)
    requires Spaced(lockout, times) && Remembers(lockout, a, times) && CounterStep(lockout, a, b, now)
    ensures var times' := if b.failed == a.failed + 1 then times + [now] else if b.failed == 0 then [] else times;
            Spaced(lockout, times') && Remembers(lockout, b, times')
  {
    if b.failed == a.failed + 1 && a.failed >= lockout.Max() {
      var n, m, d := a.failed, lockout.Max() - 1, lockout.Duration();
      assert now >= times[n - 1] + d;
      assert times[n - 1] - times[m] >= (n - 1 - m) * d by {
        if n - 1 == m {
          assert (n - 1 - m) * d == 0;
        }
      }
      assert (n - 1 - m) * d + d == (n - m) * d;
    }
  }

  /** For every run, with no assumption on the clock, and every account that starts without
      failures: between two clearings the n-th counted failure comes at least
      (n - MaxAttempts) lock durations after the MaxAttempts-th. */
  lemma {:induction false} FailuresAreSpaced(cfg: Config, t: Tables, es: seq<Event>, user: UserId)
    requires user in t.users ==> t.users[user].failed == 0
    ensures Spaced(cfg.lockout, Failures(cfg, t, es, user))
    ensures user in Run(cfg, t, es).users ==>
              Remembers(cfg.lockout, Run(cfg, t, es).users[user], Failures(cfg, t, es, user))
  {
    if es != [] {
      var mid, last := Run(cfg, t, es[..|es| - 1]), es[|es| - 1];
      FailuresAreSpaced(cfg, t, es[..|es| - 1], user);
      StepUsers(cfg, mid, last);
      if user in mid.users {
        var after := Step(cfg, mid, last).0.users;
        FailureStep(cfg.lockout, mid.users[user], after[user], last.now, Failures(cfg, t, es[..|es| - 1], user));
      }
    }
  }

  /** While an account is locked no password is checked: the answer and the tables are the
      same whatever password is offered. */
  lemma LockedLoginChecksNothing(cfg: Config, t: Tables, e: Event, other: string)
    requires e.op.LogIn? && ReadUser !in e.faults
    requires Owner(t.users, e.op.email).Some? && Login.IsLocked(t.users[Owner(t.users, e.op.email).value], e.now)
    ensures Step(cfg, t, e) == Step(cfg, t, e.(op := e.op.(plain := other)))
    ensures Step(cfg, t, e).0 == t && Step(cfg, t, e).1.Locked? && Step(cfg, t, e).1.lockedFor > 0
  {
  }

  /** The counter outlives the lock: after it expires one wrong password locks again. */
  lemma ExpiredLockRelocksAtOnce(cfg: Config, t: Tables, e: Event, later: Event)
    requires e.op.LogIn? && e.faults == {} && UniqueEmails(t.users) && Owner(t.users, e.op.email).Some?
    requires var u := t.users[Owner(t.users, e.op.email).value];
             u.active && u.failed >= cfg.lockout.Max() && !Login.IsLocked(u, e.now) && !Verifies(u.password, e.op.plain)
    requires later.op.LogIn? && later.op.email == e.op.email && ReadUser !in later.faults
    requires e.now <= later.now < e.now + cfg.lockout.Duration()
    ensures Step(cfg, Step(cfg, t, e).0, later).1.Locked?
  {
    var user := Owner(t.users, e.op.email).value;
    assert Owns(Step(cfg, t, e).0.users, user, e.op.email);
    forall u | Owns(Step(cfg, t, e).0.users, u, e.op.email)
      ensures u == user
    {
      assert Owns(t.users, u, e.op.email);
    }
  }

  /** A login that answers with a session had an active, unlocked account and its password, and
      leaves no failure behind; a wrong password on such an account is always counted. */
  lemma LoginOutcome(cfg: Config, t: Tables, e: Event)
    requires e.op.LogIn? && Owner(t.users, e.op.email).Some?
    ensures var id := Owner(t.users, e.op.email).value;
            var (u, (t', reply)) := (t.users[id], Step(cfg, t, e));
            && (reply.Session? ==> u.active && !Login.IsLocked(u, e.now) && Verifies(u.password, e.op.plain)
                                   && t'.users[id].failed == 0 && t'.users[id].lockedUntil.None?)
            && (u.active && !Login.IsLocked(u, e.now) && !Verifies(u.password, e.op.plain) && reply != StoreError ==>
                  t'.users[id].failed == u.failed + 1 && (reply.Locked? <==> u.failed + 1 >= cfg.lockout.Max()))
            && (forall x | x in t.users && x != id :: t'.users[x] == t.users[x])
  {
  }
}
