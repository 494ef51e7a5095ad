/** Spending a code is all or nothing, whatever call fails. */
module AtomicityLaws {
  import opened Prelude
  import opened Store
  import opened Machine
  import CodeLaws
  import FamilyLaws
  import Passwords
  import Signup

  /** Code `i` is used at `now`; no other code moved. */
  ghost predicate CodeSpent(codes: seq<Code>, codes': seq<Code>, i: nat, now: int) {
    && |codes'| == |codes| && i < |codes|
    && codes[i].usedAt.None? && codes'[i] == codes[i].(usedAt := Some(now))
    && forall j | 0 <= j < |codes| && j != i :: codes'[j] == codes[j]
  }

  /** One more attempt on code `i`; nothing else in any table moved. */
  ghost predicate OnlyCounted(t: Tables, t': Tables, i: nat) {
    && t'.users == t.users && t'.refresh == t.refresh && t'.signups == t.signups
    && |t'.codes| == |t.codes| && i < |t.codes|
    && t'.codes[i] == t.codes[i].(attempts := t.codes[i].attempts + 1)
    && forall j | 0 <= j < |t.codes| && j != i :: t'.codes[j] == t.codes[j]
  }

  ghost predicate OthersKept(users: map<UserId, User>, users': map<UserId, User>, user: UserId) {
    users'.Keys == users.Keys && forall u | u in users && u != user :: users'[u] == users[u]
  }

  /** The new password is set, the lockout cleared, the code spent and the user signed out. */
  ghost predicate PasswordReset(t: Tables, t': Tables, user: UserId, i: nat, password: PasswordHash, now: int) {
    && OthersKept(t.users, t'.users, user) && user in t.users
    && t'.users[user] == t.users[user].(password := Some(password), failed := 0, lockedUntil := None)
    && CodeSpent(t.codes, t'.codes, i, now) && FamilyLaws.SignedOut(t.refresh, t'.refresh, user, now)
    && t'.signups == t.signups
  }

  /** A reset changes everything, or only the attempt counter, or nothing; which of the three
      is decided by the code and by whether a needed call failed. */
  lemma ResetIsAllOrNothing(cfg: Config, t: Tables, e: Event)
    requires e.op.Reset?
    ensures var (t', reply) := Step(cfg, t, e);
            var at := CodeLaws.Compared(t, e);
            && (reply == Done <==>
                  at.Some? && t.codes[at.value].hash == Digest(e.op.code)
                  && e.faults !! {HashPassword, SetPassword, Consume, RevokeUser, Commit})
            && (reply == Done ==>
                  && Owner(t.users, e.op.email).Some?
                  && PasswordReset(t, t', Owner(t.users, e.op.email).value, at.value, e.op.newPassword, e.now))
            && (CodeLaws.CountedGuess(t, e) ==> reply == InvalidCode && OnlyCounted(t, t', at.value))
            && (reply != Done && !CodeLaws.CountedGuess(t, e) ==> t' == t)
  {
  }

  /** The address is the code's target, the code is spent and the user signed out. */
  ghost predicate AddressMoved(t: Tables, t': Tables, user: UserId, i: nat, now: int) {
    && i < |t.codes| && OthersKept(t.users, t'.users, user)
    && (user in t.users ==> t'.users[user] == t.users[user].(email := Some(t.codes[i].target)))
    && CodeSpent(t.codes, t'.codes, i, now) && FamilyLaws.SignedOut(t.refresh, t'.refresh, user, now)
    && t'.signups == t.signups
  }

  /** An address change likewise; a correct code for an address taken meanwhile is neither
      counted nor consumed. */
  lemma VerifyChangeIsAllOrNothing(cfg: Config, t: Tables, e: Event)
    requires e.op.VerifyChange?
    ensures var (t', reply) := Step(cfg, t, e);
            var at := CodeLaws.Compared(t, e);
            && (reply == Done <==>
                  at.Some? && t.codes[at.value].hash == Digest(e.op.code)
                    && Owner(t.users, t.codes[at.value].target).None?
                  && e.faults !! {ReadAddress, SetEmail, Consume, RevokeUser, Commit})
            && (reply == Done ==> AddressMoved(t, t', e.op.user, at.value, e.now))
            && (CodeLaws.CountedGuess(t, e) ==> reply == InvalidCode && OnlyCounted(t, t', at.value))
            && (reply != Done && !CodeLaws.CountedGuess(t, e) ==> t' == t)
            && (reply == EmailTaken <==>
                  at.Some? && t.codes[at.value].hash == Digest(e.op.code) && ReadAddress !in e.faults
                  && Owner(t.users, t.codes[at.value].target).Some?)
  {
  }

  /** A password change by its owner: the password and the sign-out together, or nothing. */
  lemma ChangeIsAllOrNothing(cfg: Config, t: Tables, e: Event)
    requires e.op.ChangePassword?
    ensures var (t', reply) := Step(cfg, t, e);
            && (reply == Done <==>
                  Live(t.users, e.op.user) && Verifies(t.users[e.op.user].password, e.op.current)
                  && e.faults !! {ReadHash, HashPassword, Begin, SetPassword, RevokeUser, Commit})
            && (reply == Done ==>
                  && OthersKept(t.users, t'.users, e.op.user)
                  && t'.users[e.op.user] ==
                     t.users[e.op.user].(password := Some(e.op.newPassword), failed := 0, lockedUntil := None)
                  && FamilyLaws.SignedOut(t.refresh, t'.refresh, e.op.user, e.now)
                  && t'.codes == t.codes && t'.signups == t.signups)
            && (reply != Done ==> t' == t)
  {
  }

  // ---------------------------------------------------------------------------
  // Signup.
  // ---------------------------------------------------------------------------

  /** The pending registration whose code the operation compares. */
  ghost predicate ComparesPending(t: Tables, e: Event) {
    && e.op.VerifySignup? && Begin !in e.faults && ReadRow !in e.faults && e.op.email in t.signups
    && e.now < t.signups[e.op.email].expiresAt && t.signups[e.op.email].attempts < Passwords.MAX_ATTEMPTS
  }

  ghost predicate CountedPending(t: Tables, e: Event) {
    && ComparesPending(t, e) && Digest(e.op.code) != t.signups[e.op.email].hash
    && RecordAttempt !in e.faults && Commit !in e.faults
  }

  /** The pending registration is gone and the user it described exists, live and without
      failures; other users and registrations, and all codes, are as they were. */
  ghost predicate Registered(t: Tables, t': Tables, email: string, id: UserId) {
    && email in t.signups && id !in t.users && t'.users.Keys == t.users.Keys + {id}
    && (forall u | u in t.users :: t'.users[u] == t.users[u])
    && Owns(t'.users, id, email) && t'.users[id].active && t'.users[id].failed == 0 && t'.users[id].lockedUntil.None?
    && t'.users[id].password == Some(t.signups[email].password)
    && t'.signups == t.signups - {email} && t'.codes == t.codes
  }

  ghost predicate SessionAdded(t: Tables, t': Tables, h: Digest, user: UserId) {
    && h !in t.refresh && t'.refresh.Keys == t.refresh.Keys + {h} && t'.refresh[h].user == user
    && forall x | x in t.refresh :: t'.refresh[x] == t.refresh[x]
  }

  /** A signup verification registers the user and consumes the code together, or only counts
      an attempt, or changes nothing. The first session is opened afterwards, so it may be
      missing although the user exists; nobody else's tokens move. */
  lemma SignupIsAllOrNothing(cfg: Config, t: Tables, e: Event)
    requires e.op.VerifySignup?
    ensures var t' := Step(cfg, t, e).0;
            var promotes := ComparesPending(t, e) && Digest(e.op.code) == t.signups[e.op.email].hash
                            && e.faults !! {Promote, Discard, Commit} && e.op.id !in t.users
                              && Owner(t.users, e.op.email).None?;
            && (promotes ==> Registered(t, t', e.op.email, e.op.id))
            && (promotes ==> t'.refresh == t.refresh || SessionAdded(t, t', Digest(e.op.token), e.op.id))
            && (CountedPending(t, e) ==>
                  && t' == t.(signups := t'.signups) && t'.signups.Keys == t.signups.Keys
                  && t'.signups[e.op.email] == t.signups[e.op.email].(attempts := t.signups[e.op.email].attempts + 1)
                  && forall m | m in t.signups && m != e.op.email :: t'.signups[m] == t.signups[m])
            && (!promotes && !CountedPending(t, e) ==> t' == t)
  {
    var (p, reply) := Signup.PromoteStep(t, e.op.email, e.op.code, e.op.id, e.now, e.faults);
    if reply == Done {
      assert Registered(t, p, e.op.email, e.op.id);
    }
  }

  /** A code for the address was issued. */
  ghost predicate Issues(t: Tables, e: Event, email: string) {
    && e.op.AskSignup? && e.op.email == email && e.op.draw.Some? && Owner(t.users, email).None?
    && e.faults !! {ReadUser, HashPassword, UpsertPending}
  }

  /** The wrong guesses counted for an address since its last code was issued. */
  ghost function PendingGuesses(cfg: Config, t: Tables, es: seq<Event>, email: string): nat {
    if es == [] then 0
    else
      var before, mid, last := PendingGuesses(cfg, t, es[..|es| - 1], email), Run(cfg, t, es[..|es| - 1]), es[|es| - 1];
      if Issues(mid, last, email) then 0
      else if CountedPending(mid, last) && last.op.email == email then before + 1
      else before
  }

  lemma PendingStep(cfg: Config, t: Tables, e: Event, email: string)
    ensures var s, s' := t.signups, Step(cfg, t, e).0.signups;
            && (Issues(t, e, email) ==> email in s' && s'[email].attempts == 0)
            && (CountedPending(t, e) && e.op.email == email ==>
              email in s && email in s' && s'[email].attempts == s[email].attempts + 1 <= Passwords.MAX_ATTEMPTS)
            && (!Issues(t, e, email) && !(CountedPending(t, e) && e.op.email == email) && email in s' ==>
                  email in s && s'[email] == s[email])
  {
    if e.op.VerifySignup? {
      SignupIsAllOrNothing(cfg, t, e);
    }
  }

  /** Over every run a pending registration's counter is the number of wrong guesses counted
      since its code was issued, and never exceeds the limit. */
  lemma {:induction false} PendingAttemptsAreExact(cfg: Config, t: Tables, es: seq<Event>, email: string)
    requires t.signups == map[]
    ensures email in Run(cfg, t, es).signups ==>
              Run(cfg, t, es).signups[email].attempts == PendingGuesses(cfg, t, es, email) <= Passwords.MAX_ATTEMPTS
  {
    if es != [] {
      PendingAttemptsAreExact(cfg, t, es[..|es| - 1], email);
      PendingStep(cfg, Run(cfg, t, es[..|es| - 1]), es[|es| - 1], email);
    }
  }

  /** Asking for a signup code replaces whatever was pending, however recent: there is no
      quota, and the new code starts with a full set of attempts. */
  lemma SignupHasNoQuota(cfg: Config, t: Tables, e: Event)
    requires e.op.AskSignup? && Issues(t, e, e.op.email)
    ensures Step(cfg, t, e).0.signups[e.op.email].hash == Digest(e.op.draw.value)
    ensures Step(cfg, t, e).0.signups[e.op.email].attempts == 0
  {
  }
}
