/**
 The authentication service as one state machine: every operation of every flow is a step on
 the shared tables, and a run is any sequence of operations with any calls failing.
 */
module Machine {
  import opened Prelude
  import opened Store
  import Quota
  import Sessions
  import Passwords
  import EmailChange
  import Signup
  import Login

  datatype Op =
    | Join(id: UserId, verified: Option<string>)
    | Administer(user: UserId, active: Option<bool>)
    | Open(user: UserId, token: string, family: string, meta: Sessions.Meta)
    | LogIn(email: string, plain: string, token: string, family: string, meta: Sessions.Meta)
    | Refreshing(presented: string, token: string, meta: Sessions.Meta)
    | LogOut(presented: string)
    | AskReset(email: string, draws: Passwords.Draws)
    | Reset(email: string, code: string, newPassword: PasswordHash)
    | ChangePassword(user: UserId, current: string, newPassword: PasswordHash)
    | AskChange(user: UserId, target: string, current: string, draws: Passwords.Draws)
    | VerifyChange(user: UserId, code: string)
    | AskSignup(email: string, newPassword: PasswordHash, draw: Option<string>)
    | VerifySignup(email: string, code: string, id: UserId, token: string, family: string, meta: Sessions.Meta)

  datatype Event = Event(op: Op, now: int, faults: set<Call>)

  datatype Config = Config(ttl: int, lockout: Login.Lockout, resetQuota: Quota.Quota, changeQuota: Quota.Quota)

  /** The account a first social login creates: it has no password, and it goes without the
      provider's verified address when a live account owns it. */
  ghost function JoinStep(t: Tables, id: UserId, verified: Option<string>, faults: set<Call>): (Tables, Reply) {
    if faults !! {Begin, Promote, Insert, Commit} && id !in t.users then
      var email := if verified.Some? && Owner(t.users, verified.value).Some? then None else verified;
      (t.(users := t.users[id := User(email, None, true, 0, None, false)]), Done)
    else (t, StoreError)
  }

  /** An administrator edits a user; None leaves the status alone. */
  function AdministerStep(t: Tables, user: UserId, active: Option<bool>, faults: set<Call>): (Tables, Reply) {
    if UpdateUser in faults then (t, StoreError)
    else if !Live(t.users, user) then (t, NotFound)
    else
      var row := t.users[user].(active := if active.Some? then active.value else t.users[user].active);
      (t.(users := t.users[user := row]), if ReadUser in faults then StoreError else Done)
  }

  ghost function Step(cfg: Config, t: Tables, e: Event): (Tables, Reply) {
    match e.op
    case Join(id, verified) => JoinStep(t, id, verified, e.faults)
    case Administer(user, active) => AdministerStep(t, user, active, e.faults)
    case Open(user, token, family, meta) => Sessions.IssueStep(t, user, token, family, meta, cfg.ttl, e.now, e.faults)
    case LogIn(email, plain, token, family, meta) =>
      Login.LoginStep(t, email, plain, cfg.lockout, token, family, meta, cfg.ttl, e.now, e.faults)
    case Refreshing(presented, token, meta) => Sessions.RefreshStep(t, presented, token, meta, cfg.ttl, e.now, e.faults)
    case LogOut(presented) => Sessions.LogoutStep(t, presented, e.now, e.faults)
    case AskReset(email, draws) => Passwords.RequestResetStep(t, email, draws, cfg.resetQuota, e.now, e.faults)
    case Reset(email, code, password) => Passwords.ResetStep(t, email, code, password, e.now, e.faults)
    case ChangePassword(user, current, password) => Passwords.ChangeStep(t, user, current, password, e.now, e.faults)
    case AskChange(user, target, current, draws) =>
      EmailChange.RequestChangeStep(t, user, target, current, draws, cfg.changeQuota, e.now, e.faults)
    case VerifyChange(user, code) => EmailChange.VerifyChangeStep(t, user, code, e.now, e.faults)
    case AskSignup(email, password, draw) => Signup.RequestSignupStep(t, email, password, draw, e.now, e.faults)
    case VerifySignup(email, code, id, token, family, meta) =>
      Signup.VerifySignupStep(t, email, code, id, token, family, meta, cfg.ttl, e.now, e.faults)
  }

  ghost function Run(cfg: Config, t: Tables, es: seq<Event>): Tables {
    if es == [] then t else Step(cfg, Run(cfg, t, es[..|es| - 1]), es[|es| - 1]).0
  }

  ghost predicate Nondecreasing(es: seq<Event>) {
    forall i, j | 0 <= i < j < |es| :: es[i].now <= es[j].now
  }

  // ---------------------------------------------------------------------------
  // What one operation can do to the user table.
  // ---------------------------------------------------------------------------

  /** The failure counter and the lock of one user: untouched, cleared, or one counted
      failure of an account that was not locked. */
  predicate CounterStep(lockout: Login.Lockout, a: User, b: User, now: int) {
    || (b.failed == a.failed && b.lockedUntil == a.lockedUntil)
    || (b.failed == 0 && b.lockedUntil.None?)
    || (!Login.IsLocked(a, now) && b.failed == Login.Failed(a, lockout, now).failed
        && b.lockedUntil == Login.Failed(a, lockout, now).lockedUntil)
  }

  /** Addresses stay with their users, except that user `granted` may take one that no live
      account owns. */
  ghost predicate AddressesStep(users: map<UserId, User>, users': map<UserId, User>, granted: UserId) {
    && users.Keys <= users'.Keys <= users.Keys + {granted}
    && (forall u | u in users ::
          users'[u].deleted == users[u].deleted && (u != granted ==> users'[u].email == users[u].email))
    && (granted in users' ==>
          || (granted in users && users'[granted].email == users[granted].email)
          || users'[granted].email.None?
          || (users'[granted].email.Some? && Owner(users, users'[granted].email.value).None?))
  }

  ghost predicate UsersStep(lockout: Login.Lockout, users: map<UserId, User>, users': map<UserId, User>, now: int) {
    && (exists granted :: AddressesStep(users, users', granted))
    && (forall u | u in users && u in users' :: CounterStep(lockout, users[u], users'[u], now))
    && (forall u | u in users' && u !in users :: users'[u].failed == 0 && users'[u].lockedUntil.None?)
  }

  lemma SameUsers(lockout: Login.Lockout, users: map<UserId, User>, now: int)
    ensures UsersStep(lockout, users, users, now)
  {
    assert AddressesStep(users, users, "");
  }

  /** Writing one row is such a step if the row keeps its address or takes a free one. */
  lemma OneUser(lockout: Login.Lockout, users: map<UserId, User>, u: UserId, row: User, now: int)
    requires u in users ==> row.deleted == users[u].deleted && CounterStep(lockout, users[u], row, now)
    requires u !in users ==> row.failed == 0 && row.lockedUntil.None?
    requires (u in users && row.email == users[u].email) || (row.email.Some? ==> Owner(users, row.email.value).None?)
    ensures UsersStep(lockout, users, users[u := row], now)
  {
    assert AddressesStep(users, users[u := row], u);
  }

  lemma ResetUsers(cfg: Config, t: Tables, email: string, code: string, password: PasswordHash, now: int,
                   faults: set<Call>)
    ensures UsersStep(cfg.lockout, t.users, Passwords.ResetStep(t, email, code, password, now, faults).0.users, now)
  {
    SameUsers(cfg.lockout, t.users, now);
    var users' := Passwords.ResetStep(t, email, code, password, now, faults).0.users;
    if users' != t.users {
      var u := t.codes[Passwords.ResetCode(t, email).value].user;
      assert users' == WithPassword(t.users, u, password);
      OneUser(cfg.lockout, t.users, u, t.users[u].(password := Some(password), failed := 0, lockedUntil := None), now);
    }
  }

  lemma VerifyChangeUsers(cfg: Config, t: Tables, user: UserId, code: string, now: int, faults: set<Call>)
    ensures UsersStep(cfg.lockout, t.users, EmailChange.VerifyChangeStep(t, user, code, now, faults).0.users, now)
  {
    SameUsers(cfg.lockout, t.users, now);
    var users' := EmailChange.VerifyChangeStep(t, user, code, now, faults).0.users;
    if users' != t.users {
      OneUser(cfg.lockout, t.users, user, users'[user], now);
    }
  }

  lemma LoginUsers(cfg: Config, t: Tables, email: string, plain: string, token: string, family: string,
                   meta: Sessions.Meta, now: int, faults: set<Call>)
    ensures UsersStep(cfg.lockout, t.users,
              Login.LoginStep(t, email, plain, cfg.lockout, token, family, meta, cfg.ttl, now, faults).0.users, now)
  {
    SameUsers(cfg.lockout, t.users, now);
    var users' := Login.LoginStep(t, email, plain, cfg.lockout, token, family, meta, cfg.ttl, now, faults).0.users;
    if users' != t.users {
      var u := Owner(t.users, email).value;
      assert users' == t.users[u := users'[u]];
      OneUser(cfg.lockout, t.users, u, users'[u], now);
    }
  }

  lemma SignupUsers(cfg: Config, t: Tables, email: string, code: string, id: UserId, now: int, faults: set<Call>)
    ensures UsersStep(cfg.lockout, t.users, Signup.PromoteStep(t, email, code, id, now, faults).0.users, now)
  {
    SameUsers(cfg.lockout, t.users, now);
    var users' := Signup.PromoteStep(t, email, code, id, now, faults).0.users;
    if users' != t.users {
      OneUser(cfg.lockout, t.users, id, users'[id], now);
    }
  }

  lemma JoinUsers(cfg: Config, t: Tables, id: UserId, verified: Option<string>, now: int, faults: set<Call>)
    ensures UsersStep(cfg.lockout, t.users, JoinStep(t, id, verified, faults).0.users, now)
  {
    SameUsers(cfg.lockout, t.users, now);
    var users' := JoinStep(t, id, verified, faults).0.users;
    if users' != t.users {
      OneUser(cfg.lockout, t.users, id, users'[id], now);
    }
  }

  lemma AdministerUsers(cfg: Config, t: Tables, user: UserId, active: Option<bool>, now: int, faults: set<Call>)
    ensures UsersStep(cfg.lockout, t.users, AdministerStep(t, user, active, faults).0.users, now)
  {
    SameUsers(cfg.lockout, t.users, now);
    var users' := AdministerStep(t, user, active, faults).0.users;
    if users' != t.users {
      OneUser(cfg.lockout, t.users, user, users'[user], now);
    }
  }

  lemma ChangeUsers(cfg: Config, t: Tables, user: UserId, current: string, password: PasswordHash, now: int,
                    faults: set<Call>)
    ensures UsersStep(cfg.lockout, t.users, Passwords.ChangeStep(t, user, current, password, now, faults).0.users, now)
  {
    SameUsers(cfg.lockout, t.users, now);
    var users' := Passwords.ChangeStep(t, user, current, password, now, faults).0.users;
    if users' != t.users {
      OneUser(cfg.lockout, t.users, user, users'[user], now);
    }
  }

  /** Sessions and code requests never write the user table. */
  lemma QuietUsers(cfg: Config, t: Tables, e: Event)
    requires e.op.Open? || e.op.Refreshing? || e.op.LogOut? || e.op.AskReset? || e.op.AskChange? || e.op.AskSignup?
    ensures Step(cfg, t, e).0.users == t.users
  {
  }

  lemma StepUsers(cfg: Config, t: Tables, e: Event)
    ensures UsersStep(cfg.lockout, t.users, Step(cfg, t, e).0.users, e.now)
  {
    match e.op
    case Administer(user, active) => AdministerUsers(cfg, t, user, active, e.now, e.faults);
    case Join(id, verified) => JoinUsers(cfg, t, id, verified, e.now, e.faults);
    case LogIn(email, plain, token, family, meta) => LoginUsers(cfg, t, email, plain, token, family, meta, e.now,
      e.faults);
    case Reset(email, code, password) => ResetUsers(cfg, t, email, code, password, e.now, e.faults);
    case VerifyChange(user, code) => VerifyChangeUsers(cfg, t, user, code, e.now, e.faults);
    case VerifySignup(email, code, id, token, family, meta) => SignupUsers(cfg, t, email, code, id, e.now, e.faults);
    case ChangePassword(user, current, password) => ChangeUsers(cfg, t, user, current, password, e.now, e.faults);
    case _ =>
      QuietUsers(cfg, t, e);
      SameUsers(cfg.lockout, t.users, e.now);
  }

  lemma OwnerExists(users: map<UserId, User>, u: UserId, email: string)
    requires Owns(users, u, email)
    ensures Owner(users, email).Some?
  {
  }

  lemma UniqueStep(users: map<UserId, User>, users': map<UserId, User>, granted: UserId)
    requires UniqueEmails(users) && AddressesStep(users, users', granted)
    ensures UniqueEmails(users')
  {
    forall a, b, email | Owns(users', a, email) && Owns(users', b, email)
      ensures a == b
    {
      if a != granted {
        assert Owns(users, a, email);
        OwnerExists(users, a, email);
      }
      if b != granted {
        assert Owns(users, b, email);
        OwnerExists(users, b, email);
      }
      if granted in users && users'[granted].email == users[granted].email && (a == granted || b == granted) {
        assert Owns(users, granted, email);
      }
    }
  }

  /** The partial unique index on live addresses holds in every reachable state. */
  lemma {:induction false} RunKeepsEmailsUnique(cfg: Config, t: Tables, es: seq<Event>)
    requires UniqueEmails(t.users)
    ensures UniqueEmails(Run(cfg, t, es).users)
  {
    if es != [] {
      var mid := Run(cfg, t, es[..|es| - 1]);
      RunKeepsEmailsUnique(cfg, t, es[..|es| - 1]);
      StepUsers(cfg, mid, es[|es| - 1]);
      var granted :| AddressesStep(mid.users, Run(cfg, t, es).users, granted);
      UniqueStep(mid.users, Run(cfg, t, es).users, granted);
    }
  }
}
