/**
 Recovery codes against what the comments on their table and on the request say: what a request
 reveals, what a new code does to older ones, and what the stored target address is good for.
 */
module RecoveryLaws {
  import opened Prelude
  import opened Store
  import opened Machine
  import CodeLaws
  import Passwords
  import Login
  import Quota

  // ---------------------------------------------------------------------------
  // What a request reveals.
  // ---------------------------------------------------------------------------

  /** While every call succeeds and the drawn code is free, asking for a recovery or signup code
      answers success for a known address, an unknown one and a spent quota alike. */
  lemma RequestsRevealNothing(cfg: Config, t: Tables, e: Event)
    requires e.faults == {}
    requires e.op.AskReset? ==> e.op.draws[0].Some? && !Collides(t.codes, Digest(e.op.draws[0].value))
    requires e.op.AskSignup? ==> e.op.draw.Some?
    ensures e.op.AskReset? || e.op.AskSignup? ==> Step(cfg, t, e).1 == Done
    ensures e.op.AskReset? && Owner(t.users, e.op.email).None? ==> Step(cfg, t, e).0 == t
    ensures e.op.AskSignup? && Owner(t.users, e.op.email).Some? ==> Step(cfg, t, e).0 == t
  {
  }

  /** The request of a user would store a code, as far as the quota goes. */
  ghost predicate Admitted(quota: Quota.Quota, codes: seq<Code>, user: UserId, purpose: Purpose, now: int) {
    quota.Check(now, LastCreated(codes, user, purpose), CountSince(codes, user, purpose, now - quota.Window())).Pass?
  }

  /** Exactly which failures make the answer differ between a database that knows the address
      and one that does not. */
  lemma RequestsTellApartIff(cfg: Config, known: Tables, unknown: Tables, e: Event)
    requires e.op.AskReset? || e.op.AskSignup?
    requires Owner(known.users, e.op.email).Some? && Owner(unknown.users, e.op.email).None?
    ensures Step(cfg, known, e).1 != Step(cfg, unknown, e).1 <==>
            && ReadUser !in e.faults
            && match e.op
               case AskReset(email, draws) =>
                 var user := Owner(known.users, email).value;
                 || ReadLast in e.faults || ReadCount in e.faults
                 || (Admitted(cfg.resetQuota, known.codes, user, PASSWORD_RESET, e.now)
                     && (Publish in e.faults || NoneStored(known.codes, draws, 0, e.faults)))
               case AskSignup(_, _, draw) =>
                 Publish !in e.faults && (HashPassword in e.faults || draw.None? || UpsertPending in e.faults)
  {
    if e.op.AskReset? && Owner(known.users, e.op.email).Some? {
      var user := Owner(known.users, e.op.email).value;
      NoneStoredIff(known.codes, user, e.op.email, e.op.draws, 0, e.now, e.faults);
    }
  }

  /** The code loop from try `i` on stores nothing: it meets a failure before a free code. */
  predicate NoneStored(codes: seq<Code>, draws: Passwords.Draws, i: nat, faults: set<Call>)
    decreases Passwords.MAX_CODE_TRIES - i
  {
    i >= Passwords.MAX_CODE_TRIES || draws[i].None? || StoreCode(i) in faults
    || (Collides(codes, Digest(draws[i].value)) && NoneStored(codes, draws, i + 1, faults))
  }

  lemma {:induction false} NoneStoredIff(codes: seq<Code>, user: UserId, email: string, draws: Passwords.Draws, i: nat,
                                         now: int,
                                         faults: set<Call>)
    ensures Passwords.CreateReset(codes, user, email, draws, i, now, faults).Err? <==>
              NoneStored(codes, draws, i, faults)
    ensures Passwords.CreateReset(codes, user, email, draws, i, now, faults).Err? ==>
              Passwords.CreateReset(codes, user, email, draws, i, now, faults).error == StoreError
    decreases Passwords.MAX_CODE_TRIES - i
  {
    if i < Passwords.MAX_CODE_TRIES {
      NoneStoredIff(codes, user, email, draws, i + 1, now, faults);
    }
  }

  // ---------------------------------------------------------------------------
  // Older codes.
  // ---------------------------------------------------------------------------

  /** Storing a recovery code leaves the older ones as they were, so it is the only unused one
      iff there was none before. */
  lemma NewResetCodeInvalidatesNothing(cfg: Config, t: Tables, e: Event)
    requires e.op.AskReset? && Step(cfg, t, e).0.codes != t.codes
    ensures var (codes', user) := (Step(cfg, t, e).0.codes, Owner(t.users, e.op.email).value);
            && |codes'| == |t.codes| + 1 && codes'[..|t.codes|] == t.codes
            && IsFor(codes'[|t.codes|], user, PASSWORD_RESET) && codes'[|t.codes|].usedAt.None?
            && ((forall i | 0 <= i < |t.codes| && IsFor(codes'[i], user, PASSWORD_RESET) :: codes'[i].usedAt.Some?) <==>
                NewestUnused(t.codes, user, PASSWORD_RESET).None?)
  {
    var user := Owner(t.users, e.op.email).value;
    var code := CodeLaws.CreateResetShape(t.codes, user, e.op.email, e.op.draws, 0, e.now, e.faults);
    assert Step(cfg, t, e).0.codes == Passwords.WithCode(t.codes, user, PASSWORD_RESET, e.op.email, code, e.now);
  }

  lemma SameOwner(users: map<UserId, User>, users': map<UserId, User>, email: string, user: UserId)
    requires UniqueEmails(users) && Owner(users, email) == Some(user)
    requires forall u :: Owns(users', u, email) <==> Owns(users, u, email)
    ensures Owner(users', email) == Some(user)
  {
    assert Owns(users', user, email);
  }

  predicate Spendable(c: Code, now: int) {
    c.usedAt.None? && c.attempts < Passwords.MAX_ATTEMPTS && now < c.expiresAt
  }

  /** Some code resets the password of the account owning the address, if no call fails. */
  ghost predicate CanReset(t: Tables, email: string, password: PasswordHash, now: int) {
    exists code :: Passwords.ResetStep(t, email, code, password, now, {}).1 == Done
  }

  lemma CanResetIff(t: Tables, email: string, password: PasswordHash, now: int)
    ensures CanReset(t, email, password, now) <==>
            Passwords.ResetCode(t, email).Some? && Spendable(t.codes[Passwords.ResetCode(t, email).value], now)
  {
    var found := Passwords.ResetCode(t, email);
    if found.Some? && Spendable(t.codes[found.value], now) {
      assert Passwords.ResetStep(t, email, t.codes[found.value].hash.of, password, now, {}).1 == Done;
    }
  }

  /** Once the newest code is spent, the account's code is an older unused one, if there is any. */
  lemma OlderResetCodeIsNext(cfg: Config, t: Tables, e: Event)
    requires e.op.Reset? && UniqueEmails(t.users) && Step(cfg, t, e).1 == Done
    ensures var (t', user, spent) := (Step(cfg, t, e).0, Owner(t.users, e.op.email).value,
              Passwords.ResetCode(t, e.op.email).value);
            && (Passwords.ResetCode(t', e.op.email).Some? <==>
                exists j | 0 <= j < |t.codes| ::
                  j != spent && IsFor(t.codes[j], user, PASSWORD_RESET) && t.codes[j].usedAt.None?)
            && (Passwords.ResetCode(t', e.op.email).Some? ==>
                  var j := Passwords.ResetCode(t', e.op.email).value;
                  j != spent && t.codes[j] == t'.codes[j] && t.codes[j].createdAt <= t.codes[spent].createdAt)
  {
    var t' := Step(cfg, t, e).0;
    var user, spent := Owner(t.users, e.op.email).value, Passwords.ResetCode(t, e.op.email).value;
    assert forall u :: Owns(t'.users, u, e.op.email) <==> Owns(t.users, u, e.op.email);
    SameOwner(t.users, t'.users, e.op.email, user);
    assert forall j | 0 <= j < |t.codes| :: j != spent ==> t'.codes[j] == t.codes[j];
  }

  /** So after a reset the account can be reset again, with no new code asked for, iff an older
      unused code is left and the one found next is neither expired nor out of attempts. */
  lemma OlderResetCodeComesBack(cfg: Config, t: Tables, e: Event, password: PasswordHash, later: int)
    requires e.op.Reset? && UniqueEmails(t.users) && Step(cfg, t, e).1 == Done
    ensures var (t', user, spent) := (Step(cfg, t, e).0, Owner(t.users, e.op.email).value,
              Passwords.ResetCode(t, e.op.email).value);
            CanReset(t', e.op.email, password, later) <==>
            && (exists j | 0 <= j < |t.codes| ::
              j != spent && IsFor(t.codes[j], user, PASSWORD_RESET) && t.codes[j].usedAt.None?)
            && Passwords.ResetCode(t', e.op.email).Some?
            && Spendable(t.codes[Passwords.ResetCode(t', e.op.email).value], later)
  {
    OlderResetCodeIsNext(cfg, t, e);
    CanResetIff(Step(cfg, t, e).0, e.op.email, password, later);
  }

  // ---------------------------------------------------------------------------
  // Target addresses.
  // ---------------------------------------------------------------------------

  /** The codes are the same but for the addresses they were sent to. */
  ghost predicate SameButTargets(a: seq<Code>, b: seq<Code>) {
    |a| == |b| && forall i | 0 <= i < |a| :: b[i] == a[i].(target := b[i].target)
  }

  lemma {:induction false} NewestIgnoresTargets(a: seq<Code>, b: seq<Code>, user: UserId, purpose: Purpose)
    requires SameButTargets(a, b)
    ensures NewestUnused(a, user, purpose) == NewestUnused(b, user, purpose)
  {
    if a != [] {
      NewestIgnoresTargets(a[..|a| - 1], b[..|b| - 1], user, purpose);
    }
  }

  lemma ResetCodeIgnoresTargets(t: Tables, codes: seq<Code>, email: string)
    requires SameButTargets(t.codes, codes)
    ensures Passwords.ResetCode(t.(codes := codes), email) == Passwords.ResetCode(t, email)
  {
    if Owner(t.users, email).Some? {
      NewestIgnoresTargets(t.codes, codes, Owner(t.users, email).value, PASSWORD_RESET);
    }
  }

  /** Spending a recovery code never looks at the address the code was sent to: the answer and
      the effect are the same whatever address is stored with any code. */
  lemma ResetIgnoresTargets(cfg: Config, t: Tables, codes: seq<Code>, e: Event)
    requires e.op.Reset? && SameButTargets(t.codes, codes)
    ensures var (a, b) := (Step(cfg, t, e), Step(cfg, t.(codes := codes), e));
            a.1 == b.1 && a.0.users == b.0.users && a.0.refresh == b.0.refresh && SameButTargets(a.0.codes, b.0.codes)
  {
    ResetCodeIgnoresTargets(t, codes, e.op.email);
    var found := Passwords.ResetCode(t, e.op.email);
    if found.Some? {
      assert codes[found.value] == t.codes[found.value].(target := codes[found.value].target);
    }
  }

  /** The operation moves the user's account to another address. */
  ghost predicate Moves(cfg: Config, t: Tables, e: Event, user: UserId) {
    e.op.VerifyChange? && e.op.user == user && Step(cfg, t, e).1 == Done
  }

  /** The address it moves to: the target of the change code it spends. */
  ghost function MovedTo(cfg: Config, t: Tables, e: Event, user: UserId): string
    requires Moves(cfg, t, e, user)
  {
    t.codes[NewestUnused(t.codes, user, EMAIL_CHANGE).value].target
  }

  ghost predicate EmailsKept(users: map<UserId, User>, users': map<UserId, User>) {
    forall u | u in users :: u in users' && users'[u].email == users[u].email
  }

  lemma LogInKeepsEmails(cfg: Config, t: Tables, e: Event)
    requires e.op.LogIn? || e.op.Join? || e.op.Administer?
    ensures EmailsKept(t.users, Step(cfg, t, e).0.users)
  {
  }

  lemma PasswordsKeepEmails(cfg: Config, t: Tables, e: Event)
    requires e.op.Reset? || e.op.ChangePassword?
    ensures EmailsKept(t.users, Step(cfg, t, e).0.users)
  {
  }

  lemma SignupKeepsEmails(cfg: Config, t: Tables, e: Event)
    requires e.op.VerifySignup?
    ensures EmailsKept(t.users, Step(cfg, t, e).0.users)
  {
  }

  lemma VerifyMovesOneEmail(cfg: Config, t: Tables, e: Event, user: UserId)
    requires e.op.VerifyChange? && user in t.users
    ensures var users' := Step(cfg, t, e).0.users;
            && user in users'
            && users'[user].email == if Moves(cfg, t, e, user) then Some(MovedTo(cfg, t, e, user))
              else t.users[user].email
  {
  }

  /** An account's address changes only when an address change of it takes effect. */
  lemma AddressStep(cfg: Config, t: Tables, e: Event, user: UserId)
    requires user in t.users
    ensures var users' := Step(cfg, t, e).0.users;
            && user in users'
            && users'[user].email == if Moves(cfg, t, e, user) then Some(MovedTo(cfg, t, e, user))
              else t.users[user].email
  {
    match e.op
    case Administer(_, _) => LogInKeepsEmails(cfg, t, e);
    case Join(_, _) => LogInKeepsEmails(cfg, t, e);
    case LogIn(_, _, _, _, _) => LogInKeepsEmails(cfg, t, e);
    case Reset(_, _, _) => PasswordsKeepEmails(cfg, t, e);
    case ChangePassword(_, _, _) => PasswordsKeepEmails(cfg, t, e);
    case VerifySignup(_, _, _, _, _, _) => SignupKeepsEmails(cfg, t, e);
    case VerifyChange(_, _) => VerifyMovesOneEmail(cfg, t, e, user);
    case _ => QuietUsers(cfg, t, e);
  }

  /** Every code keeps its user, purpose and target; a new recovery code carries the address its
      user has. */
  ghost predicate TargetsKept(t: Tables, t': Tables) {
    && |t.codes| <= |t'.codes| <= |t.codes| + 1
    && (forall i | 0 <= i < |t.codes| ::
          && t'.codes[i].user == t.codes[i].user && t'.codes[i].purpose == t.codes[i].purpose
          && t'.codes[i].target == t.codes[i].target)
    && (|t'.codes| > |t.codes| && t'.codes[|t.codes|].purpose == PASSWORD_RESET ==>
          Owns(t'.users, t'.codes[|t.codes|].user, t'.codes[|t.codes|].target))
  }

  lemma AskResetTargets(cfg: Config, t: Tables, e: Event)
    requires e.op.AskReset?
    ensures TargetsKept(t, Step(cfg, t, e).0)
  {
    if Step(cfg, t, e).0.codes != t.codes {
      NewResetCodeInvalidatesNothing(cfg, t, e);
      NewResetCodeTarget(cfg, t, e);
      QuietUsers(cfg, t, e);
    }
  }

  lemma AskChangeTargets(cfg: Config, t: Tables, e: Event)
    requires e.op.AskChange?
    ensures TargetsKept(t, Step(cfg, t, e).0)
  {
    if Step(cfg, t, e).0.codes != t.codes {
      var code := CodeLaws.CreateChangeShape(t.codes, e.op.user, e.op.target, e.op.draws, 0, e.now, e.faults);
    }
  }

  lemma TargetStep(cfg: Config, t: Tables, e: Event)
    ensures TargetsKept(t, Step(cfg, t, e).0)
  {
    if e.op.AskReset? {
      AskResetTargets(cfg, t, e);
    } else if e.op.AskChange? {
      AskChangeTargets(cfg, t, e);
    } else {
      CodeLaws.StepCodes(cfg, t, e);
      NoNewCode(cfg, t, e);
    }
  }

  lemma NoNewCode(cfg: Config, t: Tables, e: Event)
    requires !e.op.AskReset? && !e.op.AskChange?
    ensures |Step(cfg, t, e).0.codes| == |t.codes|
  {
    if e.op.LogIn? || e.op.VerifySignup? || e.op.Open? {
      SessionsKeepCodes(cfg, t, e);
    } else if e.op.Reset? || e.op.VerifyChange? {
      SpendingAddsNoCode(cfg, t, e);
    }
  }

  lemma SessionsKeepCodes(cfg: Config, t: Tables, e: Event)
    requires e.op.LogIn? || e.op.VerifySignup? || e.op.Open?
    ensures Step(cfg, t, e).0.codes == t.codes
  {
  }

  lemma SpendingAddsNoCode(cfg: Config, t: Tables, e: Event)
    requires e.op.Reset? || e.op.VerifyChange?
    ensures |Step(cfg, t, e).0.codes| == |t.codes|
  {
  }

  lemma NewResetCodeTarget(cfg: Config, t: Tables, e: Event)
    requires e.op.AskReset? && Step(cfg, t, e).0.codes != t.codes
    ensures |Step(cfg, t, e).0.codes| == |t.codes| + 1
    ensures var c := Step(cfg, t, e).0.codes[|t.codes|];
            c.target == e.op.email && Owner(t.users, e.op.email) == Some(c.user)
  {
    var user := Owner(t.users, e.op.email).value;
    var code := CodeLaws.CreateResetShape(t.codes, user, e.op.email, e.op.draws, 0, e.now, e.faults);
  }

  /** The address the owner of code `i` last moved to since the code was created, if any. */
  ghost function MovedSince(cfg: Config, t: Tables, es: seq<Event>, i: nat): Option<string> {
    if es == [] then None
    else
      var before, mid, last := es[..|es| - 1], Run(cfg, t, es[..|es| - 1]), es[|es| - 1];
      if i >= |mid.codes| then None
      else if Moves(cfg, mid, last, mid.codes[i].user) then Some(MovedTo(cfg, mid, last, mid.codes[i].user))
      else MovedSince(cfg, t, before, i)
  }

  /** The owner of the code is where he last moved to, or else where the code was sent. */
  ghost predicate Addressed(users: map<UserId, User>, c: Code, moved: Option<string>) {
    c.user in users && users[c.user].email == if moved.Some? then moved else Some(c.target)
  }

  lemma AddressedNext(t: Tables, t': Tables, i: nat, moved: Option<string>, move: Option<string>)
    requires TargetsKept(t, t') && i < |t'.codes| && t'.codes[i].purpose == PASSWORD_RESET
    requires i < |t.codes| ==>
               && Addressed(t.users, t.codes[i], moved) && t.codes[i].user in t'.users
               && t'.users[t.codes[i].user].email == if move.Some? then move else t.users[t.codes[i].user].email
    ensures Addressed(t'.users, t'.codes[i], if i >= |t.codes| then None else if move.Some? then move else moved)
  {
  }

  /** Over every run a recovery code carries the address its user had when it was created: the
      user is still there unless he moved since, and then he is where he last moved to. */
  lemma {:induction false} TargetIsAddressAtCreation(cfg: Config, t: Tables, es: seq<Event>, i: nat)
    requires t.codes == [] && i < |Run(cfg, t, es).codes| && Run(cfg, t, es).codes[i].purpose == PASSWORD_RESET
    ensures Addressed(Run(cfg, t, es).users, Run(cfg, t, es).codes[i], MovedSince(cfg, t, es, i))
  {
    var before, last := es[..|es| - 1], es[|es| - 1];
    var mid, moved, move := Run(cfg, t, before), MovedSince(cfg, t, before, i), None;
    TargetStep(cfg, mid, last);
    if i < |mid.codes| {
      var user := mid.codes[i].user;
      TargetIsAddressAtCreation(cfg, t, before, i);
      AddressStep(cfg, mid, last, user);
      move := if Moves(cfg, mid, last, user) then Some(MovedTo(cfg, mid, last, user)) else None;
    }
    AddressedNext(mid, Run(cfg, t, es), i, moved, move);
  }

  /** When a reset meets the comment on the target column: the code it spends was sent to the
      account's present address iff no address change of the account took effect since the code
      was created, or the last one moved it back. */
  lemma ResetHonoursTargetIff(cfg: Config, t: Tables, es: seq<Event>, e: Event)
    requires t.codes == [] && e.op.Reset? && Step(cfg, Run(cfg, t, es), e).1 == Done
    ensures var mid := Run(cfg, t, es);
            Passwords.ResetCode(mid, e.op.email).Some? &&
            var i := Passwords.ResetCode(mid, e.op.email).value;
            mid.codes[i].target == e.op.email <==>
            MovedSince(cfg, t, es, i).None? || MovedSince(cfg, t, es, i) == Some(mid.codes[i].target)
  {
    var mid := Run(cfg, t, es);
    TargetIsAddressAtCreation(cfg, t, es, Passwords.ResetCode(mid, e.op.email).value);
  }

  /** A used code stays used, and a spent one is used. */
  lemma SpentIsUsed(cfg: Config, t: Tables, e: Event, i: nat)
    requires i < |t.codes|
    ensures var codes' := Step(cfg, t, e).0.codes;
            && i < |codes'|
            && (codes'[i].usedAt.None? ==> t.codes[i].usedAt.None?)
            && (Moves(cfg, t, e, t.codes[i].user) && NewestUnused(t.codes, t.codes[i].user, EMAIL_CHANGE) == Some(i) ==>
                  codes'[i].usedAt.Some?)
  {
    CodeLaws.StepCodes(cfg, t, e);
  }

  /** Over every run the account of an unused change code has not moved since the code was
      created: another change code of the user would have replaced it. */
  lemma {:induction false} UnusedChangeIsCurrent(cfg: Config, t: Tables, es: seq<Event>, i: nat)
    requires t.codes == [] && i < |Run(cfg, t, es).codes|
    requires Run(cfg, t, es).codes[i].purpose == EMAIL_CHANGE && Run(cfg, t, es).codes[i].usedAt.None?
    ensures MovedSince(cfg, t, es, i).None?
  {
    var before, last := es[..|es| - 1], es[|es| - 1];
    var mid := Run(cfg, t, before);
    if i < |mid.codes| {
      SamePurpose(cfg, mid, last, i);
      SpentIsUsed(cfg, mid, last, i);
      UnusedChangeIsCurrent(cfg, t, before, i);
      CodeLaws.AtMostOneUnusedChange(cfg, t, before);
      if Moves(cfg, mid, last, mid.codes[i].user) {
        OneCandidate(mid.codes, i);
      }
    }
  }

  lemma SamePurpose(cfg: Config, t: Tables, e: Event, i: nat)
    requires i < |t.codes|
    ensures i < |Step(cfg, t, e).0.codes| && Step(cfg, t, e).0.codes[i].purpose == t.codes[i].purpose
  {
    TargetStep(cfg, t, e);
  }

  lemma OneCandidate(codes: seq<Code>, i: nat)
    requires i < |codes| && codes[i].purpose == EMAIL_CHANGE && codes[i].usedAt.None? && CodeLaws.OneUnusedChange(codes)
    ensures NewestUnused(codes, codes[i].user, EMAIL_CHANGE) == Some(i)
  {
  }

  /** So for address changes the comment holds, by invalidation: the code a verification spends
      was created after the account's last move, at the account's present address. */
  lemma ChangeHonoursAddress(cfg: Config, t: Tables, es: seq<Event>, e: Event)
    requires t.codes == [] && e.op.VerifyChange? && Step(cfg, Run(cfg, t, es), e).1 == Done
    ensures var mid := Run(cfg, t, es);
            && NewestUnused(mid.codes, e.op.user, EMAIL_CHANGE).Some?
            && MovedSince(cfg, t, es, NewestUnused(mid.codes, e.op.user, EMAIL_CHANGE).value).None?
  {
    UnusedChangeIsCurrent(cfg, t, es, NewestUnused(Run(cfg, t, es).codes, e.op.user, EMAIL_CHANGE).value);
  }

  // ---------------------------------------------------------------------------
  // Runs that show both.
  // ---------------------------------------------------------------------------

  const DEFAULTS := Config(0, Login.Lockout(0, 0), Quota.Quota(0, 0, 0), Quota.Quota(0, 0, 0))

  function Draw(code: string): Passwords.Draws {
    [Some(code), None, None]
  }

  function Account(email: string): User {
    User(Some(email), Some(Hashed("pw", 0)), true, 0, None, false)
  }

  /** One account, u, with an address and the given codes. */
  function OneAccount(email: string, codes: seq<Code>): Tables {
    Tables(map["u" := Account(email)], map[], codes, map[])
  }

  function Sent(purpose: Purpose, code: string, target: string, at: int): Code {
    Code("u", purpose, Digest(code), target, 0, at, at + Passwords.CODE_LIFETIME, None)
  }

  lemma TheOwner(email: string, other: string)
    ensures Owner(map["u" := Account(email)], email) == Some("u")
    ensures other != email ==> Owner(map["u" := Account(email)], other).None?
  {
    assert Owns(map["u" := Account(email)], "u", email);
  }

  lemma AskResetStores(email: string, codes: seq<Code>, code: string, now: int)
    requires Admitted(DEFAULTS.resetQuota, codes, "u", PASSWORD_RESET, now) && !Collides(codes, Digest(code))
    ensures Step(DEFAULTS, OneAccount(email, codes), Event(AskReset(email, Draw(code)), now, {})).0 ==
            OneAccount(email, codes + [Sent(PASSWORD_RESET, code, email, now)])
  {
    TheOwner(email, email);
  }

  lemma AskChangeStores(email: string, target: string, codes: seq<Code>, code: string, now: int)
    requires Admitted(DEFAULTS.changeQuota, codes, "u", EMAIL_CHANGE, now) && !Collides(codes, Digest(code))
             && target != email
    ensures Step(DEFAULTS, OneAccount(email, codes), Event(AskChange("u", target, "pw", Draw(code)), now, {})).0 ==
            OneAccount(email, Invalidated(codes, "u", EMAIL_CHANGE, now) + [Sent(EMAIL_CHANGE, code, target, now)])
  {
    TheOwner(email, target);
  }

  lemma RunNext(t: Tables, es: seq<Event>, e: Event)
    ensures Run(DEFAULTS, t, es + [e]) == Step(DEFAULTS, Run(DEFAULTS, t, es), e).0
  {
    assert (es + [e])[..|es|] == es;
  }

  lemma VerifyMoves(email: string, target: string, codes: seq<Code>, i: nat, now: int)
    requires NewestUnused(codes, "u", EMAIL_CHANGE) == Some(i)
    requires Spendable(codes[i], now) && codes[i].target == target != email
    ensures Step(DEFAULTS, OneAccount(email, codes), Event(VerifyChange("u", codes[i].hash.of), now, {})).0 ==
            OneAccount(target, codes[i := codes[i].(usedAt := Some(now))])
  {
    TheOwner(email, target);
    assert UserRevoked(map[], "u", now) == map[];
  }

  lemma ResetAnswersDone(email: string, codes: seq<Code>, i: nat, password: PasswordHash, now: int)
    requires NewestUnused(codes, "u", PASSWORD_RESET) == Some(i) && Spendable(codes[i], now)
    ensures var (t', reply) := Step(DEFAULTS, OneAccount(email, codes),
              Event(Reset(email, codes[i].hash.of, password), now, {}));
            && reply == Done && t'.codes == codes[i := codes[i].(usedAt := Some(now))]
            && t'.users == map["u" := Account(email).(password := Some(password))]
  {
    TheOwner(email, email);
  }

  /** A recovery code sent to a@x still resets the password after the account moved to b@x. */
  function StaleTarget(): seq<Event> {
    [Event(AskReset("a@x", Draw("1")), 0, {}), Event(AskChange("u", "b@x", "pw", Draw("2")), 1, {}),
     Event(VerifyChange("u", "2"), 2, {})]
  }

  const STALE := Sent(PASSWORD_RESET, "1", "a@x", 0)
  const CHANGE := Sent(EMAIL_CHANGE, "2", "b@x", 1)

  lemma CodesAreAsked()
    ensures var t := OneAccount("a@x", []);
            Step(DEFAULTS, Step(DEFAULTS, t, StaleTarget()[0]).0, StaleTarget()[1]).0 ==
              OneAccount("a@x", [STALE, CHANGE])
  {
    AskResetStores("a@x", [], "1", 0);
    AskChangeStores("a@x", "b@x", [STALE], "2", 1);
    assert Invalidated([STALE], "u", EMAIL_CHANGE, 1) == [STALE];
  }

  lemma AddressIsMoved()
    ensures Step(DEFAULTS, OneAccount("a@x", [STALE, CHANGE]), StaleTarget()[2]).0 ==
            OneAccount("b@x", [STALE, CHANGE.(usedAt := Some(2))])
  {
    var codes := [STALE, CHANGE];
    VerifyMoves("a@x", "b@x", codes, 1, 2);
    assert codes[1 := CHANGE.(usedAt := Some(2))] == [STALE, CHANGE.(usedAt := Some(2))];
  }

  lemma StaleTargetRun()
    ensures Run(DEFAULTS, OneAccount("a@x", []), StaleTarget()) ==
              OneAccount("b@x", [STALE, CHANGE.(usedAt := Some(2))])
  {
    CodesAreAsked();
    AddressIsMoved();
    RunThree(OneAccount("a@x", []), StaleTarget()[0], StaleTarget()[1], StaleTarget()[2]);
  }

  lemma StaleTargetIsAccepted(password: PasswordHash)
    ensures var mid := Run(DEFAULTS, OneAccount("a@x", []), StaleTarget());
            && Owns(mid.users, "u", "b@x")
            && Passwords.ResetCode(mid, "b@x") == Some(0) && mid.codes[0].target == "a@x"
            && Step(DEFAULTS, mid, Event(Reset("b@x", "1", password), 3, {})).1 == Done
  {
    StaleTargetRun();
    TheOwner("b@x", "b@x");
    ResetAnswersDone("b@x", [STALE, CHANGE.(usedAt := Some(2))], 0, password, 3);
  }

  lemma RunThree(t: Tables, a: Event, b: Event, c: Event)
    ensures Run(DEFAULTS, t, [a, b, c]) == Step(DEFAULTS, Step(DEFAULTS, Step(DEFAULTS, t, a).0, b).0, c).0
  {
    assert [] + [a] == [a] && [a] + [b] == [a, b] && [a, b] + [c] == [a, b, c];
    RunNext(t, [], a);
    RunNext(t, [a], b);
    RunNext(t, [a, b], c);
  }

  /** Two codes are asked for a minute apart, and the newer one is spent. */
  function NewerSpent(password: PasswordHash): seq<Event> {
    [Event(AskReset("a@x", Draw("1")), 0, {}), Event(AskReset("a@x", Draw("2")), MINUTE, {}),
     Event(Reset("a@x", "2", password), MINUTE + 1, {})]
  }

  const NEWER := Sent(PASSWORD_RESET, "2", "a@x", MINUTE)

  lemma BothAreAsked(password: PasswordHash)
    ensures var (t, es) := (OneAccount("a@x", []), NewerSpent(password));
            Step(DEFAULTS, Step(DEFAULTS, t, es[0]).0, es[1]).0 == OneAccount("a@x", [STALE, NEWER])
  {
    AskResetStores("a@x", [], "1", 0);
    AskResetStores("a@x", [STALE], "2", MINUTE);
  }

  lemma NewerSpentRun(password: PasswordHash)
    ensures var mid := Run(DEFAULTS, OneAccount("a@x", []), NewerSpent(password));
            && mid.codes == [STALE, NEWER.(usedAt := Some(MINUTE + 1))]
            && mid.users == map["u" := Account("a@x").(password := Some(password))]
  {
    var es, codes := NewerSpent(password), [STALE, NEWER];
    BothAreAsked(password);
    RunThree(OneAccount("a@x", []), es[0], es[1], es[2]);
    ResetAnswersDone("a@x", codes, 1, password, MINUTE + 1);
    assert codes[1 := NEWER.(usedAt := Some(MINUTE + 1))] == [STALE, NEWER.(usedAt := Some(MINUTE + 1))];
  }

  lemma OlderCodeResets(t: Tables, user: User, other: PasswordHash, now: int)
    requires t.codes == [STALE, NEWER.(usedAt := Some(MINUTE + 1))] && t.users == map["u" := user]
    requires user.email == Some("a@x") && !user.deleted
    ensures Passwords.ResetCode(t, "a@x") == Some(0)
    ensures CanReset(t, "a@x", other, now) <==> now < Passwords.CODE_LIFETIME
    ensures Passwords.ResetStep(t, "a@x", "1", other, now, {}).1 == Done <==> now < Passwords.CODE_LIFETIME
  {
    assert Owns(t.users, "u", "a@x");
    assert NewestUnused(t.codes, "u", PASSWORD_RESET) == Some(0);
    CanResetIff(t, "a@x", other, now);
  }

  /** Then the older one resets the password once more, until it expires: from then on it is
      still the account's code, but no code resets the password. */
  lemma OlderCodeIsSpentAfterNewer(password: PasswordHash, other: PasswordHash, now: int)
    ensures var mid := Run(DEFAULTS, OneAccount("a@x", []), NewerSpent(password));
            && Passwords.ResetCode(mid, "a@x") == Some(0)
            && (Passwords.ResetStep(mid, "a@x", "1", other, now, {}).1 == Done <==> now < Passwords.CODE_LIFETIME)
            && (CanReset(mid, "a@x", other, now) <==> now < Passwords.CODE_LIFETIME)
  {
    NewerSpentRun(password);
    OlderCodeResets(Run(DEFAULTS, OneAccount("a@x", []), NewerSpent(password)),
      Account("a@x").(password := Some(password)), other, now);
  }

  lemma AskedOnce()
    ensures Run(DEFAULTS, OneAccount("a@x", []), [Event(AskReset("a@x", Draw("1")), 0, {})]) ==
              OneAccount("a@x", [STALE])
  {
    var ask := Event(AskReset("a@x", Draw("1")), 0, {});
    AskResetStores("a@x", [], "1", 0);
    assert [] + [ask] == [ask];
    RunNext(OneAccount("a@x", []), [], ask);
  }

  /** From the empty code table: one code is asked for, and then any number of wrong ones is
      compared at one instant, because the store records none. */
  lemma ComparisonsAreUnbounded(password: PasswordHash, n: nat)
    ensures var mid := Run(DEFAULTS, OneAccount("a@x", []), [Event(AskReset("a@x", Draw("1")), 0, {})]);
            var guess := Event(Reset("a@x", "2", password), 1, {RecordAttempt});
            && CodeLaws.ComparedIn(DEFAULTS, mid, CodeLaws.Repeated(guess, n), "u", PASSWORD_RESET, 1, 1) == n
            && Run(DEFAULTS, mid, CodeLaws.Repeated(guess, n)) == mid
  {
    var guess := Event(Reset("a@x", "2", password), 1, {RecordAttempt});
    AskedOnce();
    OneCodeIsCompared(guess);
    CodeLaws.UnrecordedGuessesRepeat(DEFAULTS, OneAccount("a@x", [STALE]), guess, n, "u", PASSWORD_RESET, 1, 1);
  }

  lemma OneCodeIsCompared(e: Event)
    requires e.op.Reset? && e.op.email == "a@x" && e.op.code == "2" && e.now == 1 && e.faults == {RecordAttempt}
    ensures CodeLaws.Compared(OneAccount("a@x", [STALE]), e) == Some(0)
    ensures CodeLaws.WrongGuess(OneAccount("a@x", [STALE]), e)
  {
    TheOwner("a@x", "a@x");
    assert NewestUnused([STALE], "u", PASSWORD_RESET) == Some(0);
  }
}
