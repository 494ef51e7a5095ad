/** What refresh-token families promise over every run of the service. */
module FamilyLaws {
  import opened Prelude
  import opened Store
  import opened Machine
  import Sessions
  import Signup

  type Rows = map<Digest, Refresh>

  ghost predicate Known(r: Rows, family: string) {
    exists h | h in r :: r[h].family == family
  }

  /** No token of the family is live. */
  ghost predicate Dead(r: Rows, family: string) {
    forall h | h in r && r[h].family == family :: r[h].revokedAt.Some?
  }

  ghost predicate OneOwner(r: Rows) {
    forall a, b | a in r && b in r && r[a].family == r[b].family :: r[a].user == r[b].user
  }

  ghost predicate OneLive(r: Rows) {
    forall a, b | a in r && b in r && r[a].family == r[b].family && r[a].revokedAt.None? && r[b].revokedAt.None? ::
      a == b
  }

  // ---------------------------------------------------------------------------
  // What one operation can do to the token table.
  // ---------------------------------------------------------------------------

  ghost predicate Revokes(r: Rows, r': Rows, now: int) {
    r'.Keys == r.Keys && forall h | h in r :: r'[h] == r[h] || r'[h] == RevokedAt(r[h], now)
  }

  ghost predicate Opens(r: Rows, r': Rows, h: Digest, row: Refresh) {
    h !in r && r' == r[h := row] && row.revokedAt.None? && !Known(r, row.family)
  }

  ghost predicate Rotates(r: Rows, r': Rows, p: Digest, h: Digest, row: Refresh, now: int) {
    && p in r && h !in r && r[p].revokedAt.None?
    && row.revokedAt.None? && row.family == r[p].family && row.user == r[p].user
    && r' == r[p := RevokedAt(r[p], now)][h := row]
  }

  ghost predicate TokenStep(r: Rows, r': Rows, now: int) {
    || Revokes(r, r', now)
    || (exists h, row :: Opens(r, r', h, row))
    || (exists p, h, row :: Rotates(r, r', p, h, row, now))
  }

  /** Family ids are fresh random values. */
  ghost predicate FreshFamily(t: Tables, e: Event) {
    match e.op
    case Open(_, _, family, _) => !Known(t.refresh, family)
    case LogIn(_, _, _, family, _) => !Known(t.refresh, family)
    case VerifySignup(_, _, _, _, family, _) => !Known(t.refresh, family)
    case _ => true
  }

  ghost predicate FreshRun(cfg: Config, t: Tables, es: seq<Event>) {
    es == [] || (FreshRun(cfg, t, es[..|es| - 1]) && FreshFamily(Run(cfg, t, es[..|es| - 1]), es[|es| - 1]))
  }

  lemma IssueTokens(t: Tables, user: UserId, token: string, family: string, meta: Sessions.Meta, ttl: int, now: int,
                    faults: set<Call>)
    requires !Known(t.refresh, family)
    ensures TokenStep(t.refresh, Sessions.IssueStep(t, user, token, family, meta, ttl, now, faults).0.refresh, now)
  {
    var r' := Sessions.IssueStep(t, user, token, family, meta, ttl, now, faults).0.refresh;
    if r' != t.refresh {
      assert Opens(t.refresh, r', Digest(token), Refresh(user, family, meta.device, meta.ip, now + ttl, None));
    }
  }

  lemma RefreshTokens(t: Tables, presented: string, token: string, meta: Sessions.Meta, ttl: int, now: int,
                      faults: set<Call>)
    ensures TokenStep(t.refresh, Sessions.RefreshStep(t, presented, token, meta, ttl, now, faults).0.refresh, now)
  {
    var r' := Sessions.RefreshStep(t, presented, token, meta, ttl, now, faults).0.refresh;
    var p := Digest(presented);
    if Digest(token) !in t.refresh && Digest(token) in r' {
      assert Rotates(t.refresh, r', p, Digest(token), r'[Digest(token)], now);
    }
  }

  lemma LogInTokens(cfg: Config, t: Tables, e: Event)
    requires e.op.LogIn? && FreshFamily(t, e)
    ensures TokenStep(t.refresh, Step(cfg, t, e).0.refresh, e.now)
  {
    var o := Owner(t.users, e.op.email);
    if o.Some? {
      var u := t.users[o.value];
      IssueTokens(t.(users := t.users[o.value := u.(failed := 0, lockedUntil := None)]), o.value, e.op.token,
        e.op.family, e.op.meta, cfg.ttl, e.now, e.faults);
    }
  }

  lemma SignupTokens(cfg: Config, t: Tables, e: Event)
    requires e.op.VerifySignup? && FreshFamily(t, e)
    ensures TokenStep(t.refresh, Step(cfg, t, e).0.refresh, e.now)
  {
    IssueTokens(Signup.PromoteStep(t, e.op.email, e.op.code, e.op.id, e.now, e.faults).0, e.op.id, e.op.token,
      e.op.family, e.op.meta, cfg.ttl, e.now, e.faults);
  }

  lemma LogOutTokens(cfg: Config, t: Tables, e: Event)
    requires e.op.LogOut? || e.op.ChangePassword?
    ensures Revokes(t.refresh, Step(cfg, t, e).0.refresh, e.now)
  {
  }

  lemma CodeUseTokens(cfg: Config, t: Tables, e: Event)
    requires e.op.Reset? || e.op.VerifyChange?
    ensures Revokes(t.refresh, Step(cfg, t, e).0.refresh, e.now)
  {
  }

  lemma StepTokens(cfg: Config, t: Tables, e: Event)
    requires FreshFamily(t, e)
    ensures TokenStep(t.refresh, Step(cfg, t, e).0.refresh, e.now)
  {
    match e.op
    case Open(user, token, family, meta) =>
      IssueTokens(t, user, token, family, meta, cfg.ttl, e.now, e.faults);
    case LogIn(_, _, _, _, _) => LogInTokens(cfg, t, e);
    case Refreshing(presented, token, meta) =>
      RefreshTokens(t, presented, token, meta, cfg.ttl, e.now, e.faults);
    case VerifySignup(_, _, _, _, _, _) => SignupTokens(cfg, t, e);
    case Administer(_, _) => assert Revokes(t.refresh, t.refresh, e.now);
    case Join(_, _) => assert Revokes(t.refresh, t.refresh, e.now);
    case AskReset(_, _) => assert Revokes(t.refresh, t.refresh, e.now);
    case AskChange(_, _, _, _) => assert Revokes(t.refresh, t.refresh, e.now);
    case AskSignup(_, _, _) => assert Revokes(t.refresh, t.refresh, e.now);
    case LogOut(_) => LogOutTokens(cfg, t, e);
    case ChangePassword(_, _, _) => LogOutTokens(cfg, t, e);
    case Reset(_, _, _) => CodeUseTokens(cfg, t, e);
    case VerifyChange(_, _) => CodeUseTokens(cfg, t, e);
  }

  // ---------------------------------------------------------------------------
  // Invariants of every run.
  // ---------------------------------------------------------------------------

  lemma OpenedFamilies(r: Rows, r': Rows, h: Digest, row: Refresh)
    requires Opens(r, r', h, row) && OneOwner(r) && OneLive(r)
    ensures OneOwner(r') && OneLive(r')
  {
    assert forall x | x in r :: r[x].family != row.family;
  }

  lemma RotatedFamilies(r: Rows, r': Rows, p: Digest, h: Digest, row: Refresh, now: int)
    requires Rotates(r, r', p, h, row, now) && OneOwner(r) && OneLive(r)
    ensures OneOwner(r') && OneLive(r')
  {
    forall a, b | a in r' && b in r' && r'[a].family == r'[b].family && r'[a].revokedAt.None? && r'[b].revokedAt.None?
      ensures a == b
    {
      assert a != p && b != p;
    }
  }

  lemma StepFamilies(r: Rows, r': Rows, now: int)
    requires TokenStep(r, r', now) && OneOwner(r) && OneLive(r)
    ensures OneOwner(r') && OneLive(r')
  {
    if h, row :| Opens(r, r', h, row) {
      OpenedFamilies(r, r', h, row);
    } else if p, h, row :| Rotates(r, r', p, h, row, now) {
      RotatedFamilies(r, r', p, h, row, now);
    }
  }

  /** Over every run, from any sound token table: all tokens of a family belong to one user, and
      a family never has two live tokens. */
  lemma {:induction false} FamiliesStaySound(cfg: Config, t: Tables, es: seq<Event>)
    requires OneOwner(t.refresh) && OneLive(t.refresh) && FreshRun(cfg, t, es)
    ensures OneOwner(Run(cfg, t, es).refresh) && OneLive(Run(cfg, t, es).refresh)
  {
    if es != [] {
      var mid := Run(cfg, t, es[..|es| - 1]);
      FamiliesStaySound(cfg, t, es[..|es| - 1]);
      StepTokens(cfg, mid, es[|es| - 1]);
      StepFamilies(mid.refresh, Step(cfg, mid, es[|es| - 1]).0.refresh, es[|es| - 1].now);
    }
  }

  /** Rows of other families may come and go; those of a dead family stay as they are. */
  ghost predicate FamilyKept(r: Rows, r': Rows, family: string) {
    && (forall h | h in r && r[h].family == family :: h in r' && r'[h] == r[h])
    && (forall h | h in r' && r'[h].family == family :: h in r && r'[h] == r[h])
  }

  lemma StepStaysDead(r: Rows, r': Rows, now: int, family: string)
    requires TokenStep(r, r', now) && Known(r, family) && Dead(r, family)
    ensures FamilyKept(r, r', family)
  {
    if h, row :| Opens(r, r', h, row) {
      assert row.family != family;
    } else if p, h, row :| Rotates(r, r', p, h, row, now) {
      assert r[p].family != family;
    }
  }

  lemma KeptStaysDead(r: Rows, mid: Rows, r': Rows, family: string)
    requires Known(r, family) && Dead(r, family) && FamilyKept(r, mid, family) && FamilyKept(mid, r', family)
    ensures FamilyKept(r, r', family) && Known(r', family) && Dead(r', family)
  {
    var k :| k in r && r[k].family == family;
    assert k in r' && r'[k].family == family;
  }

  lemma DeadStep(cfg: Config, t: Tables, e: Event, family: string)
    requires FreshFamily(t, e) && Known(t.refresh, family) && Dead(t.refresh, family)
    ensures FamilyKept(t.refresh, Step(cfg, t, e).0.refresh, family)
  {
    StepTokens(cfg, t, e);
    StepStaysDead(t.refresh, Step(cfg, t, e).0.refresh, e.now, family);
  }

  /** Once a family has no live token it never gets one again, whatever operations follow:
      its rows do not change at all. */
  lemma {:induction false} DeadFamilyStaysDead(cfg: Config, t: Tables, es: seq<Event>, family: string)
    requires FreshRun(cfg, t, es) && Known(t.refresh, family) && Dead(t.refresh, family)
    ensures var r' := Run(cfg, t, es).refresh;
            Known(r', family) && Dead(r', family) && FamilyKept(t.refresh, r', family)
  {
    if es != [] {
      var mid := Run(cfg, t, es[..|es| - 1]);
      DeadFamilyStaysDead(cfg, t, es[..|es| - 1], family);
      DeadStep(cfg, mid, es[|es| - 1], family);
      KeptStaysDead(t.refresh, mid.refresh, Run(cfg, t, es).refresh, family);
    }
  }

  /** Every token of a dead family is refused forever. */
  lemma DeadFamilyIsRefused(cfg: Config, t: Tables, es: seq<Event>, e: Event)
    requires FreshRun(cfg, t, es) && e.op.Refreshing? && Digest(e.op.presented) in t.refresh
    requires Dead(t.refresh, t.refresh[Digest(e.op.presented)].family)
    ensures !Step(cfg, Run(cfg, t, es), e).1.Session?
    ensures Step(cfg, Run(cfg, t, es), e).0.refresh == Run(cfg, t, es).refresh
  {
    var h := Digest(e.op.presented);
    var family := t.refresh[h].family;
    DeadFamilyStaysDead(cfg, t, es, family);
    TokensStay(cfg, t, es, h);
    var t' := Run(cfg, t, es);
    assert FamilyRevoked(t'.refresh, family, e.now) == t'.refresh;
  }

  /** Rows are never deleted, and keep their user and family. */
  lemma {:induction false} TokensStay(cfg: Config, t: Tables, es: seq<Event>, h: Digest)
    requires FreshRun(cfg, t, es) && h in t.refresh
    ensures var r' := Run(cfg, t, es).refresh;
            && h in r' && r'[h].family == t.refresh[h].family && r'[h].user == t.refresh[h].user
            && (t.refresh[h].revokedAt.Some? ==> r'[h].revokedAt == t.refresh[h].revokedAt)
  {
    if es != [] {
      TokensStay(cfg, t, es[..|es| - 1], h);
      StepTokens(cfg, Run(cfg, t, es[..|es| - 1]), es[|es| - 1]);
    }
  }

  /** The user's live tokens are revoked at `now`; revoked ones and everybody else's are as
      they were. */
  ghost predicate SignedOut(r: Rows, r': Rows, user: UserId, now: int) {
    && r'.Keys == r.Keys
    && forall h | h in r ::
         r'[h] == if r[h].user == user && r[h].revokedAt.None? then r[h].(revokedAt := Some(now)) else r[h]
  }

  /** The account a completed reset, password change or address change belongs to. */
  ghost function Account(t: Tables, e: Event): Option<UserId> {
    match e.op
    case Reset(email, _, _) => Owner(t.users, email)
    case ChangePassword(user, _, _) => Some(user)
    case VerifyChange(user, _) => Some(user)
    case _ => None
  }

  /** What revokes tokens: reuse and logout kill the presented token's family; a completed
      password reset, password change or address change signs its user out and touches nobody
      else's tokens. */
  lemma WhatKillsFamilies(cfg: Config, t: Tables, e: Event)
    ensures var (t', reply) := Step(cfg, t, e);
            && (e.op.Refreshing? && reply == RefreshReused ==>
                  && Digest(e.op.presented) in t.refresh
                  && Dead(t'.refresh, t.refresh[Digest(e.op.presented)].family))
            && (e.op.LogOut? && reply == Done && Digest(e.op.presented) in t.refresh && e.op.presented != "" ==>
                  Dead(t'.refresh, t.refresh[Digest(e.op.presented)].family))
            && ((e.op.Reset? || e.op.ChangePassword? || e.op.VerifyChange?) && reply == Done ==>
                  Account(t, e).Some? && SignedOut(t.refresh, t'.refresh, Account(t, e).value, e.now))
  {
  }

  lemma SignedOutKillsFamilies(r: Rows, r': Rows, user: UserId, now: int, family: string)
    requires SignedOut(r, r', user, now) && OneOwner(r)
    requires exists h | h in r :: r[h].user == user && r[h].family == family
    ensures Dead(r', family)
  {
    var k :| k in r && r[k].user == user && r[k].family == family;
    forall h | h in r' && r'[h].family == family
      ensures r'[h].revokedAt.Some?
    {
      assert r[h].family == r[k].family;
    }
  }

  /** After any run, a completed password reset, password change or address change kills every
      family its user has a token in; and it stays dead whatever follows. */
  lemma SignOutKillsFamiliesForGood(cfg: Config, t: Tables, es: seq<Event>, e: Event, more: seq<Event>, h: Digest)
    requires OneOwner(t.refresh) && OneLive(t.refresh) && FreshRun(cfg, t, es)
    requires e.op.Reset? || e.op.ChangePassword? || e.op.VerifyChange?
    requires var mid := Run(cfg, t, es);
             && Step(cfg, mid, e).1 == Done && FreshRun(cfg, Step(cfg, mid, e).0, more)
             && h in mid.refresh && Some(mid.refresh[h].user) == Account(mid, e)
    ensures var (mid, after) := (Run(cfg, t, es), Step(cfg, Run(cfg, t, es), e).0);
            && Dead(after.refresh, mid.refresh[h].family)
            && Dead(Run(cfg, after, more).refresh, mid.refresh[h].family)
  {
    var mid, after := Run(cfg, t, es), Step(cfg, Run(cfg, t, es), e).0;
    var family := mid.refresh[h].family;
    FamiliesStaySound(cfg, t, es);
    WhatKillsFamilies(cfg, mid, e);
    SignedOutKillsFamilies(mid.refresh, after.refresh, mid.refresh[h].user, e.now, family);
    assert h in after.refresh && after.refresh[h].family == family;
    DeadFamilyStaysDead(cfg, after, more, family);
  }

  // ---------------------------------------------------------------------------
  // Exchanging a token.
  // ---------------------------------------------------------------------------

  /** The operation exchanges token `h` for a new one. */
  ghost predicate Exchanges(cfg: Config, t: Tables, e: Event, h: Digest) {
    e.op.Refreshing? && Digest(e.op.presented) == h && h in t.refresh && t.refresh[h].revokedAt.None? &&
    Step(cfg, t, e).0.refresh != t.refresh
  }

  ghost function ExchangeCount(cfg: Config, t: Tables, es: seq<Event>, h: Digest): nat {
    if es == [] then 0
    else
      ExchangeCount(cfg, t, es[..|es| - 1], h) +
      if Exchanges(cfg, Run(cfg, t, es[..|es| - 1]), es[|es| - 1], h) then 1 else 0
  }

  /** A refresh that hands out a pair is an exchange, and it consumes the presented token. */
  lemma PairMeansExchange(cfg: Config, t: Tables, e: Event)
    requires e.op.Refreshing? && Step(cfg, t, e).1.Session?
    ensures Exchanges(cfg, t, e, Digest(e.op.presented))
    ensures Step(cfg, t, e).0.refresh[Digest(e.op.presented)].revokedAt == Some(e.now)
    ensures t.refresh[Digest(e.op.presented)].expiresAt > e.now
  {
  }

  lemma ExchangeStep(cfg: Config, t: Tables, e: Event, h: Digest)
    requires FreshFamily(t, e)
    ensures h in t.refresh && t.refresh[h].revokedAt.Some? ==> !Exchanges(cfg, t, e, h)
    ensures Exchanges(cfg, t, e, h) || (h in t.refresh && t.refresh[h].revokedAt.Some?) ==>
              h in Step(cfg, t, e).0.refresh && Step(cfg, t, e).0.refresh[h].revokedAt.Some?
  {
    if !Exchanges(cfg, t, e, h) {
      StepTokens(cfg, t, e);
    }
  }

  /** Over every run each token is exchanged at most once. */
  lemma {:induction false} ExchangedAtMostOnce(cfg: Config, t: Tables, es: seq<Event>, h: Digest)
    requires FreshRun(cfg, t, es)
    ensures ExchangeCount(cfg, t, es, h) <= 1
    ensures ExchangeCount(cfg, t, es, h) == 1 ==>
              h in Run(cfg, t, es).refresh && Run(cfg, t, es).refresh[h].revokedAt.Some?
  {
    if es != [] {
      ExchangedAtMostOnce(cfg, t, es[..|es| - 1], h);
      ExchangeStep(cfg, Run(cfg, t, es[..|es| - 1]), es[|es| - 1], h);
    }
  }

  /** Presenting a token again after it was exchanged leaves the whole family revoked, even
      when the token has expired meanwhile. */
  lemma ReplayKillsTheFamily(cfg: Config, t: Tables, es: seq<Event>, e: Event)
    requires FreshRun(cfg, t, es) && e.op.Refreshing? && e.op.presented != "" && e.faults == {}
    requires ExchangeCount(cfg, t, es, Digest(e.op.presented)) >= 1
    ensures var mid, h := Run(cfg, t, es), Digest(e.op.presented);
            && h in mid.refresh
            && Step(cfg, mid, e).1 == RefreshReused
            && Dead(Step(cfg, mid, e).0.refresh, mid.refresh[h].family)
  {
    ExchangedAtMostOnce(cfg, t, es, Digest(e.op.presented));
  }

  // ---------------------------------------------------------------------------
  // What a handed-out session stands for.
  // ---------------------------------------------------------------------------

  /** The account an operation may open a session for. */
  ghost predicate Entitled(t: Tables, t': Tables, e: Event, user: UserId) {
    match e.op
    case Open(u, _, _, _) => user == u
    case LogIn(email, plain, _, _, _) => Owns(t.users, user, email) && Verifies(t.users[user].password, plain)
    case Refreshing(presented, _, _) => Digest(presented) in t.refresh && user == t.refresh[Digest(presented)].user
    case VerifySignup(email, _, id, _, _, _) => user == id && user !in t.users && Owns(t'.users, user, email)
    case _ => false
  }

  /** The new token is live for `ttl` and belongs to `user`; no other token is added or brought
      back. */
  ghost predicate Handed(r: Rows, r': Rows, token: string, user: UserId, ttl: int, now: int) {
    var h := Digest(token);
    && h !in r && r'.Keys == r.Keys + {h}
    && r'[h].revokedAt.None? && r'[h].expiresAt == now + ttl && r'[h].user == user
    && (forall x | x in r && r[x].revokedAt.Some? :: r'[x] == r[x])
  }

  lemma IssueHands(t: Tables, user: UserId, token: string, family: string, meta: Sessions.Meta, ttl: int, now: int,
                   faults: set<Call>)
    ensures var (t', reply) := Sessions.IssueStep(t, user, token, family, meta, ttl, now, faults);
            t'.users == t.users && (reply.Session? ==> Handed(t.refresh, t'.refresh, reply.token, user, ttl, now))
  {
  }

  lemma RefreshHands(t: Tables, presented: string, token: string, meta: Sessions.Meta, ttl: int, now: int,
                     faults: set<Call>)
    ensures var (t', reply) := Sessions.RefreshStep(t, presented, token, meta, ttl, now, faults);
            reply.Session? ==>
              Digest(presented) in t.refresh &&
              Handed(t.refresh, t'.refresh, reply.token, t.refresh[Digest(presented)].user, ttl, now)
  {
  }

  /** Whatever operation answers with a session, its token is new, live for exactly the
      configured time, and belongs to the account the operation proved; no other token is
      added or brought back. */
  lemma SessionsAreLive(cfg: Config, t: Tables, e: Event) returns (user: UserId)
    requires Step(cfg, t, e).1.Session?
    ensures var (t', reply) := Step(cfg, t, e);
            Handed(t.refresh, t'.refresh, reply.token, user, cfg.ttl, e.now) && Entitled(t, t', e, user)
  {
    match e.op
    case Open(u, token, family, meta) =>
      user := u;
      IssueHands(t, u, token, family, meta, cfg.ttl, e.now, e.faults);
    case LogIn(email, plain, token, family, meta) =>
      user := Owner(t.users, email).value;
      IssueHands(t.(users := t.users[user := t.users[user].(failed := 0, lockedUntil := None)]), user, token, family,
        meta, cfg.ttl, e.now, e.faults);
    case Refreshing(presented, token, meta) =>
      RefreshHands(t, presented, token, meta, cfg.ttl, e.now, e.faults);
      user := t.refresh[Digest(presented)].user;
    case VerifySignup(email, code, id, token, family, meta) =>
      user := id;
      IssueHands(Signup.PromoteStep(t, email, code, id, e.now, e.faults).0, id, token, family, meta, cfg.ttl, e.now,
        e.faults);
    case _ =>
      assert false;
  }

  // ---------------------------------------------------------------------------
  // Suspended accounts.
  // ---------------------------------------------------------------------------

  /** Rotating and closing a session never look at the account: whatever the user table holds,
      the answer and the effect on the tokens are the same. */
  lemma RefreshIgnoresUsers(cfg: Config, t: Tables, users: map<UserId, User>, e: Event)
    requires e.op.Refreshing? || e.op.LogOut?
    ensures var (a, b) := (Step(cfg, t, e), Step(cfg, t.(users := users), e));
            a.1 == b.1 && a.0.refresh == b.0.refresh && a.0.users == t.users
  {
  }

  /** The k-th token of a chain of rotations. */
  function ChainToken(k: nat): string {
    seq(k + 1, i => 'x')
  }

  /** The instant of the k-th rotation, one every `gap`. */
  function ChainInstant(start: int, gap: int, k: nat): int {
    if k == 0 then start else ChainInstant(start, gap, k - 1) + gap
  }

  /** Each token is exchanged for the next, one every `gap`. */
  function Chain(start: int, gap: int, meta: Sessions.Meta, n: nat): (es: seq<Event>)
    ensures |es| == n
  {
    if n == 0 then []
    else
      Chain(start, gap, meta, n - 1) +
      [Event(Refreshing(ChainToken(n - 1), ChainToken(n), meta), ChainInstant(start, gap, n), {})]
  }

  /** The chain has come to token k, live from its rotation on for `ttl`. */
  ghost predicate ChainAt(r: Rows, user: UserId, ttl: int, start: int, gap: int, k: nat) {
    var h := Digest(ChainToken(k));
    && h in r && r[h].user == user && r[h].revokedAt.None? && r[h].expiresAt == ChainInstant(start, gap, k) + ttl
    && forall m: nat | k < m :: Digest(ChainToken(m)) !in r
  }

  lemma ChainStep(t: Tables, user: UserId, ttl: int, start: int, gap: int, k: nat, meta: Sessions.Meta)
    requires 0 < gap < ttl && ChainAt(t.refresh, user, ttl, start, gap, k)
    ensures var now := ChainInstant(start, gap, k + 1);
            var (t', reply) := Sessions.RefreshStep(t, ChainToken(k), ChainToken(k + 1), meta, ttl, now, {});
            && reply == Session(ChainToken(k + 1)) && t'.users == t.users
            && ChainAt(t'.refresh, user, ttl, start, gap, k + 1)
  {
    assert forall a: nat, b: nat | a != b :: |ChainToken(a)| != |ChainToken(b)|;
  }

  /** So the session of a suspended account need not expire: as long as its token is exchanged
      within its lifetime, it is live for ever, and no exchange looks at the account. */
  lemma {:induction false} SuspendedSessionsGoOn(cfg: Config, t: Tables, user: UserId, start: int, gap: int,
                                                 meta: Sessions.Meta, n: nat)
    requires 0 < gap < cfg.ttl && ChainAt(t.refresh, user, cfg.ttl, start, gap, 0)
    ensures var t' := Run(cfg, t, Chain(start, gap, meta, n));
            t'.users == t.users && ChainAt(t'.refresh, user, cfg.ttl, start, gap, n)
  {
    if n > 0 {
      var es := Chain(start, gap, meta, n);
      assert es[..n - 1] == Chain(start, gap, meta, n - 1);
      SuspendedSessionsGoOn(cfg, t, user, start, gap, meta, n - 1);
      ChainStep(Run(cfg, t, es[..n - 1]), user, cfg.ttl, start, gap, n - 1, meta);
    }
  }
}
