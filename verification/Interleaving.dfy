/**
 Refresh-token transactions interleaved statement by statement.

 A rotation locks only the row of the presented token. A revocation (reuse, logout, password or
 address change) is one UPDATE: it sees the rows that are committed and live when it begins, locks
 and revokes them one at a time, passes over those found revoked meanwhile, and is done when none
 is left. Uncommitted effects are invisible to others; a statement that needs a row locked by
 another transaction waits, so here it is simply not enabled.
 */
module Interleaving {
  type TxId = nat
  type Hash = string

  datatype Token = Token(user: string, family: string, revoked: bool)

  /** Which rows a revoking UPDATE is for. */
  datatype Scope = OfFamily(family: string) | OfUser(user: string)

  predicate InScope(scope: Scope, t: Token) {
    match scope
    case OfFamily(family) => t.family == family
    case OfUser(user) => t.user == user
  }

  /** Where a transaction stands. `seen` is the snapshot of a running UPDATE; `Ended` has nothing
      left to do but roll back. */
  datatype Phase =
    | Begun(logout: bool)
    | Holding
    | Marked
    | Added(hash: Hash)
    | ToRevoke(scope: Scope)
    | Revoking(scope: Scope, seen: set<Hash>)
    | Ended

  datatype Tx = Tx(phase: Phase, presented: Hash, locks: set<Hash>, marks: set<Hash>)

  datatype State = State(committed: map<Hash, Token>, txs: map<TxId, Tx>)

  datatype Action =
    | OpenSession(hash: Hash, user: string, family: string)
    | BeginPresenting(tx: TxId, presented: Hash, logout: bool)
    | BeginRevoking(tx: TxId, user: string)
    | SelectForUpdate(tx: TxId, expired: bool)
    | RevokePresented(tx: TxId)
    | InsertSuccessor(tx: TxId, hash: Hash)
    | StartRevoking(tx: TxId)
    | RevokeRow(tx: TxId, row: Hash)
    | Commit(tx: TxId)
    | Rollback(tx: TxId)

  predicate LockedByOther(s: State, tx: TxId, h: Hash) {
    exists o | o in s.txs :: o != tx && h in s.txs[o].locks
  }

  /** The unique constraint on token hashes, uncommitted rows included. */
  predicate FreshHash(s: State, h: Hash) {
    h !in s.committed && forall o | o in s.txs :: s.txs[o].phase != Added(h)
  }

  /** The rows an UPDATE beginning now works on. */
  function Visible(s: State, scope: Scope): set<Hash> {
    set h | h in s.committed && !s.committed[h].revoked && InScope(scope, s.committed[h])
  }

  /** The UPDATE has dealt with every row it saw. */
  predicate Finished(s: State, t: Tx) {
    && t.phase.Revoking?
    && forall h | h in t.phase.seen :: h in t.marks || (h in s.committed && s.committed[h].revoked)
  }

  predicate Enabled(s: State, a: Action) {
    match a
    case OpenSession(h, _, family) => FreshHash(s, h) && forall x | x in s.committed :: s.committed[x].family != family
    case BeginPresenting(tx, _, _) => tx !in s.txs
    case BeginRevoking(tx, _) => tx !in s.txs
    case SelectForUpdate(tx, _) =>
      tx in s.txs && s.txs[tx].phase.Begun? && !LockedByOther(s, tx, s.txs[tx].presented)
    case RevokePresented(tx) => tx in s.txs && s.txs[tx].phase.Holding?
    case InsertSuccessor(tx, h) => tx in s.txs && s.txs[tx].phase.Marked? && FreshHash(s, h)
    case StartRevoking(tx) => tx in s.txs && s.txs[tx].phase.ToRevoke?
    case RevokeRow(tx, h) =>
      && tx in s.txs && s.txs[tx].phase.Revoking? && h in s.txs[tx].phase.seen
      && h in s.committed && !s.committed[h].revoked && !LockedByOther(s, tx, h)
    case Commit(tx) => tx in s.txs && (s.txs[tx].phase.Added? || Finished(s, s.txs[tx]))
    case Rollback(tx) => tx in s.txs
  }

  /** The rows after a commit: the marked ones revoked, the successor added. */
  function Committed(s: State, t: Tx): map<Hash, Token> {
    var marked := map h | h in s.committed :: if h in t.marks then s.committed[h].(revoked := true) else s.committed[h];
    if t.phase.Added? && t.presented in s.committed
    then marked[t.phase.hash := s.committed[t.presented].(revoked := false)] else marked
  }

  /** The phase after the locking read: no row, a revoked row, an expired one, or a live one. */
  function AfterSelect(s: State, t: Tx, expired: bool): Phase
    requires t.phase.Begun?
  {
    if t.presented !in s.committed then Ended
    else if t.phase.logout || s.committed[t.presented].revoked then ToRevoke(OfFamily(s.committed[t.presented].family))
    else if expired then Ended
    else Holding
  }

  function Act(s: State, a: Action): State {
    if !Enabled(s, a) then s
    else
      match a
      case OpenSession(h, user, family) => s.(committed := s.committed[h := Token(user, family, false)])
      case BeginPresenting(tx, h, logout) => s.(txs := s.txs[tx := Tx(Begun(logout), h, {}, {})])
      case BeginRevoking(tx, user) => s.(txs := s.txs[tx := Tx(ToRevoke(OfUser(user)), "", {}, {})])
      case SelectForUpdate(tx, expired) =>
        var t := s.txs[tx];
        s.(txs := s.txs[tx := t.(phase := AfterSelect(s, t, expired),
                                 locks := if t.presented in s.committed then {t.presented} else {})])
      case RevokePresented(tx) => s.(txs := s.txs[tx := s.txs[tx].(phase := Marked, marks := {s.txs[tx].presented})])
      case InsertSuccessor(tx, h) => s.(txs := s.txs[tx := s.txs[tx].(phase := Added(h))])
      case StartRevoking(tx) =>
        var scope := s.txs[tx].phase.scope;
        s.(txs := s.txs[tx := s.txs[tx].(phase := Revoking(scope, Visible(s, scope)))])
      case RevokeRow(tx, h) =>
        s.(txs := s.txs[tx := s.txs[tx].(locks := s.txs[tx].locks + {h}, marks := s.txs[tx].marks + {h})])
      case Commit(tx) => State(Committed(s, s.txs[tx]), s.txs - {tx})
      case Rollback(tx) => s.(txs := s.txs - {tx})
  }

  const INITIAL := State(map[], map[])

  function Run(actions: seq<Action>): State {
    if actions == [] then INITIAL else Act(Run(actions[..|actions| - 1]), actions[|actions| - 1])
  }

  // ---------------------------------------------------------------------------
  // Safety.
  // ---------------------------------------------------------------------------

  /** No family has two committed live tokens. */
  ghost predicate OneLive(rows: map<Hash, Token>) {
    forall a, b | a in rows && b in rows && rows[a].family == rows[b].family && !rows[a].revoked && !rows[b].revoked ::
      a == b
  }

  ghost predicate OneOwner(rows: map<Hash, Token>) {
    forall a, b | a in rows && b in rows && rows[a].family == rows[b].family :: rows[a].user == rows[b].user
  }

  /** A rotation past its locking read holds the lock of its token, which is still live. */
  ghost predicate HoldsLive(s: State, t: Tx) {
    t.phase.Holding? || t.phase.Marked? || t.phase.Added? ==>
      && t.presented in s.committed && !s.committed[t.presented].revoked && t.presented in t.locks
      && t.marks == (if t.phase.Holding? then {} else {t.presented})
      && (t.phase.Added? ==> t.phase.hash !in s.committed)
  }

  /** What a transaction has marked is live until it commits; an UPDATE marks only rows it saw,
      and those are in its scope. */
  ghost predicate MarksLive(s: State, t: Tx) {
    && (forall h | h in t.marks :: h in s.committed && !s.committed[h].revoked)
    && (t.phase.Begun? || t.phase.ToRevoke? || t.phase.Ended? ==> t.marks == {})
    && (t.phase.Revoking? ==>
          && t.marks <= t.phase.seen <= s.committed.Keys
          && forall h | h in t.phase.seen :: InScope(t.phase.scope, s.committed[h]))
  }

  ghost predicate Inv(s: State) {
    && OneLive(s.committed) && OneOwner(s.committed)
    && (forall o | o in s.txs :: HoldsLive(s, s.txs[o]) && MarksLive(s, s.txs[o]))
    && (forall o | o in s.txs ::
          && s.txs[o].marks <= s.txs[o].locks <= s.committed.Keys
          && (s.txs[o].phase.Begun? ==> s.txs[o].locks == {}))
    && (forall o, p, h | o in s.txs && p in s.txs && h in s.txs[o].locks && h in s.txs[p].locks :: o == p)
    && (forall o, p | o in s.txs && p in s.txs && s.txs[o].phase.Added? && s.txs[o].phase == s.txs[p].phase :: o == p)
  }

  /** The other rotations keep their tokens: a commit revokes only rows it has locked. */
  lemma CommitKeepsOthers(s: State, tx: TxId, o: TxId)
    requires Inv(s) && Enabled(s, Commit(tx)) && o in s.txs && o != tx
    ensures HoldsLive(Act(s, Commit(tx)), s.txs[o])
    ensures MarksLive(Act(s, Commit(tx)), s.txs[o])
  {
    assert HoldsLive(s, s.txs[o]) && HoldsLive(s, s.txs[tx]) && MarksLive(s, s.txs[o]);
    forall h | h in s.txs[o].locks
      ensures h !in s.txs[tx].marks
    {
      assert h !in s.txs[tx].locks;
    }
  }

  lemma CommitKeepsRows(s: State, tx: TxId)
    requires Inv(s) && Enabled(s, Commit(tx))
    ensures OneLive(Act(s, Commit(tx)).committed) && OneOwner(Act(s, Commit(tx)).committed)
  {
    var t, s' := s.txs[tx], Act(s, Commit(tx));
    if t.phase.Added? {
      assert HoldsLive(s, t);
      forall a | a in s'.committed && a != t.phase.hash && s'.committed[a].family == s.committed[t.presented].family
        ensures s'.committed[a].revoked
      {
        assert !s.committed[a].revoked ==> a == t.presented;
      }
    }
  }

  lemma CommitKeepsInv(s: State, tx: TxId)
    requires Inv(s) && Enabled(s, Commit(tx))
    ensures Inv(Act(s, Commit(tx)))
  {
    CommitKeepsRows(s, tx);
    forall o | o in s.txs && o != tx
      ensures HoldsLive(Act(s, Commit(tx)), s.txs[o]) && MarksLive(Act(s, Commit(tx)), s.txs[o])
    {
      CommitKeepsOthers(s, tx, o);
    }
  }

  /** A statement changes one transaction only; it must not take a lock another one holds. */
  lemma TxKeepsInv(s: State, tx: TxId, t: Tx)
    requires Inv(s) && HoldsLive(s, t) && MarksLive(s, t)
    requires t.marks <= t.locks <= s.committed.Keys && (t.phase.Begun? ==> t.locks == {})
    requires forall h | h in t.locks :: !LockedByOther(s, tx, h)
    requires forall o | o in s.txs && o != tx :: !(t.phase.Added? && s.txs[o].phase == t.phase)
    ensures Inv(s.(txs := s.txs[tx := t]))
  {
  }

  lemma OpenKeepsInv(s: State, h: Hash, user: string, family: string)
    requires Inv(s) && Enabled(s, OpenSession(h, user, family))
    ensures Inv(Act(s, OpenSession(h, user, family)))
  {
    var s' := Act(s, OpenSession(h, user, family));
    forall o | o in s'.txs
      ensures HoldsLive(s', s'.txs[o]) && MarksLive(s', s'.txs[o])
    {
      assert HoldsLive(s, s.txs[o]) && MarksLive(s, s.txs[o]);
    }
  }

  lemma ActKeepsInv(s: State, a: Action)
    requires Inv(s)
    ensures Inv(Act(s, a))
  {
    if Enabled(s, a) {
      match a
      case OpenSession(h, user, family) => OpenKeepsInv(s, h, user, family);
      case Commit(tx) => CommitKeepsInv(s, tx);
      case Rollback(tx) =>
      case BeginPresenting(tx, _, _) => TxKeepsInv(s, tx, Act(s, a).txs[tx]);
      case BeginRevoking(tx, _) => TxKeepsInv(s, tx, Act(s, a).txs[tx]);
      case _ => StatementKeepsInv(s, a);
    }
  }

  /** A statement of a transaction that has begun. */
  lemma StatementKeepsInv(s: State, a: Action)
    requires Inv(s) && Enabled(s, a)
    requires a.SelectForUpdate? || a.RevokePresented? || a.InsertSuccessor? || a.StartRevoking? || a.RevokeRow?
    ensures Inv(Act(s, a))
  {
    assert HoldsLive(s, s.txs[a.tx]) && MarksLive(s, s.txs[a.tx]);
    TxKeepsInv(s, a.tx, Act(s, a).txs[a.tx]);
  }

  /** Whatever the interleaving: no family ever has two committed live tokens, and all tokens
      of a family belong to one user. */
  lemma {:induction false} NeverTwoLiveTokens(actions: seq<Action>)
    ensures Inv(Run(actions))
    ensures OneLive(Run(actions).committed) && OneOwner(Run(actions).committed)
  {
    if actions != [] {
      NeverTwoLiveTokens(actions[..|actions| - 1]);
      ActKeepsInv(Run(actions[..|actions| - 1]), actions[|actions| - 1]);
    }
  }

  /** The action commits a rotation of token `h`. */
  predicate Exchanges(s: State, a: Action, h: Hash) {
    a.Commit? && Enabled(s, a) && s.txs[a.tx].phase.Added? && s.txs[a.tx].presented == h
  }

  function ExchangeCount(actions: seq<Action>, h: Hash): nat {
    if actions == [] then 0
    else
      ExchangeCount(actions[..|actions| - 1], h) +
      if Exchanges(Run(actions[..|actions| - 1]), actions[|actions| - 1], h) then 1 else 0
  }

  lemma RevokedStays(s: State, a: Action, h: Hash)
    requires Inv(s) && h in s.committed && s.committed[h].revoked
    ensures h in Act(s, a).committed && Act(s, a).committed[h].revoked
  {
  }

  lemma ExchangeRevokes(s: State, a: Action, h: Hash)
    requires Inv(s) && Exchanges(s, a, h)
    ensures h in s.committed && !s.committed[h].revoked
    ensures h in Act(s, a).committed && Act(s, a).committed[h].revoked
  {
    assert HoldsLive(s, s.txs[a.tx]);
  }

  /** Whatever the interleaving, a token is exchanged at most once. */
  lemma {:induction false} ExchangedAtMostOnce(actions: seq<Action>, h: Hash)
    ensures ExchangeCount(actions, h) <= 1
    ensures ExchangeCount(actions, h) == 1 ==> h in Run(actions).committed && Run(actions).committed[h].revoked
  {
    if actions != [] {
      var s, last := Run(actions[..|actions| - 1]), actions[|actions| - 1];
      ExchangedAtMostOnce(actions[..|actions| - 1], h);
      NeverTwoLiveTokens(actions[..|actions| - 1]);
      if h in s.committed && s.committed[h].revoked {
        RevokedStays(s, last, h);
      }
      if Exchanges(s, last, h) {
        ExchangeRevokes(s, last, h);
      }
    }
  }
}
