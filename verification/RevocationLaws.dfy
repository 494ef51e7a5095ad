/**
 What a revocation leaves behind when it is interleaved with rotations of the same family.
 */
module RevocationLaws {
  import opened Interleaving

  ghost predicate Known(rows: map<Hash, Token>, family: string) {
    exists h | h in rows :: rows[h].family == family
  }

  /** No committed token of the family is live. */
  ghost predicate Dead(rows: map<Hash, Token>, family: string) {
    forall h | h in rows && rows[h].family == family :: rows[h].revoked
  }

  lemma StaysDead(s: State, a: Action, family: string)
    requires Inv(s) && Known(s.committed, family) && Dead(s.committed, family)
    ensures Known(Act(s, a).committed, family) && Dead(Act(s, a).committed, family)
  {
    var k :| k in s.committed && s.committed[k].family == family;
    if a.Commit? && Enabled(s, a) {
      assert HoldsLive(s, s.txs[a.tx]);
      assert s.txs[a.tx].phase.Added? ==> s.txs[a.tx].phase.hash != k;
    }
    assert k in Act(s, a).committed && Act(s, a).committed[k].family == family;
  }

  /** Whatever the interleaving, a family whose committed tokens are all revoked never gets a
      live one again. */
  lemma {:induction false} DeadFamilyStaysDead(actions: seq<Action>, more: seq<Action>, family: string)
    requires Known(Run(actions).committed, family) && Dead(Run(actions).committed, family)
    ensures Known(Run(actions + more).committed, family) && Dead(Run(actions + more).committed, family)
  {
    if more == [] {
      assert actions + more == actions;
    } else {
      var shorter := more[..|more| - 1];
      assert (actions + more)[..|actions + more| - 1] == actions + shorter;
      DeadFamilyStaysDead(actions, shorter, family);
      NeverTwoLiveTokens(actions + shorter);
      StaysDead(Run(actions + shorter), more[|more| - 1], family);
    }
  }

  // ---------------------------------------------------------------------------
  // When a committed revocation leaves the family dead.
  // ---------------------------------------------------------------------------

  /** The action commits a rotation inside the family. */
  predicate AddsSuccessor(s: State, a: Action, family: string) {
    && a.Commit? && Enabled(s, a) && s.txs[a.tx].phase.Added?
    && s.txs[a.tx].presented in s.committed && s.committed[s.txs[a.tx].presented].family == family
  }

  /** The action commits a revocation that revoked a token of the family. */
  predicate Kills(s: State, a: Action, family: string) {
    && a.Commit? && Enabled(s, a) && s.txs[a.tx].phase.Revoking?
    && exists h | h in s.txs[a.tx].marks :: h in s.committed && s.committed[h].family == family
  }

  /** Since `actions` a rotation inside the family has committed, and no revocation that revoked
      a token of the family after it. */
  predicate Rotated(actions: seq<Action>, more: seq<Action>, family: string) {
    if more == [] then false
    else
      var (shorter, last) := (more[..|more| - 1], more[|more| - 1]);
      var s := Run(actions + shorter);
      AddsSuccessor(s, last, family) || (Rotated(actions, shorter, family) && !Kills(s, last, family))
  }

  /** No rotation inside the family commits during `more`. */
  predicate NoSuccessor(actions: seq<Action>, more: seq<Action>, family: string) {
    more == [] ||
    var (shorter, last) := (more[..|more| - 1], more[|more| - 1]);
    NoSuccessor(actions, shorter, family) && !AddsSuccessor(Run(actions + shorter), last, family)
  }

  /** No revocation that revoked a token of the family commits during `more`. */
  predicate NoKill(actions: seq<Action>, more: seq<Action>, family: string) {
    more == [] ||
    var (shorter, last) := (more[..|more| - 1], more[|more| - 1]);
    NoKill(actions, shorter, family) && !Kills(Run(actions + shorter), last, family)
  }

  lemma {:induction false} RotatedWithoutKill(actions: seq<Action>, more: seq<Action>, family: string)
    requires NoKill(actions, more, family)
    ensures Rotated(actions, more, family) <==> !NoSuccessor(actions, more, family)
  {
    if more != [] {
      RotatedWithoutKill(actions, more[..|more| - 1], family);
    }
  }

  /** The live tokens of the family. */
  ghost function LiveOf(rows: map<Hash, Token>, family: string): set<Hash> {
    set h | h in rows && rows[h].family == family && !rows[h].revoked
  }

  lemma DeadIff(rows: map<Hash, Token>, family: string)
    ensures Dead(rows, family) <==> LiveOf(rows, family) == {}
  {
    if !Dead(rows, family) {
      var h :| h in rows && rows[h].family == family && !rows[h].revoked;
      assert h in LiveOf(rows, family);
    }
  }

  /** A commit of a rotation inside the family leaves its successor as the live token. */
  lemma SuccessorIsLive(s: State, a: Action, family: string)
    requires Inv(s) && AddsSuccessor(s, a, family)
    ensures LiveOf(Act(s, a).committed, family) == {s.txs[a.tx].phase.hash} && s.txs[a.tx].phase.hash !in s.committed
  {
    var t := s.txs[a.tx];
    assert HoldsLive(s, t);
    forall h | h in LiveOf(Act(s, a).committed, family)
      ensures h == t.phase.hash
    {
      assert h != t.phase.hash ==> h in LiveOf(s.committed, family) && h !in t.marks;
    }
    assert t.phase.hash in LiveOf(Act(s, a).committed, family);
  }

  /** A commit of a revocation that revoked a token of the family leaves it dead. */
  lemma KilledIsDead(s: State, a: Action, family: string)
    requires Inv(s) && Kills(s, a, family)
    ensures LiveOf(Act(s, a).committed, family) == {}
  {
    var t := s.txs[a.tx];
    assert MarksLive(s, t);
    var k :| k in t.marks && k in s.committed && s.committed[k].family == family;
    assert k in LiveOf(s.committed, family);
  }

  /** No other action touches the live tokens of a known family. */
  lemma OthersKeepLive(s: State, a: Action, family: string)
    requires Inv(s) && Known(s.committed, family) && !AddsSuccessor(s, a, family) && !Kills(s, a, family)
    ensures LiveOf(Act(s, a).committed, family) == LiveOf(s.committed, family)
  {
    if a.Commit? && Enabled(s, a) {
      var t := s.txs[a.tx];
      assert HoldsLive(s, t);
      assert Act(s, a).committed == Committed(s, t);
      forall h | h in t.marks
        ensures s.committed[h].family != family
      {
        assert t.phase.Added? ==> h == t.presented;
      }
    } else if !a.OpenSession? {
      assert Act(s, a).committed == s.committed;
    }
  }

  /** The transaction neither commits nor rolls back. */
  predicate Goes(actions: seq<Action>, tx: TxId) {
    forall i | 0 <= i < |actions| :: actions[i] != Commit(tx) && actions[i] != Rollback(tx)
  }

  /** The UPDATE of the transaction has just begun, and the family is in its scope. */
  ghost predicate JustBegun(s: State, tx: TxId, family: string) {
    && tx in s.txs && s.txs[tx].phase.Revoking? && s.txs[tx].marks == {}
    && s.txs[tx].phase.seen == Visible(s, s.txs[tx].phase.scope)
    && Known(s.committed, family)
    && forall h | h in LiveOf(s.committed, family) :: InScope(s.txs[tx].phase.scope, s.committed[h])
  }

  /** What the statement that begins the UPDATE leads to, for a family it is for. */
  lemma StartsJustBegun(s: State, tx: TxId, family: string)
    requires Inv(s) && Enabled(s, StartRevoking(tx)) && Known(s.committed, family)
    requires match s.txs[tx].phase.scope
             case OfFamily(f) => f == family
             case OfUser(user) =>
               exists h | h in s.committed :: s.committed[h].family == family && s.committed[h].user == user
    ensures JustBegun(Act(s, StartRevoking(tx)), tx, family)
  {
    var s' := Act(s, StartRevoking(tx));
    assert MarksLive(s, s.txs[tx]);
    assert Visible(s', s.txs[tx].phase.scope) == Visible(s, s.txs[tx].phase.scope);
  }

  /** Where a running UPDATE stands with the family: what is live was seen by it, unless a
      rotation went by. */
  ghost predicate Standing(s: State, tx: TxId, phase: Phase, family: string, rotated: bool) {
    && tx in s.txs && s.txs[tx].phase == phase && phase.Revoking? && Known(s.committed, family)
    && (!rotated ==> LiveOf(s.committed, family) <= phase.seen)
    && (rotated ==> LiveOf(s.committed, family) != {} && LiveOf(s.committed, family) !! phase.seen)
  }

  lemma StandingStep(s: State, a: Action, tx: TxId, phase: Phase, family: string, rotated: bool)
    requires Inv(s) && Standing(s, tx, phase, family, rotated) && a != Commit(tx) && a != Rollback(tx)
    ensures Standing(Act(s, a), tx, phase, family, AddsSuccessor(s, a, family) || (rotated && !Kills(s, a, family)))
  {
    StaysKnown(s, a, family);
    assert MarksLive(s, s.txs[tx]);
    if AddsSuccessor(s, a, family) {
      SuccessorIsLive(s, a, family);
    } else if Kills(s, a, family) {
      KilledIsDead(s, a, family);
    } else {
      OthersKeepLive(s, a, family);
    }
  }

  lemma StaysKnown(s: State, a: Action, family: string)
    requires Inv(s) && Known(s.committed, family)
    ensures Known(Act(s, a).committed, family)
  {
    var k :| k in s.committed && s.committed[k].family == family;
    if a.Commit? && Enabled(s, a) {
      assert HoldsLive(s, s.txs[a.tx]);
    }
    assert k in Act(s, a).committed && Act(s, a).committed[k].family == family;
  }

  lemma {:induction false} StandingRun(actions: seq<Action>, more: seq<Action>, tx: TxId, family: string)
    requires JustBegun(Run(actions), tx, family) && Goes(more, tx)
    ensures Standing(Run(actions + more), tx, Run(actions).txs[tx].phase, family, Rotated(actions, more, family))
  {
    if more == [] {
      assert actions + more == actions;
    } else {
      var shorter := more[..|more| - 1];
      assert (actions + more)[..|actions + more| - 1] == actions + shorter;
      StandingRun(actions, shorter, tx, family);
      NeverTwoLiveTokens(actions + shorter);
      StandingStep(Run(actions + shorter), more[|more| - 1], tx, Run(actions).txs[tx].phase, family,
                   Rotated(actions, shorter, family));
    }
  }

  /** The exact condition. From the state in which the revoking UPDATE begins to its commit,
      whatever is interleaved: the family is dead afterwards iff no rotation inside the family
      committed in between, or another revocation reached the successor. */
  lemma RevocationKillsIff(actions: seq<Action>, more: seq<Action>, tx: TxId, family: string)
    requires JustBegun(Run(actions), tx, family) && Goes(more, tx) && Enabled(Run(actions + more), Commit(tx))
    ensures Dead(Run(actions + more + [Commit(tx)]).committed, family) <==> !Rotated(actions, more, family)
    ensures NoKill(actions, more, family) ==>
              (Dead(Run(actions + more + [Commit(tx)]).committed, family) <==> NoSuccessor(actions, more, family))
  {
    var s, l := Run(actions + more), actions + more + [Commit(tx)];
    assert l[..|l| - 1] == actions + more;
    StandingRun(actions, more, tx, family);
    NeverTwoLiveTokens(actions + more);
    CommitOfFinished(s, tx, family);
    DeadIff(Act(s, Commit(tx)).committed, family);
    if NoKill(actions, more, family) {
      RotatedWithoutKill(actions, more, family);
    }
  }

  /** The commit revokes exactly what the UPDATE saw and found live. */
  lemma CommitOfFinished(s: State, tx: TxId, family: string)
    requires Inv(s) && Enabled(s, Commit(tx)) && s.txs[tx].phase.Revoking?
    ensures LiveOf(Act(s, Commit(tx)).committed, family) == LiveOf(s.committed, family) - s.txs[tx].phase.seen
  {
    assert MarksLive(s, s.txs[tx]);
  }

  /** After it the family is dead for good. */
  lemma RevocationKillsForGood(actions: seq<Action>, more: seq<Action>, tx: TxId, family: string, later: seq<Action>)
    requires JustBegun(Run(actions), tx, family) && Goes(more, tx) && Enabled(Run(actions + more), Commit(tx))
    requires !Rotated(actions, more, family)
    ensures Dead(Run(actions + more + [Commit(tx)] + later).committed, family)
  {
    var l := actions + more + [Commit(tx)];
    assert l[..|l| - 1] == actions + more;
    RevocationKillsIff(actions, more, tx, family);
    StandingRun(actions, more, tx, family);
    NeverTwoLiveTokens(actions + more);
    StaysKnown(Run(actions + more), Commit(tx), family);
    DeadFamilyStaysDead(l, later, family);
  }

  /** The revocation has marked every live token of the family, so it holds its lock. */
  ghost predicate ReachedAll(s: State, tx: TxId, family: string) {
    tx in s.txs && s.txs[tx].phase.Revoking? && LiveOf(s.committed, family) <= s.txs[tx].marks
  }

  /** From then on no rotation inside the family can commit before the revocation ends. */
  lemma ReachedIsStable(s: State, a: Action, tx: TxId, family: string)
    requires Inv(s) && Known(s.committed, family) && ReachedAll(s, tx, family) && a != Commit(tx) && a != Rollback(tx)
    ensures ReachedAll(Act(s, a), tx, family) && !AddsSuccessor(s, a, family) && !Kills(s, a, family)
  {
    assert a.Commit? && Enabled(s, a) ==> HoldsLive(s, s.txs[a.tx]) && MarksLive(s, s.txs[a.tx]);
    assert forall h | h in LiveOf(s.committed, family) :: h in s.txs[tx].locks;
    OthersKeepLive(s, a, family);
  }

  // ---------------------------------------------------------------------------
  // Revocations that a rotation outruns.
  // ---------------------------------------------------------------------------

  lemma RunTwo(l: seq<Action>, a: Action, b: Action)
    ensures Run(l + [a, b]) == Act(Act(Run(l), a), b)
  {
    assert (l + [a, b])[..|l| + 1] == l + [a] && (l + [a])[..|l|] == l;
  }

  lemma RunThree(l: seq<Action>, a: Action, b: Action, c: Action)
    ensures Run(l + [a, b, c]) == Act(Act(Act(Run(l), a), b), c)
  {
    assert (l + [a, b, c])[..|l| + 2] == l + [a, b];
    RunTwo(l, a, b);
  }

  /** A rotation that begins on a live token nobody has locked holds it, marked. */
  lemma BeginsRotating(l: seq<Action>, tx: TxId, p: Hash) returns (l': seq<Action>)
    requires var s := Run(l);
             && tx !in s.txs && p in s.committed && !s.committed[p].revoked
             && forall o | o in s.txs :: p !in s.txs[o].locks
    ensures l' == l + [BeginPresenting(tx, p, false), SelectForUpdate(tx, false), RevokePresented(tx)]
    ensures Run(l') == Run(l).(txs := Run(l).txs[tx := Tx(Marked, p, {p}, {p})])
  {
    l' := l + [BeginPresenting(tx, p, false), SelectForUpdate(tx, false), RevokePresented(tx)];
    RunThree(l, BeginPresenting(tx, p, false), SelectForUpdate(tx, false), RevokePresented(tx));
    var s := Run(l);
    var s1 := Act(s, BeginPresenting(tx, p, false));
    assert !LockedByOther(s1, tx, p);
    assert Act(s1, SelectForUpdate(tx, false)) == s.(txs := s.txs[tx := Tx(Holding, p, {p}, {})]);
  }

  /** Presenting a revoked token nobody has locked leads to an UPDATE of its family. */
  lemma BeginsReuse(l: seq<Action>, tx: TxId, p: Hash) returns (l': seq<Action>)
    requires var s := Run(l);
             && tx !in s.txs && p in s.committed && s.committed[p].revoked
             && forall o | o in s.txs :: p !in s.txs[o].locks
    ensures l' == l + [BeginPresenting(tx, p, false), SelectForUpdate(tx, false), StartRevoking(tx)]
    ensures var s := Run(l);
            var scope := OfFamily(s.committed[p].family);
            Run(l') == s.(txs := s.txs[tx := Tx(Revoking(scope, Visible(s, scope)), p, {p}, {})])
  {
    l' := l + [BeginPresenting(tx, p, false), SelectForUpdate(tx, false), StartRevoking(tx)];
    RunThree(l, BeginPresenting(tx, p, false), SelectForUpdate(tx, false), StartRevoking(tx));
    var s := Run(l);
    var s1 := Act(s, BeginPresenting(tx, p, false));
    assert !LockedByOther(s1, tx, p);
    var scope := OfFamily(s.committed[p].family);
    var s2 := Act(s1, SelectForUpdate(tx, false));
    assert s2 == s.(txs := s.txs[tx := Tx(ToRevoke(scope), p, {p}, {})]);
    assert Visible(s2, scope) == Visible(s, scope);
  }

  /** A password reset or change or an address change leads to an UPDATE of the user's rows. */
  lemma BeginsSignOut(l: seq<Action>, tx: TxId, user: string) returns (l': seq<Action>)
    requires tx !in Run(l).txs
    ensures l' == l + [BeginRevoking(tx, user), StartRevoking(tx)]
    ensures var (s, scope) := (Run(l), OfUser(user));
            Run(l') == s.(txs := s.txs[tx := Tx(Revoking(scope, Visible(s, scope)), "", {}, {})])
  {
    l' := l + [BeginRevoking(tx, user), StartRevoking(tx)];
    RunTwo(l, BeginRevoking(tx, user), StartRevoking(tx));
    var s1 := Act(Run(l), BeginRevoking(tx, user));
    assert s1 == Run(l).(txs := Run(l).txs[tx := Tx(ToRevoke(OfUser(user)), "", {}, {})]);
    assert Visible(s1, OfUser(user)) == Visible(Run(l), OfUser(user));
  }

  /** A rotation that holds its token, marked, inserts a fresh successor and commits. */
  lemma EndsRotating(l: seq<Action>, tx: TxId, p: Hash, h: Hash) returns (l': seq<Action>)
    requires var s := Run(l);
             && tx in s.txs && s.txs[tx] == Tx(Marked, p, {p}, {p}) && p in s.committed && FreshHash(s, h)
    ensures l' == l + [InsertSuccessor(tx, h), Commit(tx)]
    ensures var s := Run(l);
            Run(l') ==
            State(s.committed[p := s.committed[p].(revoked := true)][h := s.committed[p].(revoked := false)],
              s.txs - {tx})
  {
    l' := l + [InsertSuccessor(tx, h), Commit(tx)];
    RunTwo(l, InsertSuccessor(tx, h), Commit(tx));
    var s := Run(l);
    var s1 := Act(s, InsertSuccessor(tx, h));
    assert s1 == s.(txs := s.txs[tx := Tx(Added(h), p, {p}, {p})]);
    assert s1.txs - {tx} == s.txs - {tx};
  }

  const LIVE := Token("u", "f", false)
  const SPENT := Token("u", "f", true)

  /** Token a was rotated into b, and b is being rotated into c by transaction 2. */
  lemma RotatingAgain() returns (l: seq<Action>)
    ensures Run(l) == State(map["a" := SPENT, "b" := LIVE], map[2 := Tx(Marked, "b", {"b"}, {"b"})])
  {
    l := [OpenSession("a", "u", "f")];
    assert l[..0] == [] && Run(l) == State(map["a" := LIVE], map[]);
    l := BeginsRotating(l, 1, "a");
    l := EndsRotating(l, 1, "a", "b");
    assert Run(l).txs == map[];
    l := BeginsRotating(l, 2, "b");
  }

  /** The UPDATE of transaction 3 has begun and saw b only. It has to wait for b; once b's
      rotation has committed it finds b revoked and is done, without a look at c. */
  lemma OutrunFrom(l: seq<Action>, t: Tx) returns (l': seq<Action>)
    requires t.phase.Revoking? && t.phase.seen == {"b"} && t.marks == {}
    requires Run(l) == State(map["a" := SPENT, "b" := LIVE], map[2 := Tx(Marked, "b", {"b"}, {"b"}), 3 := t])
    ensures !Enabled(Run(l), RevokeRow(3, "b")) && !Enabled(Run(l), Commit(3))
    ensures l' == l + [InsertSuccessor(2, "c"), Commit(2)] && Enabled(Run(l'), Commit(3))
    ensures Run(l' + [Commit(3)]) == State(map["a" := SPENT, "b" := SPENT, "c" := LIVE], map[])
  {
    assert 2 in Run(l).txs && "b" in Run(l).txs[2].locks;
    l' := EndsRotating(l, 2, "b", "c");
    assert Run(l') == State(map["a" := SPENT, "b" := SPENT, "c" := LIVE], map[3 := t]);
    assert (l' + [Commit(3)])[..|l'|] == l';
  }

  /** The spent a is presented again while b is being rotated: the reuse is detected and its
      revocation committed, yet the family has a live token. */
  lemma ReuseCanBeOutrun() returns (l: seq<Action>, more: seq<Action>)
    ensures JustBegun(Run(l), 3, "f") && Run(l).txs[3].presented == "a"
    ensures "a" in Run(l).committed && Run(l).committed["a"] == SPENT
    ensures Goes(more, 3) && Enabled(Run(l + more), Commit(3))
    ensures Run(l + more + [Commit(3)]) == State(map["a" := SPENT, "b" := SPENT, "c" := LIVE], map[])
  {
    l := RotatingAgain();
    assert Visible(Run(l), OfFamily("f")) == {"b"};
    l := BeginsReuse(l, 3, "a");
    assert "b" in Run(l).committed;
    var l' := OutrunFrom(l, Run(l).txs[3]);
    more := [InsertSuccessor(2, "c"), Commit(2)];
  }

  /** So does a password reset or change or an address change of the user: he is signed out, yet
      the session being rotated goes on. */
  lemma SignOutCanBeOutrun() returns (l: seq<Action>, more: seq<Action>)
    ensures JustBegun(Run(l), 3, "f") && Run(l).txs[3].phase.scope == OfUser("u")
    ensures Goes(more, 3) && Enabled(Run(l + more), Commit(3))
    ensures Run(l + more + [Commit(3)]) == State(map["a" := SPENT, "b" := SPENT, "c" := LIVE], map[])
  {
    l := RotatingAgain();
    assert Visible(Run(l), OfUser("u")) == {"b"};
    l := BeginsSignOut(l, 3, "u");
    assert "b" in Run(l).committed;
    var l' := OutrunFrom(l, Run(l).txs[3]);
    more := [InsertSuccessor(2, "c"), Commit(2)];
  }
}
