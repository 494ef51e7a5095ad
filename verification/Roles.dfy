/**
 Replacing the role set of a user: name validation, name resolution, and the rewrite of the
 bridge table `tb_user_role` under its history trigger.
 */
module Roles {
  import opened Prelude
  import opened History
  import opened HistoryLaws
  import Lex

  type UserId = string
  type RoleId = string

  datatype Role = Role(name: string, active: bool, deleted: bool)

  datatype RoleError = UnknownRole | NotFound | StoreError

  /** The store calls of one replacement; each of them may fail. */
  datatype Call = Begin | CheckUser | ResolveRoles | ClearRoles | AssignRoles | Commit

  /** The partial unique index on active role names. */
  ghost predicate UniqueNames(roles: map<RoleId, Role>) {
    forall a, b | a in roles && b in roles && !roles[a].deleted && !roles[b].deleted ::
      roles[a].name == roles[b].name ==> a == b
  }

  predicate Grants(roles: map<RoleId, Role>, id: RoleId, name: string) {
    id in roles && roles[id].active && !roles[id].deleted && roles[id].name == name
  }

  /** The rows the resolving query selects. */
  function Matching(roles: map<RoleId, Role>, names: seq<string>): set<RoleId> {
    set id | id in roles && roles[id].name in names && Grants(roles, id, roles[id].name)
  }

  ghost predicate WellNamed(names: seq<string>) {
    "" !in names && Lex.Distinct(names)
  }

  ghost predicate AllGranted(roles: map<RoleId, Role>, names: seq<string>) {
    forall n | n in names :: exists id :: Grants(roles, id, n)
  }

  // ---------------------------------------------------------------------------
  // The length comparison.
  // ---------------------------------------------------------------------------

  /** A one-to-one image has as many elements as its source. */
  lemma {:induction false} NamesOf(roles: map<RoleId, Role>, ids: set<RoleId>)
    requires UniqueNames(roles) && forall id | id in ids :: id in roles && !roles[id].deleted
    ensures |set id | id in ids :: roles[id].name| == |ids|
  {
    if ids != {} {
      var id :| id in ids;
      NamesOf(roles, ids - {id});
      assert (set x | x in ids :: roles[x].name) == (set x | x in ids - {id} :: roles[x].name) + {roles[id].name};
    }
  }

  lemma SubsetOfSameSize<T>(a: set<T>, b: set<T>)
    requires a <= b && |a| == |b|
    ensures a == b
  {
    assert b == a + (b - a);
  }

  /** Comparing lengths decides whether every name is an active role: pigeonhole, given
      distinct names and one active role per name. */
  lemma LengthCheckIsExact(roles: map<RoleId, Role>, names: seq<string>)
    requires UniqueNames(roles) && Lex.Distinct(names)
    ensures |Matching(roles, names)| == |names| <==> AllGranted(roles, names)
  {
    var ids := Matching(roles, names);
    var matched := set id | id in ids :: roles[id].name;
    var wanted := Lex.Elements(names);
    NamesOf(roles, ids);
    Lex.DistinctCount(names);
    if |ids| == |names| {
      SubsetOfSameSize(matched, wanted);
      forall n | n in names ensures exists id :: Grants(roles, id, n) {
        assert n in matched;
      }
    }
    if AllGranted(roles, names) {
      forall n | n in wanted ensures n in matched {
        var id :| Grants(roles, id, n);
        assert id in ids;
      }
      assert matched == wanted;
    }
  }

  /** Without the unique index two roles of one name would stand in for a missing one. */
  lemma LengthCheckNeedsUniqueNames()
    ensures var roles := map["1" := Role("ADMIN", true, false), "2" := Role("ADMIN", true, false)];
            && |Matching(roles, ["ADMIN", "EDITOR"])| == 2
            && !AllGranted(roles, ["ADMIN", "EDITOR"])
  {
    var roles := map["1" := Role("ADMIN", true, false), "2" := Role("ADMIN", true, false)];
    assert Matching(roles, ["ADMIN", "EDITOR"]) == {"1", "2"};
    assert "EDITOR" in ["ADMIN", "EDITOR"];
  }

  // ---------------------------------------------------------------------------
  // The operation.
  // ---------------------------------------------------------------------------

  function RowsOf(source: map<(UserId, RoleId), Row<(), int>>, user: UserId): set<(UserId, RoleId)> {
    set p | p in source && p.0 == user
  }

  function Pairs(user: UserId, ids: set<RoleId>): set<(UserId, RoleId)> {
    set id | id in ids :: (user, id)
  }

  /** The bridge rows after the replacement: the user's old rows are gone, and there is one
      new row for each role. */
  function Replaced(source: map<(UserId, RoleId), Row<(), int>>, user: UserId, ids: set<RoleId>, ts: int)
    : map<(UserId, RoleId), Row<(), int>>
  {
    (source - RowsOf(source, user)) + map p | p in Pairs(user, ids) :: Row((), ts, ts)
  }

  /** Statements of one transaction that touch the rows of one user only. */
  ghost predicate LogOf(log: seq<Event<(UserId, RoleId), (), int>>, user: UserId, ts: int,
                        actor: Option<string>)
  {
    forall i | 0 <= i < |log| ::
      log[i].ts == ts && log[i].actor == actor && forall p | p in TouchedKeys(log[i].write) :: p.0 == user
  }

  lemma LogNext(log: seq<Event<(UserId, RoleId), (), int>>, user: UserId, e: Event<(UserId, RoleId), (), int>)
    requires LogOf(log, user, e.ts, e.actor) && forall p | p in TouchedKeys(e.write) :: p.0 == user
    ensures LogOf(log + [e], user, e.ts, e.actor)
  {
  }

  lemma LogAppend(a: seq<Event<(UserId, RoleId), (), int>>, b: seq<Event<(UserId, RoleId), (), int>>,
                  user: UserId, ts: int, actor: Option<string>)
    requires LogOf(a, user, ts, actor) && LogOf(b, user, ts, actor)
    ensures LogOf(a + b, user, ts, actor)
  {
  }

  lemma ExecAllNext<K, P, R>(db: Db<K, P, R>, log: seq<Event<K, P, R>>, e: Event<K, P, R>)
    ensures ExecAll(db, log + [e]) == Exec(ExecAll(db, log), e)
  {
    assert (log + [e])[..|log + [e]| - 1] == log;
  }

  /** At some point of the log the user has no row left. */
  ghost predicate ClearsFirst(start: Db<(UserId, RoleId), (), int>, log: seq<Event<(UserId, RoleId), (), int>>,
                              user: UserId)
  {
    exists k | 0 <= k <= |log| :: RowsOf(ExecAll(start, log[..k]).source, user) == {}
  }

  class Directory {
    const bridge: TrackedTable<(UserId, RoleId), (), int>
    var live: set<UserId>
    var roles: map<RoleId, Role>

    /** `grants` are the bridge rows stored before the triggers existed. */
    constructor (live: set<UserId>, roles: map<RoleId, Role>, grants: map<(UserId, RoleId), Row<(), int>>)
      ensures bridge.View() == Db(grants, []) && fresh(bridge)
      ensures this.live == live && this.roles == roles
    {
      bridge := new TrackedTable(grants);
      this.live := live;
      this.roles := roles;
    }

    static method ValidateRoles(names: seq<string>) returns (r: Outcome<RoleError>)
      ensures r.Pass? <==> WellNamed(names)
      ensures r.Fail? ==> r == Fail(UnknownRole)
    {
      var seen: set<string> := {};
      for i := 0 to |names|
        invariant seen == Lex.Elements(names[..i])
        invariant "" !in names[..i] && Lex.Distinct(names[..i])
      {
        assert names[..i + 1] == names[..i] + [names[i]];
        if names[i] == "" {
          assert names[i] in names;
          return Fail(UnknownRole);
        }
        if names[i] in seen {
          var j :| 0 <= j < i && names[j] == names[i];
          return Fail(UnknownRole);
        }
        seen := seen + {names[i]};
      }
      assert names[..|names|] == names;
      return Pass;
    }

    /** The resolving query; its rows arrive in no particular order. */
    method Resolve(names: seq<string>) returns (ids: seq<RoleId>, found: seq<string>)
      ensures Lex.Distinct(ids) && Lex.Elements(ids) == Matching(roles, names)
      ensures |ids| == |Matching(roles, names)|
      ensures |found| == |ids| && forall i | 0 <= i < |ids| :: ids[i] in roles && found[i] == roles[ids[i]].name
    {
      var all := Matching(roles, names);
      var rest := all;
      ids, found := [], [];
      while rest != {}
        invariant rest <= all
        invariant Lex.Elements(ids) == all - rest
        invariant Lex.Distinct(ids)
        invariant |found| == |ids| && forall i | 0 <= i < |ids| :: ids[i] in roles && found[i] == roles[ids[i]].name
        decreases |rest|
      {
        var id :| id in rest;
        assert id in all;
        Lex.DistinctSnoc(ids, id);
        ids, found := ids + [id], found + [roles[id].name];
        rest := rest - {id};
      }
      Lex.DistinctCount(ids);
    }

    /** One statement of the transaction; while no interval starts after `ts`, the history never
        stops it. */
    method Statement(w: Write<(UserId, RoleId), (), int>, user: UserId, ts: int, actor: Option<string>,
                     ghost start: Db<(UserId, RoleId), (), int>, ghost log: seq<Event<(UserId, RoleId), (), int>>,
                     ghost dark: set<(UserId, RoleId)>)
      returns (r: Outcome<Rejection>, ghost log': seq<Event<(UserId, RoleId), (), int>>,
               ghost dark': set<(UserId, RoleId)>)
      requires Mirrors(bridge.View(), dark) && forall p | p in TouchedKeys(w) :: p.0 == user
      requires bridge.View() == ExecAll(start, log) && LogOf(log, user, ts, actor)
      modifies bridge
      ensures bridge.View() == ExecAll(start, log') && LogOf(log', user, ts, actor) && Mirrors(bridge.View(), dark')
      ensures r.Pass? ==> bridge.source == PlainExec(old(bridge.source), w)
      ensures Settled(old(bridge.history), ts) ==>
                Settled(bridge.history, ts) && (RowChange(old(bridge.source), w).Ok? ==> r.Pass?)
    {
      ghost var db, e := bridge.View(), Event(w, ts, actor);
      ExecAllNext(start, log, e);
      LogNext(log, user, e);
      ExecMirrors(db, dark, e);
      if Settled(db.history, ts) {
        ExecSettled(db, dark, e);
      }
      log' := log + [e];
      dark' := if |Exec(db, e).history| == |db.history| then dark else dark - TouchedKeys(w);
      r := bridge.Execute(w, ts, actor);
    }

    /** `DELETE FROM tb_user_role WHERE co_user = $1`, row by row through the trigger. */
    method Clear(user: UserId, ts: int, actor: Option<string>, ghost dark: set<(UserId, RoleId)>)
      returns (r: Outcome<Rejection>, ghost log: seq<Event<(UserId, RoleId), (), int>>,
               ghost dark': set<(UserId, RoleId)>)
      requires Mirrors(bridge.View(), dark)
      modifies bridge
      ensures bridge.View() == ExecAll(old(bridge.View()), log) && LogOf(log, user, ts, actor)
              && Mirrors(bridge.View(), dark')
      ensures r.Pass? ==> bridge.source == old(bridge.source) - RowsOf(old(bridge.source), user)
      ensures Settled(old(bridge.history), ts) ==> r.Pass? && Settled(bridge.history, ts)
    {
      ghost var start := bridge.View();
      var mine := RowsOf(bridge.source, user);
      var rest := mine;
      log, dark' := [], dark;
      while rest != {}
        invariant rest <= mine && Mirrors(bridge.View(), dark')
        invariant bridge.View() == ExecAll(start, log) && LogOf(log, user, ts, actor)
        invariant Settled(start.history, ts) ==> Settled(bridge.history, ts)
        invariant bridge.source == start.source - (mine - rest)
        decreases |rest|
      {
        var p :| p in rest;
        r, log, dark' := Statement(Delete(p), user, ts, actor, start, log, dark');
        if r.Fail? {
          return;
        }
        rest := rest - {p};
      }
      r := Pass;
    }

    /** `INSERT INTO tb_user_role SELECT $1, unnest($2)`. */
    method Assign(user: UserId, ids: seq<RoleId>, ts: int, actor: Option<string>, ghost dark: set<(UserId, RoleId)>)
      returns (r: Outcome<Rejection>, ghost log: seq<Event<(UserId, RoleId), (), int>>)
      requires Mirrors(bridge.View(), dark) && Lex.Distinct(ids) && RowsOf(bridge.source, user) == {}
      modifies bridge
      ensures bridge.View() == ExecAll(old(bridge.View()), log) && LogOf(log, user, ts, actor)
      ensures r.Pass? ==> bridge.source == Replaced(old(bridge.source), user, Lex.Elements(ids), ts)
      ensures Settled(old(bridge.history), ts) ==> r.Pass?
    {
      ghost var start, dark' := bridge.View(), dark;
      log := [];
      ReplacedNone(bridge.source, user, ids, ts);
      var i := 0;
      while i < |ids|
        invariant 0 <= i <= |ids| && Mirrors(bridge.View(), dark')
        invariant bridge.View() == ExecAll(start, log) && LogOf(log, user, ts, actor)
        invariant Settled(start.history, ts) ==> Settled(bridge.history, ts)
        invariant bridge.source == Replaced(start.source, user, Lex.Elements(ids[..i]), ts)
      {
        AssignNext(start.source, user, ids, i, ts);
        r, log, dark' := Statement(Insert((user, ids[i]), Row((), ts, ts)), user, ts, actor, start, log, dark');
        if r.Fail? {
          return;
        }
        i := i + 1;
      }
      assert ids[..|ids|] == ids;
      r := Pass;
    }

    /** The two statements of the replacement and its commit; a failure rolls them back. */
    method Rewrite(user: UserId, ids: seq<RoleId>, ts: int, actor: Option<string>, faults: set<Call>,
                   ghost dark: set<(UserId, RoleId)>)
      returns (r: Outcome<RoleError>, ghost log: seq<Event<(UserId, RoleId), (), int>>)
      requires Mirrors(bridge.View(), dark) && Lex.Distinct(ids)
      modifies bridge
      ensures r.Pass? ==> bridge.source == Replaced(old(bridge.source), user, Lex.Elements(ids), ts)
      ensures r.Pass? ==> bridge.View() == ExecAll(old(bridge.View()), log) && LogOf(log, user, ts, actor)
      ensures r.Pass? ==> ClearsFirst(old(bridge.View()), log, user)
      ensures r.Fail? ==> r == Fail(StoreError) && bridge.View() == old(bridge.View())
      ensures faults == {} && Settled(old(bridge.history), ts) ==> r.Pass?
    {
      var source, history := bridge.source, bridge.history;
      var step;
      ghost var cleared, dark', granted;
      step, cleared, dark' := Clear(user, ts, actor, dark);
      if step.Pass? && ClearRoles !in faults {
        ReplacedCleared(source, user, Lex.Elements(ids), ts);
        step, granted := Assign(user, ids, ts, actor, dark');
        if step.Pass? && (|ids| == 0 || AssignRoles !in faults) && Commit !in faults {
          ExecAllAppend(Db(source, history), cleared, granted);
          LogAppend(cleared, granted, user, ts, actor);
          assert (cleared + granted)[..|cleared|] == cleared;
          return Pass, cleared + granted;
        }
      }
      bridge.source, bridge.history := source, history;
      return Fail(StoreError), [];
    }

    /** Replaces the complete role set of a user in one transaction. `seeds` are the rows from
        before the triggers, `es` is all that was written to the bridge table since. */
    method SetRoles(user: UserId, names: seq<string>, ts: int, actor: Option<string>, faults: set<Call>,
                    ghost seeds: map<(UserId, RoleId), Row<(), int>>, ghost es: seq<Event<(UserId, RoleId), (), int>>)
      returns (r: Result<seq<string>, RoleError>, ghost log: seq<Event<(UserId, RoleId), (), int>>)
      requires UniqueNames(roles) && bridge.View() == Run(seeds, es)
      modifies bridge
      ensures r.Ok? ==> user in live && WellNamed(names) && AllGranted(roles, names)
      ensures user in live && WellNamed(names) && AllGranted(roles, names)
              && faults == {} && Settled(old(bridge.history), ts)
              ==> r.Ok?
      ensures faults == {} && WellNamed(names) && user !in live ==> r == Err(NotFound)
      ensures !WellNamed(names) || (faults == {} && user in live && !AllGranted(roles, names)) ==> r == Err(UnknownRole)
      ensures r.Ok? ==> Lex.Ordered(r.value) && multiset(r.value) == multiset(names)
      ensures r.Ok? ==> bridge.source == Replaced(old(bridge.source), user, Matching(roles, names), ts)
      ensures r.Ok? ==> forall id :: (user, id) in bridge.source <==>
                          id in roles && roles[id].active && !roles[id].deleted && roles[id].name in names
      ensures r.Ok? ==> bridge.View() == Run(seeds, es + log) && LogOf(log, user, ts, actor)
      ensures r.Ok? && Nondecreasing(es) && (forall i | 0 <= i < |es| :: es[i].ts <= ts) ==>
                RolesReplaced(old(bridge.history), bridge.history, user, Matching(roles, names), ts)
      ensures r.Err? ==> bridge.View() == old(bridge.View())
    {
      log := [];
      HistoryMirrorsSource(seeds, es);
      var valid := ValidateRoles(names);
      if valid.Fail? {
        return Err(UnknownRole), [];
      }
      if Begin in faults || CheckUser in faults {
        return Err(StoreError), [];
      }
      if user !in live {
        return Err(NotFound), [];
      }
      if ResolveRoles in faults {
        return Err(StoreError), [];
      }
      var ids, found := Resolve(names);
      LengthCheckIsExact(roles, names);
      if |ids| != |names| {
        return Err(UnknownRole), [];
      }
      var done;
      done, log := Rewrite(user, ids, ts, actor, faults, Dark(seeds, es));
      if done.Fail? {
        return Err(StoreError), [];
      }
      FoundNames(roles, names, ids, found);
      ExecAllAppend(Db(seeds, []), es, log);
      if Nondecreasing(es) && forall i | 0 <= i < |es| :: es[i].ts <= ts {
        ReplacementThroughHistory(seeds, es, log, user, Matching(roles, names), ts, actor);
      }
      GrantedRows(old(bridge.source), user, roles, names, ts);
      r := Ok(Lex.Sort(found));
    }
  }

  /** After the replacement the user's rows are those of the active roles asked for. */
  lemma GrantedRows(source: map<(UserId, RoleId), Row<(), int>>, user: UserId, roles: map<RoleId, Role>,
                    names: seq<string>, ts: int)
    ensures forall id :: (user, id) in Replaced(source, user, Matching(roles, names), ts) <==>
              id in roles && roles[id].active && !roles[id].deleted && roles[id].name in names
  {
    forall id
      ensures (user, id) in Replaced(source, user, Matching(roles, names), ts) <==> id in Matching(roles, names)
    {
      assert (user, id) in Pairs(user, Matching(roles, names)) <==> id in Matching(roles, names);
      assert (user, id) in source ==> (user, id) in RowsOf(source, user);
    }
  }

  lemma ReplacedCleared(source: map<(UserId, RoleId), Row<(), int>>, user: UserId, ids: set<RoleId>, ts: int)
    ensures RowsOf(source - RowsOf(source, user), user) == {}
    ensures Replaced(source - RowsOf(source, user), user, ids, ts) == Replaced(source, user, ids, ts)
  {
  }

  lemma ReplacedNone(source: map<(UserId, RoleId), Row<(), int>>, user: UserId, ids: seq<RoleId>, ts: int)
    requires RowsOf(source, user) == {}
    ensures Replaced(source, user, Lex.Elements(ids[..0]), ts) == source
  {
    assert Pairs(user, Lex.Elements(ids[..0])) == {};
  }

  lemma ReplacedMore(source: map<(UserId, RoleId), Row<(), int>>, user: UserId, ids: set<RoleId>, id: RoleId, ts: int)
    requires id !in ids
    ensures (user, id) !in Replaced(source, user, ids, ts)
    ensures Replaced(source, user, ids + {id}, ts) == Replaced(source, user, ids, ts)[(user, id) := Row((), ts, ts)]
  {
    assert Pairs(user, ids + {id}) == Pairs(user, ids) + {(user, id)};
    assert (user, id) in source ==> (user, id) in RowsOf(source, user);
  }

  lemma ReplacedNext(source: map<(UserId, RoleId), Row<(), int>>, user: UserId, ids: seq<RoleId>, i: nat, ts: int)
    requires i < |ids| && Lex.Distinct(ids)
    ensures (user, ids[i]) !in Replaced(source, user, Lex.Elements(ids[..i]), ts)
    ensures Replaced(source, user, Lex.Elements(ids[..i + 1]), ts) ==
            Replaced(source, user, Lex.Elements(ids[..i]), ts)[(user, ids[i]) := Row((), ts, ts)]
  {
    assert ids[..i + 1] == ids[..i] + [ids[i]];
    Lex.DistinctSnoc(ids[..i], ids[i]);
    ReplacedMore(source, user, Lex.Elements(ids[..i]), ids[i], ts);
  }

  /** The insert of the next role is accepted and adds the next row. */
  lemma AssignNext(source: map<(UserId, RoleId), Row<(), int>>, user: UserId, ids: seq<RoleId>, i: nat, ts: int)
    requires i < |ids| && Lex.Distinct(ids)
    ensures var w := Insert((user, ids[i]), Row((), ts, ts));
            var before := Replaced(source, user, Lex.Elements(ids[..i]), ts);
            && RowChange(before, w).Ok?
            && PlainExec(before, w) == Replaced(source, user, Lex.Elements(ids[..i + 1]), ts)
  {
    ReplacedNext(source, user, ids, i, ts);
  }

  lemma FoundNames(roles: map<RoleId, Role>, names: seq<string>, ids: seq<RoleId>, found: seq<string>)
    requires UniqueNames(roles) && Lex.Distinct(names) && AllGranted(roles, names)
    requires Lex.Distinct(ids) && Lex.Elements(ids) == Matching(roles, names) && |ids| == |found|
    requires forall i | 0 <= i < |ids| :: ids[i] in roles && found[i] == roles[ids[i]].name
    ensures multiset(found) == multiset(names)
  {
    forall i ensures 0 <= i < |ids| ==> ids[i] in Matching(roles, names) {
      if 0 <= i < |ids| {
        assert ids[i] in Lex.Elements(ids);
      }
    }
    assert Lex.Distinct(found);
    forall n ensures n in found <==> n in names {
      if n in names {
        var id :| Grants(roles, id, n);
        assert id in Matching(roles, names);
        assert id in ids;
      }
    }
    assert Lex.Elements(found) == Lex.Elements(names);
    Lex.DistinctMultiset(found);
    Lex.DistinctMultiset(names);
  }

  // ---------------------------------------------------------------------------
  // The replacement seen through the history.
  // ---------------------------------------------------------------------------

  /** The roles the history reports for a user at an instant. */
  function RolesAsOf(h: seq<Interval<(UserId, RoleId), ()>>, user: UserId, at: int): set<RoleId> {
    set i | 0 <= i < |h| && h[i].key.0 == user && CoversAt(h, h[i].key, at, i) :: h[i].key.1
  }

  lemma ClearedIsNotDark(seeds: map<(UserId, RoleId), Row<(), int>>, es: seq<Event<(UserId, RoleId), (), int>>,
                         user: UserId, id: RoleId)
    requires RowsOf(Run(seeds, es).source, user) == {}
    ensures (user, id) !in Dark(seeds, es)
  {
    HistoryMirrorsSource(seeds, es);
    assert (user, id) in Run(seeds, es).source ==> (user, id) in RowsOf(Run(seeds, es).source, user);
  }

  lemma ClearedPrefix(seeds: map<(UserId, RoleId), Row<(), int>>, es: seq<Event<(UserId, RoleId), (), int>>,
                      log: seq<Event<(UserId, RoleId), (), int>>, k: nat)
    requires k <= |log|
    ensures Run(seeds, (es + log)[..|es| + k]) == ExecAll(Run(seeds, es), log[..k])
  {
    assert (es + log)[..|es| + k] == es + log[..k];
    ExecAllAppend(Db(seeds, []), es, log[..k]);
  }

  /** Rows from before the triggers are out of the way once the user's rows were cleared. */
  lemma NothingDarkAfter(seeds: map<(UserId, RoleId), Row<(), int>>, es: seq<Event<(UserId, RoleId), (), int>>,
                         log: seq<Event<(UserId, RoleId), (), int>>, user: UserId, id: RoleId)
    requires ClearsFirst(Run(seeds, es), log, user)
    ensures (user, id) !in Dark(seeds, es + log)
  {
    var k :| 0 <= k <= |log| && RowsOf(ExecAll(Run(seeds, es), log[..k]).source, user) == {};
    ClearedPrefix(seeds, es, log, k);
    NotDarkFrom(seeds, es + log, |es| + k, user, id);
  }

  lemma NotDarkFrom(seeds: map<(UserId, RoleId), Row<(), int>>, es: seq<Event<(UserId, RoleId), (), int>>, n: nat,
                    user: UserId, id: RoleId)
    requires n <= |es| && RowsOf(Run(seeds, es[..n]).source, user) == {}
    ensures (user, id) !in Dark(seeds, es)
  {
    ClearedIsNotDark(seeds, es[..n], user, id);
    DarkShrinks(seeds, es, n);
  }

  /** The as-of role set is the set of bridge rows at that instant, but for rows from before the
      triggers that no recorded write had touched by then. */
  lemma RolesAsOfIsThePast(seeds: map<(UserId, RoleId), Row<(), int>>, es: seq<Event<(UserId, RoleId), (), int>>,
                           user: UserId, at: int, id: RoleId)
    requires Nondecreasing(es)
    ensures id in RolesAsOf(Run(seeds, es).history, user, at) <==>
            (user, id) in PlainRun(seeds, Upto(es, at)) && (user, id) !in Dark(seeds, Upto(es, at))
  {
    AsOfIsThePast(seeds, es, (user, id), at);
    var h := Run(seeds, es).history;
    if (user, id) in PlainRun(seeds, Upto(es, at)) && (user, id) !in Dark(seeds, Upto(es, at)) {
      var i :| CoversAt(h, (user, id), at, i);
    }
  }

  lemma {:induction false} UptoBefore(es: seq<Event<(UserId, RoleId), (), int>>,
                                      log: seq<Event<(UserId, RoleId), (), int>>, ts: int, at: int)
    requires forall i | 0 <= i < |log| :: log[i].ts == ts
    requires at < ts
    ensures Upto(es + log, at) == Upto(es, at)
  {
    if log == [] {
      assert es + log == es;
    } else {
      assert (es + log)[..|es + log| - 1] == es + log[..|log| - 1];
      UptoBefore(es, log[..|log| - 1], ts, at);
    }
  }

  /** Statements on one user's rows leave every other user's intervals alone. */
  lemma {:induction false} OthersUntouched(db: Db<(UserId, RoleId), (), int>,
                                           log: seq<Event<(UserId, RoleId), (), int>>, user: UserId, ts: int,
                                           actor: Option<string>)
    requires LogOf(log, user, ts, actor)
    ensures var h, h' := db.history, ExecAll(db, log).history;
            && |h| <= |h'|
            && (forall i | 0 <= i < |h| && h[i].key.0 != user :: h'[i] == h[i])
            && (forall i | |h| <= i < |h'| :: h'[i].key.0 == user)
            && (forall i | 0 <= i < |h| :: h'[i].key == h[i].key)
  {
    if log != [] {
      var before, last := log[..|log| - 1], log[|log| - 1];
      OthersUntouched(db, before, user, ts, actor);
      var mid := ExecAll(db, before);
      if |Exec(mid, last).history| == |mid.history| {
        QuietShape(mid, last);
      } else {
        var c := RecordedShape(mid, last);
      }
    }
  }

  lemma EarlierRolesKept(seeds: map<(UserId, RoleId), Row<(), int>>, es: seq<Event<(UserId, RoleId), (), int>>,
                         log: seq<Event<(UserId, RoleId), (), int>>, user: UserId, ts: int,
                         actor: Option<string>, at: int)
    requires Nondecreasing(es) && Nondecreasing(es + log) && LogOf(log, user, ts, actor) && at < ts
    ensures RolesAsOf(Run(seeds, es + log).history, user, at) == RolesAsOf(Run(seeds, es).history, user, at)
  {
    UptoBefore(es, log, ts, at);
    forall id
      ensures id in RolesAsOf(Run(seeds, es + log).history, user, at) <==>
              id in RolesAsOf(Run(seeds, es).history, user, at)
    {
      RolesAsOfIsThePast(seeds, es, user, at, id);
      RolesAsOfIsThePast(seeds, es + log, user, at, id);
    }
  }

  lemma LaterRolesExact(seeds: map<(UserId, RoleId), Row<(), int>>, es: seq<Event<(UserId, RoleId), (), int>>,
                        source: map<(UserId, RoleId), Row<(), int>>, user: UserId, ids: set<RoleId>, ts: int, at: int)
    requires Nondecreasing(es) && forall i | 0 <= i < |es| :: es[i].ts <= at
    requires Run(seeds, es).source == Replaced(source, user, ids, ts)
    requires forall id :: (user, id) !in Dark(seeds, es)
    ensures RolesAsOf(Run(seeds, es).history, user, at) == ids
  {
    UptoAll(es, at);
    TriggersAreTransparent(seeds, es);
    forall id
      ensures id in RolesAsOf(Run(seeds, es).history, user, at) <==> id in ids
    {
      RolesAsOfIsThePast(seeds, es, user, at, id);
      assert (user, id) in Pairs(user, ids) <==> id in ids;
      assert (user, id) in source ==> (user, id) in RowsOf(source, user);
    }
  }

  /** A role replacement, seen through the history: earlier instants keep the roles they had,
      from its instant on the user has exactly the requested roles, a kept role shows no gap,
      and nobody else's intervals change. */
  ghost predicate RolesReplaced(h: seq<Interval<(UserId, RoleId), ()>>, h': seq<Interval<(UserId, RoleId), ()>>,
                                user: UserId, ids: set<RoleId>, ts: int)
  {
    && (forall at | at < ts :: RolesAsOf(h', user, at) == RolesAsOf(h, user, at))
    && (forall at | ts <= at :: RolesAsOf(h', user, at) == ids)
    && (forall id, i, at | id in ids && OpenAt(h, (user, id), i) && h[i].from <= at :: id in RolesAsOf(h', user, at))
    && |h| <= |h'|
    && (forall i | 0 <= i < |h| && h[i].key.0 != user :: h'[i] == h[i])
    && (forall i | |h| <= i < |h'| :: h'[i].key.0 == user)
  }

  lemma ReplacementThroughHistory(seeds: map<(UserId, RoleId), Row<(), int>>, es: seq<Event<(UserId, RoleId), (), int>>,
                                  log: seq<Event<(UserId, RoleId), (), int>>, user: UserId, ids: set<RoleId>, ts: int,
                                  actor: Option<string>)
    requires Nondecreasing(es) && forall i | 0 <= i < |es| :: es[i].ts <= ts
    requires LogOf(log, user, ts, actor) && ClearsFirst(Run(seeds, es), log, user)
    requires Run(seeds, es + log).source == Replaced(Run(seeds, es).source, user, ids, ts)
    ensures RolesReplaced(Run(seeds, es).history, Run(seeds, es + log).history, user, ids, ts)
  {
    var h, h' := Run(seeds, es).history, Run(seeds, es + log).history;
    assert Nondecreasing(es + log);
    ExecAllAppend(Db(seeds, []), es, log);
    OthersUntouched(Run(seeds, es), log, user, ts, actor);
    forall at | at < ts ensures RolesAsOf(h', user, at) == RolesAsOf(h, user, at) {
      EarlierRolesKept(seeds, es, log, user, ts, actor, at);
    }
    forall id ensures (user, id) !in Dark(seeds, es + log) {
      NothingDarkAfter(seeds, es, log, user, id);
    }
    forall at | ts <= at ensures RolesAsOf(h', user, at) == ids {
      LaterRolesExact(seeds, es + log, Run(seeds, es).source, user, ids, ts, at);
    }
    forall id, i, at | id in ids && OpenAt(h, (user, id), i) && h[i].from <= at
      ensures id in RolesAsOf(h', user, at)
    {
      OpenRoleIsThere(h, user, id, i, at);
    }
  }

  lemma OpenRoleIsThere(h: seq<Interval<(UserId, RoleId), ()>>, user: UserId, id: RoleId, i: int, at: int)
    requires OpenAt(h, (user, id), i) && h[i].from <= at
    ensures id in RolesAsOf(h, user, at)
  {
    assert CoversAt(h, (user, id), at, i);
  }
}
