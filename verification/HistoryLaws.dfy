/**
 What the history promises about every run of statements on a tracked table.

 A run starts from seed rows that were stored before the triggers existed, so they have no
 history; a seed key is "dark" until the first write recorded for it.
 */
module HistoryLaws {
  import opened Prelude
  import opened History

  datatype Event<K, P, R> = Event(write: Write<K, P, R>, ts: int, actor: Option<string>)

  /** One statement: a rejected one changes neither table. */
  function Exec<K(==), P(==), R(==)>(db: Db<K, P, R>, e: Event<K, P, R>): Db<K, P, R> {
    match Apply(db, e.write, e.ts, e.actor)
    case Ok(db') => db'
    case Err(_) => db
  }

  function ExecAll<K(==), P(==), R(==)>(db: Db<K, P, R>, es: seq<Event<K, P, R>>): Db<K, P, R> {
    if es == [] then db else Exec(ExecAll(db, es[..|es| - 1]), es[|es| - 1])
  }

  function Run<K(==), P(==), R(==)>(seeds: map<K, Row<P, R>>, es: seq<Event<K, P, R>>): Db<K, P, R> {
    ExecAll(Db(seeds, []), es)
  }

  /** The same statement on a table without triggers: the reference the history is held to. */
  function PlainExec<K(==), P, R>(source: map<K, Row<P, R>>, w: Write<K, P, R>): map<K, Row<P, R>> {
    match w
    case Insert(k, after) => if k in source then source else source[k := after]
    case Update(k, k', after) =>
      if k !in source || (k' != k && k' in source) then source else (source - {k})[k' := after]
    case Delete(k) => source - {k}
  }

  function PlainRun<K(==), P, R>(seeds: map<K, Row<P, R>>, es: seq<Event<K, P, R>>): map<K, Row<P, R>> {
    if es == [] then seeds else PlainExec(PlainRun(seeds, es[..|es| - 1]), es[|es| - 1].write)
  }

  /** The statements executed at or before an instant. */
  function Upto<K, P, R>(es: seq<Event<K, P, R>>, at: int): seq<Event<K, P, R>> {
    if es == [] then []
    else
      var before := Upto(es[..|es| - 1], at);
      if es[|es| - 1].ts <= at then before + [es[|es| - 1]] else before
  }

  lemma {:induction false} ExecAllAppend<K, P, R>(db: Db<K, P, R>, a: seq<Event<K, P, R>>, b: seq<Event<K, P, R>>)
    ensures ExecAll(db, a + b) == ExecAll(ExecAll(db, a), b)
  {
    if b == [] {
      assert a + b == a;
    } else {
      assert (a + b)[..|a + b| - 1] == a + b[..|b| - 1];
      ExecAllAppend(db, a, b[..|b| - 1]);
    }
  }

  lemma {:induction false} PlainRunAppend<K, P, R>(source: map<K, Row<P, R>>, a: seq<Event<K, P, R>>,
                                                   b: seq<Event<K, P, R>>)
    ensures PlainRun(source, a + b) == PlainRun(PlainRun(source, a), b)
  {
    if b == [] {
      assert a + b == a;
    } else {
      assert (a + b)[..|a + b| - 1] == a + b[..|b| - 1];
      PlainRunAppend(source, a, b[..|b| - 1]);
    }
  }

  predicate Nondecreasing<K, P, R>(es: seq<Event<K, P, R>>) {
    forall i, j | 0 <= i < j < |es| :: es[i].ts <= es[j].ts
  }

  /** The seed keys no recorded write has touched yet. */
  ghost function Dark<K, P, R>(seeds: map<K, Row<P, R>>, es: seq<Event<K, P, R>>): set<K> {
    if es == [] then seeds.Keys
    else
      var before, last := es[..|es| - 1], es[|es| - 1];
      if |Run(seeds, es).history| == |Run(seeds, before).history| then Dark(seeds, before)
      else Dark(seeds, before) - TouchedKeys(last.write)
  }

  function TouchedKeys<K(==), P, R>(w: Write<K, P, R>): set<K> {
    match w
    case Insert(k, _) => {k}
    case Update(k, k', _) => {k, k'}
    case Delete(k) => {k}
  }

  // ---------------------------------------------------------------------------
  // The open intervals are the source table.
  // ---------------------------------------------------------------------------

  /** A key has exactly one open interval iff its source row exists and is not dark, and the
      open interval carries the source payload. Dark keys have no history at all. */
  ghost predicate Mirrors<K(!new), P, R>(db: Db<K, P, R>, dark: set<K>) {
    && dark <= db.source.Keys
    && (forall i | 0 <= i < |db.history| :: db.history[i].key !in dark)
    && (forall k, i | OpenAt(db.history, k, i) :: k in db.source && db.source[k].payload == db.history[i].payload)
    && (forall k, i, j | OpenAt(db.history, k, i) && OpenAt(db.history, k, j) :: i == j)
    && (forall k | k in db.source && k !in dark :: exists i :: OpenAt(db.history, k, i))
  }

  /** One recorded change keeps the mirror; stated on the trigger alone. */
  lemma FireMirrors<K(!new), P, R>(db: Db<K, P, R>, dark: set<K>, w: Write<K, P, R>, c: Change<K, P, R>, ts: int,
                                   actor: Option<string>)
    requires Mirrors(db, dark)
    requires RowChange(db.source, w) == Ok(Some(c)) && !Noise(c)
    requires Fire(db.history, c, ts, actor).Ok?
    ensures Mirrors(Db(Changed(db.source, c), Fire(db.history, c, ts, actor).value), dark - TouchedKeys(w))
    ensures |Fire(db.history, c, ts, actor).value| == |db.history| + 1
  {
    var h := db.history;
    var h' := Fire(h, c, ts, actor).value;
    var source' := Changed(db.source, c);
    var dark' := dark - TouchedKeys(w);
    var n := |h|;
    assert h'[n] == Appended(c, ts, actor);
    forall k, i | OpenAt(h', k, i)
      ensures k in source' && source'[k].payload == h'[i].payload
    {
      if i < n {
        assert OpenAt(h, k, i);
      }
    }
    forall k, i, j | OpenAt(h', k, i) && OpenAt(h', k, j)
      ensures i == j
    {
      if i < n {
        assert OpenAt(h, k, i);
      }
      if j < n {
        assert OpenAt(h, k, j);
      }
    }
    forall k | k in source' && k !in dark'
      ensures exists i :: OpenAt(h', k, i)
    {
      if !c.Deleted? && k == c.newKey {
        assert OpenAt(h', k, n);
      } else {
        var i :| OpenAt(h, k, i);
        assert OpenAt(h', k, i);
      }
    }
  }

  lemma ExecMirrors<K(!new), P, R>(db: Db<K, P, R>, dark: set<K>, e: Event<K, P, R>)
    requires Mirrors(db, dark)
    ensures var db' := Exec(db, e);
            Mirrors(db', if |db'.history| == |db.history| then dark else dark - TouchedKeys(e.write))
  {
    var change := RowChange(db.source, e.write);
    if change.Ok? && change.value.Some? {
      var c := change.value.value;
      if Noise(c) {
        assert c.oldKey in Changed(db.source, c);
        forall k | k in Changed(db.source, c) && k !in dark
          ensures exists i :: OpenAt(db.history, k, i)
        {
          assert k in db.source;
        }
      } else if Fire(db.history, c, e.ts, e.actor).Ok? {
        FireMirrors(db, dark, e.write, c, e.ts, e.actor);
      }
    }
  }

  /** For every run, with no assumption on the clock: the open intervals are exactly the
      source rows, payload included, so the current table can be read off the history. */
  lemma {:induction false} HistoryMirrorsSource<K(!new), P, R>(seeds: map<K, Row<P, R>>, es: seq<Event<K, P, R>>)
    ensures Mirrors(Run(seeds, es), Dark(seeds, es))
  {
    if es != [] {
      HistoryMirrorsSource(seeds, es[..|es| - 1]);
      ExecMirrors(Run(seeds, es[..|es| - 1]), Dark(seeds, es[..|es| - 1]), es[|es| - 1]);
    }
  }

  lemma {:induction false} DarkShrinks<K(!new), P, R>(seeds: map<K, Row<P, R>>, es: seq<Event<K, P, R>>, n: nat)
    requires n <= |es|
    ensures Dark(seeds, es) <= Dark(seeds, es[..n])
  {
    if n == |es| {
      assert es[..n] == es;
    } else {
      assert es[..|es| - 1][..n] == es[..n];
      DarkShrinks(seeds, es[..|es| - 1], n);
    }
  }

  /** The current payload of every recorded key, rebuilt from the history alone. */
  ghost function Rebuilt<K(!new), P>(h: seq<Interval<K, P>>): imap<K, P> {
    imap k | HasOpen(h, k) :: (var i :| OpenAt(h, k, i); h[i].payload)
  }

  ghost predicate HasOpen<K, P>(h: seq<Interval<K, P>>, k: K) {
    exists i :: OpenAt(h, k, i)
  }

  lemma HistoryRebuildsSource<K(!new), P, R>(seeds: map<K, Row<P, R>>, es: seq<Event<K, P, R>>)
    ensures var db := Run(seeds, es);
            Rebuilt(db.history) == imap k | k in db.source && k !in Dark(seeds, es) :: db.source[k].payload
  {
    HistoryMirrorsSource(seeds, es);
    var db := Run(seeds, es);
    var current := imap k | k in db.source && k !in Dark(seeds, es) :: db.source[k].payload;
    forall k
      ensures k in Rebuilt(db.history) <==> k in current
      ensures k in current ==> Rebuilt(db.history)[k] == current[k]
    {
      if i :| OpenAt(db.history, k, i) {
        assert db.history[i].key !in Dark(seeds, es);
      }
    }
  }

  // ---------------------------------------------------------------------------
  // Which statements are rejected.
  // ---------------------------------------------------------------------------

  /** The statement would close an interval that starts after `ts`. */
  predicate ClosesTooEarly<K(==), P(==), R(==)>(db: Db<K, P, R>, w: Write<K, P, R>, ts: int) {
    var change := RowChange(db.source, w);
    && change.Ok? && change.value.Some?
    && !change.value.value.Inserted? && !Noise(change.value.value)
    && exists i | 0 <= i < |db.history| :: OpenAt(db.history, change.value.value.oldKey, i) && ts < db.history[i].from
  }

  /** In every reachable state the only reason the history rejects a statement is the interval
      CHECK, and it does so exactly when the write precedes the open interval it must close.
      The immutability guard and the open-interval index never fire. */
  lemma RejectedExactlyWhenTooEarly<K(!new), P, R>(seeds: map<K, Row<P, R>>, es: seq<Event<K, P, R>>, e: Event<K, P, R>)
    ensures var db := Run(seeds, es);
            var r := Apply(db, e.write, e.ts, e.actor);
            && (r.Err? <==> RowChange(db.source, e.write).Err? || ClosesTooEarly(db, e.write, e.ts))
            && (ClosesTooEarly(db, e.write, e.ts) ==> r == Err(IntervalCheck) && Exec(db, e) == db)
            && (r.Err? ==> r.error == DuplicateKey || r.error == IntervalCheck)
  {
    HistoryMirrorsSource(seeds, es);
    var db := Run(seeds, es);
    var change := RowChange(db.source, e.write);
    if change.Ok? && change.value.Some? && !Noise(change.value.value) {
      var c := change.value.value;
      var row := Appended(c, e.ts, e.actor);
      var h := if c.Inserted? then db.history else Closed(db.history, c.oldKey, e.ts);
      if row.to.None? {
        forall i | 0 <= i < |h| ensures !OpenAt(h, row.key, i) {
          assert OpenAt(h, row.key, i) ==> OpenAt(db.history, row.key, i);
        }
      }
    }
  }

  // ---------------------------------------------------------------------------
  // The history is append-only.
  // ---------------------------------------------------------------------------

  /** Every old row is still there; the only change it may have seen is being closed once. */
  ghost predicate Extends<K, P>(h: seq<Interval<K, P>>, h': seq<Interval<K, P>>) {
    && |h| <= |h'|
    && forall i | 0 <= i < |h| ::
         h'[i] == h[i] || (h[i].to.None? && h'[i].to.Some? && h'[i] == h[i].(to := h'[i].to))
  }

  lemma {:induction false} HistoryIsAppendOnly<K(!new), P, R>(seeds: map<K, Row<P, R>>, es: seq<Event<K, P, R>>,
                                                              more: seq<Event<K, P, R>>)
    ensures Extends(Run(seeds, es).history, Run(seeds, es + more).history)
  {
    if more == [] {
      assert es + more == es;
    } else {
      var shorter := more[..|more| - 1];
      HistoryIsAppendOnly(seeds, es, shorter);
      assert (es + more)[..|es + more| - 1] == es + shorter;
      assert Extends(Run(seeds, es + shorter).history, Run(seeds, es + more).history);
    }
  }

  // ---------------------------------------------------------------------------
  // Time travel.
  // ---------------------------------------------------------------------------

  /** Every interval is well formed, and none starts or ends after `now`. */
  ghost predicate Settled<K, P>(h: seq<Interval<K, P>>, now: int) {
    forall i | 0 <= i < |h| :: h[i].from <= now && (h[i].to.Some? ==> h[i].from <= h[i].to.value <= now)
  }

  lemma ExecSettled<K(!new), P, R>(db: Db<K, P, R>, dark: set<K>, e: Event<K, P, R>)
    requires Mirrors(db, dark) && Settled(db.history, e.ts)
    ensures Apply(db, e.write, e.ts, e.actor).Ok? <==> RowChange(db.source, e.write).Ok?
    ensures Settled(Exec(db, e).history, e.ts)
    ensures Exec(db, e).source == PlainExec(db.source, e.write)
  {
    var change := RowChange(db.source, e.write);
    if change.Ok? && change.value.Some? {
      var c := change.value.value;
      var row := Appended(c, e.ts, e.actor);
      var h := if c.Inserted? then db.history else Closed(db.history, c.oldKey, e.ts);
      if row.to.None? && !Noise(c) {
        forall i | 0 <= i < |h| ensures !OpenAt(h, row.key, i) {
          assert OpenAt(h, row.key, i) ==> OpenAt(db.history, row.key, i);
        }
      }
    }
  }

  /** While clocks do not run backwards the triggers never make a statement fail: the source
      table goes through exactly the states of a table without triggers. */
  lemma {:induction false} TriggersAreTransparent<K(!new), P, R>(seeds: map<K, Row<P, R>>, es: seq<Event<K, P, R>>)
    requires Nondecreasing(es)
    ensures Run(seeds, es).source == PlainRun(seeds, es)
    ensures es != [] ==> Settled(Run(seeds, es).history, es[|es| - 1].ts)
  {
    if es != [] {
      var before := es[..|es| - 1];
      TriggersAreTransparent(seeds, before);
      HistoryMirrorsSource(seeds, before);
      ExecSettled(Run(seeds, before), Dark(seeds, before), es[|es| - 1]);
    }
  }

  lemma {:induction false} UptoAll<K, P, R>(es: seq<Event<K, P, R>>, at: int)
    requires forall i | 0 <= i < |es| :: es[i].ts <= at
    ensures Upto(es, at) == es
  {
    if es != [] {
      UptoAll(es[..|es| - 1], at);
    }
  }

  /** A statement at `ts` does not change what the history says about earlier instants. */
  lemma ExecKeepsThePast<K(!new), P, R>(db: Db<K, P, R>, e: Event<K, P, R>, k: K, at: int, i: int)
    requires at < e.ts
    ensures CoversAt(Exec(db, e).history, k, at, i) <==> CoversAt(db.history, k, at, i)
    ensures CoversAt(db.history, k, at, i) ==> Exec(db, e).history[i].payload == db.history[i].payload
  {
  }

  /** Exactly one interval covers the instant if the key was there, none if it was not; and
      it carries the payload the table held. */
  ghost predicate Recalls<K, P, R>(h: seq<Interval<K, P>>, past: map<K, Row<P, R>>, dark: set<K>, k: K, at: int) {
    && (k in past && k !in dark ==> exists i :: CoversAt(h, k, at, i))
    && (forall i, j | CoversAt(h, k, at, i) && CoversAt(h, k, at, j) :: i == j)
    && (forall i | CoversAt(h, k, at, i) :: k in past && k !in dark && h[i].payload == past[k].payload)
  }

  lemma ExecStillRecalls<K(!new), P, R>(db: Db<K, P, R>, e: Event<K, P, R>, past: map<K, Row<P, R>>, dark: set<K>,
                                        k: K, at: int)
    requires at < e.ts && Recalls(db.history, past, dark, k, at)
    ensures Recalls(Exec(db, e).history, past, dark, k, at)
  {
    forall i ensures CoversAt(Exec(db, e).history, k, at, i) <==> CoversAt(db.history, k, at, i)
             ensures CoversAt(db.history, k, at, i) ==> Exec(db, e).history[i].payload == db.history[i].payload
    {
      ExecKeepsThePast(db, e, k, at, i);
    }
  }

  lemma MirrorRecalls<K(!new), P, R>(db: Db<K, P, R>, dark: set<K>, k: K, at: int)
    requires Mirrors(db, dark) && Settled(db.history, at)
    ensures Recalls(db.history, db.source, dark, k, at)
  {
    forall i ensures CoversAt(db.history, k, at, i) <==> OpenAt(db.history, k, i) {
    }
    if k in db.source && k !in dark {
      var i :| OpenAt(db.history, k, i);
      assert CoversAt(db.history, k, at, i);
    }
  }

  /** The history is the past. For every run with nondecreasing clock, every key and every
      instant: some interval covers the instant iff the key existed then (and was not a seed
      still without a recorded write), it is the only one, and its payload is what the source
      table held after the last statement at or before that instant. */
  lemma {:induction false} AsOfIsThePast<K(!new), P, R>(seeds: map<K, Row<P, R>>, es: seq<Event<K, P, R>>, k: K,
                                                        at: int)
    requires Nondecreasing(es)
    ensures Recalls(Run(seeds, es).history, PlainRun(seeds, Upto(es, at)), Dark(seeds, Upto(es, at)), k, at)
  {
    if es != [] {
      var before, last := es[..|es| - 1], es[|es| - 1];
      if at < last.ts {
        assert Upto(es, at) == Upto(before, at);
        AsOfIsThePast(seeds, before, k, at);
        ExecStillRecalls(Run(seeds, before), last, PlainRun(seeds, Upto(es, at)), Dark(seeds, Upto(es, at)), k, at);
      } else {
        UptoAll(es, at);
        TriggersAreTransparent(seeds, es);
        HistoryMirrorsSource(seeds, es);
        MirrorRecalls(Run(seeds, es), Dark(seeds, es), k, at);
      }
    }
  }

  // ---------------------------------------------------------------------------
  // Lifetimes.
  // ---------------------------------------------------------------------------

  /** For every key how many times it has entered the source table (its current life), and
      for every history row the life it belongs to. */
  datatype Tags<K> = Tags(lives: seq<nat>, count: map<K, nat>)

  function Count<K(==)>(count: map<K, nat>, k: K): nat {
    if k in count then count[k] else 0
  }

  function Retag<K(==), P, R>(tags: Tags<K>, db: Db<K, P, R>, db': Db<K, P, R>): Tags<K> {
    var count := map k | k in tags.count.Keys + db'.source.Keys ::
      Count(tags.count, k) + if k !in db.source && k in db'.source then 1 else 0;
    if |db'.history| == |db.history| then Tags(tags.lives, count)
    else
      Tags(tags.lives + [if db'.history == [] then 0 else Count(count, db'.history[|db'.history| - 1].key)], count)
  }

  function TagRun<K(==), P(==), R(==)>(seeds: map<K, Row<P, R>>, es: seq<Event<K, P, R>>): Tags<K> {
    if es == [] then Tags([], map[])
    else Retag(TagRun(seeds, es[..|es| - 1]), Run(seeds, es[..|es| - 1]), Run(seeds, es))
  }

  /** `j` is the row of the same key and the same life that follows row `i`. */
  ghost predicate Follows<K, P>(h: seq<Interval<K, P>>, lives: seq<nat>, i: int, j: int)
    requires |lives| == |h|
  {
    && 0 <= i < j < |h|
    && h[i].key == h[j].key && lives[i] == lives[j]
    && forall m | i < m < j :: h[m].key != h[i].key
  }

  /** Inside one life every interval ends where the next begins, and no interval runs
      backwards. */
  ghost predicate GapFree<K, P>(h: seq<Interval<K, P>>, lives: seq<nat>) {
    && |lives| == |h|
    && (forall i, j | Follows(h, lives, i, j) :: h[i].to == Some(h[j].from) && h[i].from <= h[j].from)
    && (forall i | 0 <= i < |h| :: h[i].to.Some? ==> h[i].from <= h[i].to.value)
  }

  /** The rows of a key carry lives it has had; an open row is the key's newest row and
      carries its current life. */
  ghost predicate LivesCurrent<K(!new), P>(h: seq<Interval<K, P>>, tags: Tags<K>) {
    && |tags.lives| == |h|
    && (forall i | 0 <= i < |h| :: tags.lives[i] <= Count(tags.count, h[i].key))
    && (forall k, i | OpenAt(h, k, i) :: tags.lives[i] == Count(tags.count, k))
    && (forall k, i, j | OpenAt(h, k, i) && i < j < |h| :: h[j].key != k)
  }

  /** What a recorded statement did to the two tables. */
  lemma RecordedShape<K(!new), P, R>(db: Db<K, P, R>, e: Event<K, P, R>) returns (c: Change<K, P, R>)
    requires |Exec(db, e).history| != |db.history|
    ensures RowChange(db.source, e.write) == Ok(Some(c)) && !Noise(c)
    ensures Exec(db, e).source == Changed(db.source, c)
    ensures |Exec(db, e).history| == |db.history| + 1
    ensures Exec(db, e).history[|db.history|] == Appended(c, e.ts, e.actor)
    ensures forall i | 0 <= i < |db.history| ::
              if !c.Inserted? && OpenAt(db.history, c.oldKey, i)
              then db.history[i].from <= e.ts && Exec(db, e).history[i] == db.history[i].(to := Some(e.ts))
              else Exec(db, e).history[i] == db.history[i]
  {
    c := RowChange(db.source, e.write).value.value;
  }

  /** Every recorded row carries its statement: the operation, the actor, the instant, and the key
      and payload it leaves, or for a delete the ones it took away. */
  lemma RecordedRow<K(!new), P, R>(db: Db<K, P, R>, e: Event<K, P, R>)
    requires |Exec(db, e).history| != |db.history|
    ensures |Exec(db, e).history| == |db.history| + 1
    ensures var row := Exec(db, e).history[|db.history|];
            && row.actor == e.actor && row.from == e.ts
            && match e.write
               case Insert(k, after) =>
                 row.operation == INSERT && row.key == k && row.payload == after.payload && row.to.None?
               case Update(_, k, after) =>
                 row.operation == UPDATE && row.key == k && row.payload == after.payload && row.to.None?
               case Delete(k) =>
                 && row.operation == DELETE && row.key == k && row.to == Some(e.ts)
                 && k in db.source && row.payload == db.source[k].payload
  {
    var c := RecordedShape(db, e);
  }

  /** A statement is recorded iff it is accepted and touches a row, unless it is an update that
      leaves every column but `dt_updated_at` as it was. */
  lemma RecordedIff<K(!new), P, R>(db: Db<K, P, R>, e: Event<K, P, R>)
    ensures |Exec(db, e).history| != |db.history| <==>
            && Apply(db, e.write, e.ts, e.actor).Ok?
            && match e.write
               case Insert(_, _) => true
               case Update(k, k', after) =>
                 k in db.source && (k' != k || after.payload != db.source[k].payload || after.rest != db.source[k].rest)
               case Delete(k) => k in db.source
  {
  }

  lemma QuietShape<K(!new), P, R>(db: Db<K, P, R>, e: Event<K, P, R>)
    requires |Exec(db, e).history| == |db.history|
    ensures Exec(db, e).history == db.history
    ensures Exec(db, e).source.Keys == db.source.Keys
  {
    var change := RowChange(db.source, e.write);
    if change.Ok? && change.value.Some? && Noise(change.value.value) {
      assert change.value.value.oldKey in db.source;
    }
  }

  /** Closing the open intervals of one key and appending a row keeps the history gap-free,
      if the row only continues a life whose newest interval was just closed. */
  lemma GapFreeStep<K, P>(h: seq<Interval<K, P>>, lives: seq<nat>, closed: Option<K>, ts: int, h': seq<Interval<K, P>>,
                          life: nat)
    requires GapFree(h, lives)
    requires |h'| == |h| + 1 && h'[|h|].from == ts && (h'[|h|].to.Some? ==> h'[|h|].to.value == ts)
    requires forall i | 0 <= i < |h| ::
               if closed == Some(h[i].key) && h[i].to.None? then h[i].from <= ts && h'[i] == h[i].(to := Some(ts))
               else h'[i] == h[i]
    requires forall i | Follows(h', lives + [life], i, |h|) :: closed == Some(h[i].key) && h[i].to.None?
    ensures GapFree(h', lives + [life])
  {
    forall i, j | Follows(h', lives + [life], i, j)
      ensures h'[i].to == Some(h'[j].from) && h'[i].from <= h'[j].from
    {
      if j < |h| {
        assert Follows(h, lives, i, j);
      }
    }
  }

  lemma CountStep<K, P, R>(tags: Tags<K>, db: Db<K, P, R>, db': Db<K, P, R>, k: K)
    ensures Count(Retag(tags, db, db').count, k) ==
            Count(tags.count, k) + if k !in db.source && k in db'.source then 1 else 0
  {
  }

  /** The row before the appended one, in the same life, is the open row the statement closed. */
  lemma PredecessorIsOpen<K(!new), P, R>(db: Db<K, P, R>, dark: set<K>, tags: Tags<K>, h': seq<Interval<K, P>>,
                                         lives': seq<nat>, i: int)
    requires Mirrors(db, dark) && LivesCurrent(db.history, tags)
    requires |h'| == |db.history| + 1 && forall m | 0 <= m < |db.history| :: h'[m].key == db.history[m].key
    requires |lives'| == |h'| && lives'[..|db.history|] == tags.lives && Follows(h', lives', i, |db.history|)
    requires h'[|db.history|].key in db.source && h'[|db.history|].key !in dark
    ensures OpenAt(db.history, h'[|db.history|].key, i)
  {
    var o :| OpenAt(db.history, h'[|db.history|].key, o);
    assert h'[o].key == h'[|db.history|].key;
    assert h'[i].key == db.history[i].key;
  }

  /** An appended row whose key was absent starts a life no earlier row has. */
  lemma NewLifeFollowsNothing<K(!new), P>(h: seq<Interval<K, P>>, tags: Tags<K>, h': seq<Interval<K, P>>, life: nat,
                                          i: int)
    requires LivesCurrent(h, tags) && |h'| == |h| + 1 && forall m | 0 <= m < |h| :: h'[m].key == h[m].key
    requires life > Count(tags.count, h'[|h|].key)
    ensures !Follows(h', tags.lives + [life], i, |h|)
  {
    if 0 <= i < |h| && h'[i].key == h'[|h|].key {
      assert tags.lives[i] <= Count(tags.count, h[i].key);
    }
  }

  lemma OnlyTheClosedIsFollowed<K(!new), P, R>(db: Db<K, P, R>, dark: set<K>, tags: Tags<K>, c: Change<K, P, R>,
                                               h': seq<Interval<K, P>>, life: nat, i: int)
    requires Mirrors(db, dark) && LivesCurrent(db.history, tags)
    requires |h'| == |db.history| + 1 && forall m | 0 <= m < |db.history| :: h'[m].key == db.history[m].key
    requires var k := h'[|db.history|].key;
             && (k !in db.source ==> life > Count(tags.count, k))
             && (k in db.source ==> !c.Inserted? && c.oldKey == k)
    requires Follows(h', tags.lives + [life], i, |db.history|)
    ensures !c.Inserted? && c.oldKey == h'[|db.history|].key && db.history[i].to.None?
  {
    var k := h'[|db.history|].key;
    if k !in db.source {
      NewLifeFollowsNothing(db.history, tags, h', life, i);
    } else if k !in dark {
      PredecessorIsOpen(db, dark, tags, h', tags.lives + [life], i);
    }
  }

  lemma RetagRecorded<K(!new), P, R>(db: Db<K, P, R>, dark: set<K>, tags: Tags<K>, tags': Tags<K>, e: Event<K, P, R>)
    requires Mirrors(db, dark) && GapFree(db.history, tags.lives) && LivesCurrent(db.history, tags)
    requires |Exec(db, e).history| != |db.history| && tags' == Retag(tags, db, Exec(db, e))
    requires forall k ::
               Count(tags'.count, k) == Count(tags.count, k) +
                 if k !in db.source && k in Exec(db, e).source then 1 else 0
    ensures GapFree(Exec(db, e).history, tags'.lives) && LivesCurrent(Exec(db, e).history, tags')
  {
    var h, h', n := db.history, Exec(db, e).history, |db.history|;
    var c := RecordedShape(db, e);
    var life := Count(tags'.count, h'[n].key);
    assert tags'.lives == tags.lives + [life];
    RecordedCurrent(db, dark, tags, Exec(db, e), tags', c, e.ts, e.actor);
    forall i | Follows(h', tags'.lives, i, n)
      ensures !c.Inserted? && c.oldKey == h'[n].key && h[i].to.None?
    {
      OnlyTheClosedIsFollowed(db, dark, tags, c, h', life, i);
    }
    GapFreeStep(h, tags.lives, if c.Inserted? then None else Some(c.oldKey), e.ts, h', life);
  }

  lemma RetagStep<K(!new), P, R>(db: Db<K, P, R>, dark: set<K>, tags: Tags<K>, e: Event<K, P, R>)
    requires Mirrors(db, dark)
    requires GapFree(db.history, tags.lives) && LivesCurrent(db.history, tags)
    ensures var tags' := Retag(tags, db, Exec(db, e));
            GapFree(Exec(db, e).history, tags'.lives) && LivesCurrent(Exec(db, e).history, tags')
  {
    var db' := Exec(db, e);
    var tags' := Retag(tags, db, db');
    forall k ensures Count(tags'.count, k) == Count(tags.count, k) +
      if k !in db.source && k in db'.source then 1 else 0 {
      CountStep(tags, db, db', k);
    }
    if |db'.history| == |db.history| {
      QuietShape(db, e);
    } else {
      RetagRecorded(db, dark, tags, tags', e);
    }
  }

  lemma RecordedCurrent<K(!new), P, R>(db: Db<K, P, R>, dark: set<K>, tags: Tags<K>, db': Db<K, P, R>, tags': Tags<K>,
                                       c: Change<K, P, R>, ts: int, actor: Option<string>)
    requires Mirrors(db, dark) && LivesCurrent(db.history, tags)
    requires match c
             case Inserted(k, _) => k !in db.source
             case Updated(k, before, k', _) => k in db.source && db.source[k] == before && (k' == k || k' !in db.source)
             case Deleted(k, before) => k in db.source && db.source[k] == before
    requires db'.source == Changed(db.source, c)
    requires |db'.history| == |db.history| + 1 && db'.history[|db.history|] == Appended(c, ts, actor)
    requires forall i | 0 <= i < |db.history| ::
               if !c.Inserted? && OpenAt(db.history, c.oldKey, i)
               then db'.history[i] == db.history[i].(to := Some(ts))
               else db'.history[i] == db.history[i]
    requires forall k :: Count(tags'.count, k) == Count(tags.count, k) +
               if k !in db.source && k in db'.source then 1 else 0
    requires tags'.lives == tags.lives + [Count(tags'.count, db'.history[|db.history|].key)]
    ensures LivesCurrent(db'.history, tags')
  {
    var h, h', n := db.history, db'.history, |db.history|;
    forall key, i | OpenAt(h', key, i)
      ensures tags'.lives[i] == Count(tags'.count, key)
      ensures forall j | i < j <= n :: h'[j].key != key
    {
      if i < n {
        assert OpenAt(h, key, i);
      }
    }
  }

  /** For every run, with no assumption on the clock: inside one life of a key the intervals
      follow each other without gaps and in order. */
  lemma {:induction false} LifetimesHaveNoGaps<K(!new), P, R>(seeds: map<K, Row<P, R>>, es: seq<Event<K, P, R>>)
    ensures GapFree(Run(seeds, es).history, TagRun(seeds, es).lives)
    ensures LivesCurrent(Run(seeds, es).history, TagRun(seeds, es))
  {
    if es != [] {
      LifetimesHaveNoGaps(seeds, es[..|es| - 1]);
      HistoryMirrorsSource(seeds, es[..|es| - 1]);
      RetagStep(Run(seeds, es[..|es| - 1]), Dark(seeds, es[..|es| - 1]), TagRun(seeds, es[..|es| - 1]), es[|es| - 1]);
    }
  }

  // ---------------------------------------------------------------------------
  // Between two lives of a key.
  // ---------------------------------------------------------------------------

  /** No instant is covered twice for the key. */
  ghost predicate Unambiguous<K, P>(h: seq<Interval<K, P>>, k: K) {
    forall at, i, j | CoversAt(h, k, at, i) && CoversAt(h, k, at, j) :: i == j
  }

  /** No interval of the key that holds any instant ends after `ts`. */
  ghost predicate OverBy<K, P>(h: seq<Interval<K, P>>, k: K, ts: int) {
    forall i | 0 <= i < |h| && h[i].key == k && h[i].to.Some? && h[i].from < h[i].to.value :: h[i].to.value <= ts
  }

  /** The statement brings the key into the source table, by an insert or by changing the key
      of another row. */
  ghost predicate Enters<K, P, R>(db: Db<K, P, R>, e: Event<K, P, R>, k: K) {
    k !in db.source && k in Exec(db, e).source
  }

  /** The statement does not bring the key in before the end of an interval of an earlier life. */
  ghost predicate EntersInTime<K, P, R>(db: Db<K, P, R>, e: Event<K, P, R>, k: K) {
    Enters(db, e, k) ==> OverBy(db.history, k, e.ts)
  }

  ghost predicate Forwards<K, P>(h: seq<Interval<K, P>>) {
    forall i | 0 <= i < |h| && h[i].to.Some? :: h[i].from <= h[i].to.value
  }

  /** An entry appends an open row and closes none of the key's. */
  lemma EntryShape<K(!new), P, R>(db: Db<K, P, R>, dark: set<K>, e: Event<K, P, R>, k: K)
    requires Mirrors(db, dark) && Enters(db, e, k)
    ensures var (h, h') := (db.history, Exec(db, e).history);
            && |h'| == |h| + 1 && h'[|h|].key == k && h'[|h|].from == e.ts && h'[|h|].to.None?
            && (forall i | 0 <= i < |h| :: h'[i].key == h[i].key)
            && (forall i | 0 <= i < |h| && h[i].key == k :: h'[i] == h[i] && h[i].to.Some?)
  {
    forall i | 0 <= i < |db.history| && db.history[i].key == k
      ensures db.history[i].to.Some?
    {
      assert !OpenAt(db.history, k, i);
    }
  }

  /** Inside one life the CHECK orders the intervals; between two lives nothing does. Bringing a
      key back in, by an insert or by a key change, leaves its past unambiguous iff it is not
      dated before the end of an interval of an earlier life. */
  lemma EntryNeedsTheClock<K(!new), P, R>(db: Db<K, P, R>, dark: set<K>, e: Event<K, P, R>, k: K)
    requires Mirrors(db, dark) && Forwards(db.history) && Unambiguous(db.history, k) && Enters(db, e, k)
    ensures Unambiguous(Exec(db, e).history, k) <==> OverBy(db.history, k, e.ts)
  {
    var h, h', n := db.history, Exec(db, e).history, |db.history|;
    EntryShape(db, dark, e, k);
    if i :| 0 <= i < n && h[i].key == k && h[i].from < h[i].to.value && e.ts < h[i].to.value {
      var at := if e.ts < h[i].from then h[i].from else e.ts;
      assert CoversAt(h', k, at, i) && CoversAt(h', k, at, n);
    } else {
      forall at, i, j | CoversAt(h', k, at, i) && CoversAt(h', k, at, j)
        ensures i == j
      {
        assert i < n ==> CoversAt(h, k, at, i);
        assert j < n ==> CoversAt(h, k, at, j);
      }
    }
  }

  /** A statement that does not bring the key in keeps its past unambiguous, whatever its
      instant. */
  lemma OthersKeepUnambiguous<K(!new), P, R>(db: Db<K, P, R>, dark: set<K>, e: Event<K, P, R>, k: K)
    requires Mirrors(db, dark) && Unambiguous(db.history, k) && !Enters(db, e, k)
    ensures Unambiguous(Exec(db, e).history, k)
  {
    var h, h', n := db.history, Exec(db, e).history, |db.history|;
    if |h'| == n {
      QuietShape(db, e);
    } else {
      var c := RecordedShape(db, e);
      forall at, i | CoversAt(h', k, at, i)
        ensures i < n ==> CoversAt(h, k, at, i)
        ensures i == n ==> k !in dark ==> exists o :: OpenAt(h, k, o) && h[o].from <= at && h'[o].to == Some(e.ts)
        ensures i == n ==> e.ts <= at && k in db.source
      {
        if i == n && k !in dark {
          var o :| OpenAt(h, k, o);
        }
      }
      forall at, i, j | CoversAt(h', k, at, i) && CoversAt(h', k, at, j)
        ensures i == j
      {
        AppendedIsAlone(h, h', dark, k, e.ts, at, i, j);
      }
    }
  }

  lemma AppendedIsAlone<K(!new), P>(h: seq<Interval<K, P>>, h': seq<Interval<K, P>>, dark: set<K>, k: K, ts: int,
                                    at: int, i: int, j: int)
    requires |h'| == |h| + 1 && Unambiguous(h, k) && forall m | 0 <= m < |h| ::
               h[m].key !in dark && h'[m].key == h[m].key
    requires CoversAt(h', k, at, i) && CoversAt(h', k, at, j)
    requires i < |h| ==> CoversAt(h, k, at, i)
    requires j < |h| ==> CoversAt(h, k, at, j)
    requires (i == |h| || j == |h|) ==> ts <= at
    requires (i == |h| || j == |h|) && k !in dark ==>
               exists o :: OpenAt(h, k, o) && h[o].from <= at && h'[o].to == Some(ts)
    ensures i == j
  {
    if i != j && (i == |h| || j == |h|) && k !in dark {
      var o :| OpenAt(h, k, o) && h[o].from <= at && h'[o].to == Some(ts);
      assert CoversAt(h, k, at, o);
    }
  }

  lemma {:induction false} HistoryRunsForwards<K(!new), P, R>(seeds: map<K, Row<P, R>>, es: seq<Event<K, P, R>>)
    ensures Forwards(Run(seeds, es).history)
  {
    LifetimesHaveNoGaps(seeds, es);
  }

  lemma StepUnambiguous<K(!new), P, R>(seeds: map<K, Row<P, R>>, es: seq<Event<K, P, R>>, e: Event<K, P, R>, k: K)
    requires Unambiguous(Run(seeds, es).history, k)
    ensures Unambiguous(Exec(Run(seeds, es), e).history, k) <==> EntersInTime(Run(seeds, es), e, k)
  {
    var db := Run(seeds, es);
    HistoryMirrorsSource(seeds, es);
    HistoryRunsForwards(seeds, es);
    if Enters(db, e, k) {
      EntryNeedsTheClock(db, Dark(seeds, es), e, k);
    } else {
      OthersKeepUnambiguous(db, Dark(seeds, es), e, k);
    }
  }

  /** The past of the key is unambiguous after every statement of the run. */
  ghost predicate AlwaysUnambiguous<K, P, R>(seeds: map<K, Row<P, R>>, es: seq<Event<K, P, R>>, k: K) {
    && Unambiguous(Run(seeds, es).history, k)
    && (es == [] || AlwaysUnambiguous(seeds, es[..|es| - 1], k))
  }

  /** Every statement of the run that brings the key in is in time. */
  ghost predicate AlwaysInTime<K, P, R>(seeds: map<K, Row<P, R>>, es: seq<Event<K, P, R>>, k: K) {
    es == [] ||
    var (before, last) := (es[..|es| - 1], es[|es| - 1]);
    AlwaysInTime(seeds, before, k) && EntersInTime(Run(seeds, before), last, k)
  }

  /** The exact condition, for every run and with no assumption on the clock: the history of a
      key is unambiguous all along iff every statement that brought the key in was in time. */
  lemma {:induction false} UnambiguousIffInTime<K(!new), P, R>(seeds: map<K, Row<P, R>>, es: seq<Event<K, P, R>>, k: K)
    ensures AlwaysUnambiguous(seeds, es, k) <==> AlwaysInTime(seeds, es, k)
  {
    if es != [] {
      var before := es[..|es| - 1];
      UnambiguousIffInTime(seeds, before, k);
      if AlwaysUnambiguous(seeds, before, k) {
        StepUnambiguous(seeds, before, es[|es| - 1], k);
      }
    }
  }

  /** An insert of an absent key whose intervals are all closed. */
  lemma InsertRecorded(db: Db<int, (), int>, k: int, row: Row<(), int>, ts: int)
    requires k !in db.source && forall i | 0 <= i < |db.history| :: !OpenAt(db.history, k, i)
    ensures Exec(db, Event(Insert(k, row), ts, None)) ==
            Db(db.source[k := row], db.history + [Interval(k, row.payload, INSERT, None, ts, None)])
  {
    var c: Change<int, (), int> := Inserted(k, row);
    assert Fire(db.history, c, ts, None) == Ok(db.history + [Appended(c, ts, None)]);
  }

  /** A delete of the key whose only open interval is row `i`. */
  lemma DeleteRecorded(db: Db<int, (), int>, k: int, i: nat, ts: int)
    requires k in db.source && OpenAt(db.history, k, i) && db.history[i].from <= ts
    requires forall j | 0 <= j < |db.history| && j != i :: !OpenAt(db.history, k, j)
    ensures var (row, h) := (db.source[k], db.history[i := db.history[i].(to := Some(ts))]);
            Exec(db, Event(Delete(k), ts, None)) ==
            Db(db.source - {k}, h + [Interval(k, row.payload, DELETE, None, ts, Some(ts))])
  {
    forall j | 0 <= j < |db.history|
      ensures Closed(db.history, k, ts)[j] == db.history[i := db.history[i].(to := Some(ts))][j]
    {
      assert j != i ==> !OpenAt(db.history, k, j);
    }
    assert Closed(db.history, k, ts) == db.history[i := db.history[i].(to := Some(ts))];
  }

  /** The key of the row whose only open interval is row `i` becomes the absent key `k'`. */
  lemma RekeyRecorded(db: Db<int, (), int>, k: int, i: nat, k': int, row: Row<(), int>, ts: int)
    requires k in db.source && k' !in db.source && k != k' && OpenAt(db.history, k, i) && db.history[i].from <= ts
    requires forall j | 0 <= j < |db.history| && j != i :: !OpenAt(db.history, k, j)
    requires forall j | 0 <= j < |db.history| :: !OpenAt(db.history, k', j)
    ensures var h := db.history[i := db.history[i].(to := Some(ts))];
            Exec(db, Event(Update(k, k', row), ts, None)) ==
            Db((db.source - {k})[k' := row], h + [Interval(k', row.payload, UPDATE, None, ts, None)])
  {
    forall j | 0 <= j < |db.history|
      ensures Closed(db.history, k, ts)[j] == db.history[i := db.history[i].(to := Some(ts))][j]
      ensures !OpenAt(Closed(db.history, k, ts), k', j)
    {
      assert j != i ==> !OpenAt(db.history, k, j);
      assert !OpenAt(db.history, k', j);
    }
    assert Closed(db.history, k, ts) == db.history[i := db.history[i].(to := Some(ts))];
  }

  const BLANK: Row<(), int> := Row((), 0, 0)

  /** Key 2 lives from 10 to 20; key 1, inserted at 12, becomes key 2 at 15. */
  function BackdatedKeyChange(): seq<Event<int, (), int>> {
    [Event(Insert(2, BLANK), 10, None), Event(Delete(2), 20, None),
     Event(Insert(1, BLANK), 12, None), Event(Update(1, 2, BLANK), 15, None)]
  }

  lemma FourStatements(db: Db<int, (), int>, es: seq<Event<int, (), int>>)
    requires |es| == 4
    ensures ExecAll(db, es) == Exec(Exec(Exec(Exec(db, es[0]), es[1]), es[2]), es[3])
  {
    assert es[..3][..2] == es[..2] && es[..2][..1] == es[..1] && es[..1][..0] == [];
    assert ExecAll(db, es[..1]) == Exec(db, es[0]);
    assert ExecAll(db, es[..2]) == Exec(ExecAll(db, es[..1]), es[1]);
    assert ExecAll(db, es[..3]) == Exec(ExecAll(db, es[..2]), es[2]);
  }

  const LIVED: Interval<int, ()> := Interval(2, (), INSERT, None, 10, Some(20))
  const GONE: Interval<int, ()> := Interval(2, (), DELETE, None, 20, Some(20))
  const OTHER: Interval<int, ()> := Interval(1, (), INSERT, None, 12, Some(15))

  lemma FirstLife()
    ensures var es := BackdatedKeyChange();
            Exec(Exec(Db(map[], []), es[0]), es[1]) == Db(map[], [LIVED, GONE])
  {
    var live: Interval<int, ()> := LIVED.(to := None);
    InsertRecorded(Db(map[], []), 2, BLANK, 10);
    assert [] + [live] == [live];
    DeleteRecorded(Db(map[2 := BLANK], [live]), 2, 0, 20);
    assert [live][0 := LIVED] == [LIVED] && map[2 := BLANK] - {2} == map[];
  }

  lemma SecondLife()
    ensures var es := BackdatedKeyChange();
            Exec(Exec(Db(map[], [LIVED, GONE]), es[2]), es[3]).history ==
            [LIVED, GONE, OTHER, Interval(2, (), UPDATE, None, 15, None)]
  {
    var live: Interval<int, ()> := OTHER.(to := None);
    InsertRecorded(Db(map[], [LIVED, GONE]), 1, BLANK, 12);
    var h := [LIVED, GONE] + [live];
    assert h == [LIVED, GONE, live];
    RekeyRecorded(Db(map[1 := BLANK], h), 1, 2, 2, BLANK, 15);
    assert h[2 := OTHER] == [LIVED, GONE, OTHER];
  }

  lemma BackdatedHistory()
    ensures Run(map[], BackdatedKeyChange()).history == [LIVED, GONE, OTHER, Interval(2, (), UPDATE, None, 15, None)]
  {
    FirstLife();
    SecondLife();
    FourStatements(Db(map[], []), BackdatedKeyChange());
  }

  lemma CoveredTwice<K, P>(h: seq<Interval<K, P>>, k: K, at: int, i: int, j: int)
    requires i != j && CoversAt(h, k, at, i) && CoversAt(h, k, at, j)
    ensures !Unambiguous(h, k)
  {
  }

  /** A run the table accepts throughout, in which no insert is dated before an earlier end, yet
      the key change brings key 2 back in too early: instant 16 is covered twice. */
  lemma KeyChangeEntersTooEarly()
    ensures var h := Run(map[], BackdatedKeyChange()).history;
            CoversAt(h, 2, 16, 0) && CoversAt(h, 2, 16, 3)
    ensures !AlwaysInTime(map[], BackdatedKeyChange(), 2)
  {
    var es := BackdatedKeyChange();
    BackdatedHistory();
    CoveredTwice(Run(map[], es).history, 2, 16, 0, 3);
    UnambiguousIffInTime(map[], es, 2);
  }
}
