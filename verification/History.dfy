/**
 The tracked tables and their history.

 One source table keyed by `K` and its history table. A source row is split the way the
 triggers see it: `payload` is what the history copies, `rest` is every other column except
 `dt_updated_at`, and `updatedAt` is that column. Every recorded write closes the open
 interval of the old key and appends a new row; a physical delete appends a row that is born
 closed.
 */
module History {
  import opened Prelude

  datatype Operation = INSERT | UPDATE | DELETE

  datatype Row<P, R> = Row(payload: P, rest: R, updatedAt: int)

  /** One history row; `to` is None while the interval is open. */
  datatype Interval<K, P> = Interval(key: K, payload: P, operation: Operation,
                                     actor: Option<string>, from: int, to: Option<int>)

  datatype Db<K, P, R> = Db(source: map<K, Row<P, R>>, history: seq<Interval<K, P>>)

  datatype Rejection =
    | DuplicateKey
    | IntervalCheck
    | SecondOpenInterval
    | ClosedIntervalRewritten

  /** One single-row statement on the source table. */
  datatype Write<K, P, R> =
    | Insert(newKey: K, after: Row<P, R>)
    | Update(oldKey: K, newKey: K, after: Row<P, R>)
    | Delete(oldKey: K)

  /** What a row trigger receives: TG_OP with OLD and NEW. */
  datatype Change<K, P, R> =
    | Inserted(newKey: K, after: Row<P, R>)
    | Updated(oldKey: K, before: Row<P, R>, newKey: K, after: Row<P, R>)
    | Deleted(oldKey: K, before: Row<P, R>)

  predicate Open<K(==), P>(r: Interval<K, P>, k: K) {
    r.key == k && r.to.None?
  }

  predicate OpenAt<K(==), P>(h: seq<Interval<K, P>>, k: K, i: int) {
    0 <= i < |h| && Open(h[i], k)
  }

  /** `valid_from <= T and (valid_to is null or T < valid_to)` */
  predicate CoversAt<K(==), P>(h: seq<Interval<K, P>>, k: K, at: int, i: int) {
    && 0 <= i < |h|
    && h[i].key == k
    && h[i].from <= at
    && (h[i].to.Some? ==> at < h[i].to.value)
  }

  /** The update leaves every column but `dt_updated_at` as it was. */
  predicate Noise<K(==), P(==), R(==)>(c: Change<K, P, R>) {
    c.Updated? && c.oldKey == c.newKey && c.before.payload == c.after.payload && c.before.rest == c.after.rest
  }

  /** The interval CHECK accepts closing every open interval of `k` at `ts`. */
  predicate Closable<K(==), P>(h: seq<Interval<K, P>>, k: K, ts: int) {
    forall i | 0 <= i < |h| :: OpenAt(h, k, i) ==> h[i].from <= ts
  }

  /** The history after every open interval of `k` was closed at `ts`. */
  function Closed<K(==), P>(h: seq<Interval<K, P>>, k: K, ts: int): (c: seq<Interval<K, P>>)
    ensures |c| == |h|
    ensures forall i | 0 <= i < |h| :: c[i] == if Open(h[i], k) then h[i].(to := Some(ts)) else h[i]
  {
    seq(|h|, i requires 0 <= i < |h| => if Open(h[i], k) then h[i].(to := Some(ts)) else h[i])
  }

  /** The history row the trigger appends. */
  function Appended<K, P, R>(c: Change<K, P, R>, ts: int, actor: Option<string>): Interval<K, P> {
    match c
    case Inserted(k, after) => Interval(k, after.payload, INSERT, actor, ts, None)
    case Updated(_, _, k, after) => Interval(k, after.payload, UPDATE, actor, ts, None)
    case Deleted(k, before) => Interval(k, before.payload, DELETE, actor, ts, Some(ts))
  }

  /** INSERT into the history table under its partial unique index and its CHECK. */
  function Append<K(==), P>(h: seq<Interval<K, P>>, r: Interval<K, P>): Result<seq<Interval<K, P>>, Rejection> {
    if r.to.Some? && r.to.value < r.from then Err(IntervalCheck)
    else if r.to.None? && exists i | 0 <= i < |h| :: OpenAt(h, r.key, i) then Err(SecondOpenInterval)
    else Ok(h + [r])
  }

  /** The AFTER ROW trigger. */
  function Fire<K(==), P(==), R(==)>(h: seq<Interval<K, P>>, c: Change<K, P, R>, ts: int, actor: Option<string>)
    : Result<seq<Interval<K, P>>, Rejection>
  {
    if Noise(c) then Ok(h)
    else if c.Inserted? then Append(h, Appended(c, ts, actor))
    else if exists i | 0 <= i < |h| :: OpenAt(h, c.oldKey, i) && ts < h[i].from then Err(IntervalCheck)
    else Append(Closed(h, c.oldKey, ts), Appended(c, ts, actor))
  }

  /** The row change a statement makes, or None when it matches no row. */
  function RowChange<K(==), P, R>(source: map<K, Row<P, R>>,
                                  w: Write<K, P, R>): Result<Option<Change<K, P, R>>, Rejection> {
    match w
    case Insert(k, after) =>
      if k in source then Err(DuplicateKey) else Ok(Some(Inserted(k, after)))
    case Update(k, k', after) =>
      if k !in source then Ok(None)
      else if k' != k && k' in source then Err(DuplicateKey)
      else Ok(Some(Updated(k, source[k], k', after)))
    case Delete(k) =>
      if k !in source then Ok(None) else Ok(Some(Deleted(k, source[k])))
  }

  /** The source table after a row change. */
  function Changed<K(==), P, R>(source: map<K, Row<P, R>>, c: Change<K, P, R>): map<K, Row<P, R>> {
    match c
    case Inserted(k, after) => source[k := after]
    case Updated(k, _, k', after) => (source - {k})[k' := after]
    case Deleted(k, _) => source - {k}
  }

  /** A whole statement with its trigger: both tables move, or the statement is rejected. */
  function Apply<K(==), P(==), R(==)>(db: Db<K, P, R>, w: Write<K, P, R>, ts: int, actor: Option<string>)
    : Result<Db<K, P, R>, Rejection>
  {
    var change :- RowChange(db.source, w);
    if change.None? then Ok(db)
    else
      var history :- Fire(db.history, change.value, ts, actor);
      Ok(Db(Changed(db.source, change.value), history))
  }

  /** The two tables, with the statements as the database executes them. */
  class TrackedTable<K(==), P(==), R(==)> {
    var source: map<K, Row<P, R>>
    var history: seq<Interval<K, P>>

    ghost function View(): Db<K, P, R>
      reads this
    {
      Db(source, history)
    }

    constructor (seeds: map<K, Row<P, R>>)
      ensures View() == Db(seeds, [])
    {
      source := seeds;
      history := [];
    }

    /** One row of an UPDATE on the history table: the immutability trigger, then the CHECK. */
    static method UpdateInterval(row: Interval<K, P>, updated: Interval<K, P>) returns (r: Outcome<Rejection>)
      ensures r.Pass? <==> row.to.None? && (updated.to.Some? ==> updated.from <= updated.to.value)
      ensures row.to.Some? ==> r == Fail(ClosedIntervalRewritten)
      ensures r.Fail? && row.to.None? ==> r == Fail(IntervalCheck)
    {
      if row.to.Some? {
        return Fail(ClosedIntervalRewritten);
      }
      if updated.to.Some? && updated.to.value < updated.from {
        return Fail(IntervalCheck);
      }
      return Pass;
    }

    /** `UPDATE ... SET dt_valid_to = v_ts WHERE key = OLD.key AND dt_valid_to IS NULL`.
        The immutability trigger runs on every row it touches and never raises. */
    method CloseOpen(k: K, ts: int) returns (r: Outcome<Rejection>, h: seq<Interval<K, P>>)
      ensures r.Pass? <==> Closable(history, k, ts)
      ensures r.Pass? ==> h == Closed(history, k, ts)
      ensures r.Fail? ==> r == Fail(IntervalCheck)
    {
      h := history;
      var i := 0;
      while i < |history|
        invariant 0 <= i <= |history| == |h|
        invariant forall j | 0 <= j < i :: OpenAt(history, k, j) ==> history[j].from <= ts
        invariant forall j | 0 <= j < i :: h[j] ==
                    if Open(history[j], k) then history[j].(to := Some(ts)) else history[j]
        invariant forall j | i <= j < |h| :: h[j] == history[j]
      {
        if h[i].key == k && h[i].to.None? {
          var closed := h[i].(to := Some(ts));
          r := UpdateInterval(h[i], closed);
          if r.Fail? {
            assert OpenAt(history, k, i);
            return;
          }
          h := h[i := closed];
        }
        i := i + 1;
      }
      r := Pass;
    }

    /** The trigger body shared by the six tracked tables. */
    method Trigger(c: Change<K, P, R>, ts: int, actor: Option<string>) returns (r: Outcome<Rejection>)
      modifies this`history
      ensures match Fire(old(history), c, ts, actor)
              case Ok(h) => r == Pass && history == h
              case Err(e) => r == Fail(e) && history == old(history)
    {
      if Noise(c) {
        return Pass;
      }
      var h := history;
      if !c.Inserted? {
        r, h := CloseOpen(c.oldKey, ts);
        if r.Fail? {
          return;
        }
      }
      var row := Appended(c, ts, actor);
      if row.to.None? && exists i | 0 <= i < |h| :: OpenAt(h, row.key, i) {
        return Fail(SecondOpenInterval);
      }
      history := h + [row];
      return Pass;
    }

    method Execute(w: Write<K, P, R>, ts: int, actor: Option<string>) returns (r: Outcome<Rejection>)
      modifies this
      ensures match Apply(old(View()), w, ts, actor)
              case Ok(db) => r == Pass && View() == db
              case Err(e) => r == Fail(e) && View() == old(View())
    {
      var change := RowChange(source, w);
      if change.Err? {
        return Fail(change.error);
      }
      if change.value.None? {
        return Pass;
      }
      r := Trigger(change.value.value, ts, actor);
      if r.Pass? {
        source := Changed(source, change.value.value);
      }
    }
  }
}
