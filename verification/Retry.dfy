/** Waiting for the database: bounded attempts with a doubling, capped pause between them. */
module Retry {
  import opened Prelude

  /** Nanoseconds in a signed 64-bit word. */
  type Duration = d: int | -0x8000_0000_0000_0000 <= d < 0x8000_0000_0000_0000

  const MAX_BACKOFF: Duration := 2_000_000_000

  /** What one turn of the loop meets: whether the context is over when the turn starts, the
      error of the call if it fails, and how long the pause lasted if the context ended it. */
  datatype Turn<E> = Turn(over: bool, error: Option<E>, cut: Option<nat>)

  datatype Verdict<E> = Done | GaveUp(attempts: int, last: E) | Cancelled

  /** Doubling a word may wrap around; what exceeds the cap afterwards becomes the cap. */
  function Doubled(backoff: Duration): Duration {
    var twice := backoff * 2;
    if twice < -0x8000_0000_0000_0000 then
      if twice + 0x1_0000_0000_0000_0000 > MAX_BACKOFF then MAX_BACKOFF else twice + 0x1_0000_0000_0000_0000
    else if twice >= 0x8000_0000_0000_0000 then twice - 0x1_0000_0000_0000_0000
    else if twice > MAX_BACKOFF then MAX_BACKOFF
    else twice
  }

  /** A timer with a negative duration fires at once. */
  function Pause(backoff: Duration): nat {
    if backoff < 0 then 0 else backoff
  }

  function Attempts(attempts: int): nat {
    if attempts < 1 then 1 else attempts
  }

  /** The backoff before the (i+2)-nd call. */
  function Backoff(base: Duration, i: nat): Duration {
    if i == 0 then base else Doubled(Backoff(base, i - 1))
  }

  /** The first n pauses in full. */
  function Pauses(base: Duration, n: nat): (waits: seq<nat>)
    ensures |waits| == n
  {
    if n == 0 then [] else Pauses(base, n - 1) + [Pause(Backoff(base, n - 1))]
  }

  function Sum(waits: seq<nat>): nat {
    if waits == [] then 0 else Sum(waits[..|waits| - 1]) + waits[|waits| - 1]
  }

  /** The loop goes on after turn `i`. */
  ghost predicate GoesOn<E>(turn: Turn<E>) {
    !turn.over && turn.error.Some? && turn.cut.None?
  }

  /** The turn at which the loop ends: the first that does not go on, or the last attempt. */
  ghost predicate EndsAt<E>(turns: nat -> Turn<E>, limit: nat, last: nat) {
    && last < limit
    && (last == limit - 1 || !GoesOn(turns(last)))
    && forall j | 0 <= j < last :: GoesOn(turns(j))
  }

  /** The pause after `last` was cut short, so the loop ends cancelled. */
  ghost predicate CutShort<E>(attempts: int, turns: nat -> Turn<E>, last: nat) {
    last < Attempts(attempts) - 1 && !turns(last).over && turns(last).error.Some? && turns(last).cut.Some?
  }

  /** The pauses actually spent: in full, but for a last one that the context cut short. */
  ghost function Spent<E>(attempts: int, base: Duration, turns: nat -> Turn<E>, last: nat): (waits: seq<nat>) {
    var full := Pauses(base, last);
    if !CutShort(attempts, turns, last) then full
    else
      var (cut, pause) := (turns(last).cut.value, Pause(Backoff(base, last)));
      full + [if cut < pause then cut else pause]
  }

  /** Runs the turns until one succeeds, the context is over, or the attempts are spent. */
  method Retry<E>(attempts: int, base: Duration, turns: nat -> Turn<E>)
    returns (r: Verdict<E>, last: nat, calls: nat, waits: seq<nat>)
    ensures EndsAt(turns, Attempts(attempts), last)
    ensures r.Done? <==> !turns(last).over && turns(last).error.None?
    ensures r.GaveUp? <==> last == Attempts(attempts) - 1 && !turns(last).over && turns(last).error.Some?
    ensures r.GaveUp? ==> r == GaveUp(Attempts(attempts), turns(last).error.value)
    ensures calls == if turns(last).over then last else last + 1
    ensures waits == Spent(attempts, base, turns, last)
  {
    var limit := Attempts(attempts);
    var backoff := base;
    var error := None;
    last, calls, waits := 0, 0, [];
    while last < limit
      invariant last < limit && calls == last && waits == Pauses(base, last)
      invariant backoff == Backoff(base, last)
      invariant forall j | 0 <= j < last :: GoesOn(turns(j))
    {
      var turn := turns(last);
      if turn.over {
        return Cancelled, last, calls, waits;
      }
      calls := calls + 1;
      error := turn.error;
      if error.None? {
        return Done, last, calls, waits;
      }
      if last == limit - 1 {
        break;
      }
      if turn.cut.Some? {
        var pause := Pause(backoff);
        waits := waits + [if turn.cut.value < pause then turn.cut.value else pause];
        return Cancelled, last, calls, waits;
      }
      waits := waits + [Pause(backoff)];
      last, backoff := last + 1, Doubled(backoff);
    }
    r := GaveUp(limit, error.value);
  }

  /** base * 2^i */
  function Scaled(base: nat, i: nat): nat {
    if i == 0 then base else 2 * Scaled(base, i - 1)
  }

  lemma Capped(backoff: Duration, x: nat)
    requires backoff == if x <= MAX_BACKOFF then x else MAX_BACKOFF
    ensures Doubled(backoff) == if 2 * x <= MAX_BACKOFF then 2 * x else MAX_BACKOFF
  {
  }

  /** Doubling with a cap is the capped power, from any start between zero and the cap. */
  lemma {:induction false} BackoffIsExponential(base: Duration, i: nat)
    requires 0 <= base <= 2_000_000_000
    ensures Backoff(base, i) == if Scaled(base, i) <= 2_000_000_000 then Scaled(base, i) else 2_000_000_000
  {
    if i > 0 {
      BackoffIsExponential(base, i - 1);
      Capped(Backoff(base, i - 1), Scaled(base, i - 1));
    }
  }

  /** Whatever the start, even one whose double overflows, only the first pause can exceed
      the cap. */
  lemma {:induction false} LaterPausesAreCapped(base: Duration, i: nat)
    requires i > 0
    ensures Backoff(base, i) <= 2_000_000_000
  {
    assert Backoff(base, i) == Doubled(Backoff(base, i - 1));
  }

  lemma {:induction false} PausesAreBounded(base: Duration, n: nat)
    requires n > 0
    ensures Sum(Pauses(base, n)) <= Pause(base) + (n - 1) * MAX_BACKOFF
  {
    assert Pauses(base, n)[..n - 1] == Pauses(base, n - 1);
    if n > 1 {
      PausesAreBounded(base, n - 1);
      LaterPausesAreCapped(base, n - 1);
    } else {
      assert Sum(Pauses(base, 0)) == 0;
    }
  }

  /** Every run waits at most the first pause plus a cap for each later one; with a base
      up to the cap that is a cap for each of at most attempts - 1 pauses. */
  lemma WaitingIsBounded<E>(attempts: int, base: Duration, turns: nat -> Turn<E>, last: nat)
    requires EndsAt(turns, Attempts(attempts), last)
    ensures var total := Sum(Spent(attempts, base, turns, last));
            && total <= (if attempts <= 1 then 0 else Pause(base) + (attempts - 2) * 2_000_000_000)
            && (attempts >= 1 && base <= 2_000_000_000 ==> total <= (attempts - 1) * 2_000_000_000)
  {
    var waits := Spent(attempts, base, turns, last);
    var n := |waits|;
    if n > 0 {
      PausesAreBounded(base, n);
      assert Pauses(base, n)[..n - 1] == Pauses(base, n - 1) == waits[..n - 1];
      assert Sum(waits) <= Sum(Pauses(base, n));
      assert (n - 1) * MAX_BACKOFF <= (attempts - 2) * MAX_BACKOFF;
    }
  }
}
