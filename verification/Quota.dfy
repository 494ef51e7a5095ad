/** How often a code can be requested. */
module Quota {
  import opened Prelude
  import opened Store

  const DEFAULT_COOLDOWN := 60 * SECOND
  const DEFAULT_WINDOW := 24 * 60 * MINUTE
  const DEFAULT_LIMIT := 5

  /** Non-positive fields stand for the defaults. */
  datatype Quota = Quota(cooldown: int, window: int, limit: int) {
    function Cooldown(): (r: int)
      ensures r > 0
    {
      if cooldown <= 0 then DEFAULT_COOLDOWN else cooldown
    }

    function Window(): (r: int)
      ensures r > 0
    {
      if window <= 0 then DEFAULT_WINDOW else window
    }

    function Limit(): (r: int)
      ensures r > 0
    {
      if limit <= 0 then DEFAULT_LIMIT else limit
    }

    /** Passes iff the cooldown since the last request is over and the window has room; the
        caller is told how long to wait otherwise. */
    function Check(now: int, lastAt: Option<int>, inWindow: nat): (r: Outcome<int>)
      ensures r.Pass? <==> (lastAt.Some? ==> now - lastAt.value >= Cooldown()) && inWindow < Limit()
      ensures r.Fail? && lastAt.Some? && now < lastAt.value + Cooldown() ==> now + r.error == lastAt.value + Cooldown()
      ensures r.Fail? ==> r.error > 0
    {
      if lastAt.Some? && now - lastAt.value < Cooldown() then Fail(Cooldown() - (now - lastAt.value))
      else if inWindow >= Limit() then Fail(Window())
      else Pass
    }
  }
}
