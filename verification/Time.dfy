/** Monotonic time in nanoseconds, as `Instant` and `Duration` count it. */
module Time {
  type Instant = nat

  function Seconds(n: nat): nat { 1_000_000_000 * n }

  /** `duration_since`: zero when `earlier` is not earlier. */
  function Since(now: Instant, earlier: Instant): nat {
    if now >= earlier then now - earlier else 0
  }
}
