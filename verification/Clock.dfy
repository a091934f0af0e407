/** Instants and durations as the Go standard library represents them. */
module Clock {

  // Nanoseconds since Go's zero time (1 January of year 1, 00:00 UTC).
  type Time = int
  // Nanoseconds; a Go time.Duration is a 64-bit signed count of them.
  type Duration = int

  const ZERO_TIME: Time := 0
  const SECOND: Duration := 1_000_000_000
  const FIVE_MINUTES: Duration := 300_000_000_000
  const TEN_MINUTES: Duration := 600_000_000_000
  // How far into the past a cron schedule is walked: 14 days.
  const LOOKBACK: Duration := 1_209_600_000_000_000
  const MAX_DURATION: Duration := 0x7FFF_FFFF_FFFF_FFFF
  const MIN_DURATION: Duration := -0x8000_0000_0000_0000

  // time.Time.Sub saturates at the ends of the 64-bit range.
  function Sub(a: Time, b: Time): Duration {
    if a - b > MAX_DURATION then MAX_DURATION
    else if a - b < MIN_DURATION then MIN_DURATION
    else a - b
  }

  // Adding two durations wraps around like any 64-bit signed addition.
  function AddWrapping(d: Duration, e: Duration): Duration {
    (d + e + 0x8000_0000_0000_0000) % 0x1_0000_0000_0000_0000 - 0x8000_0000_0000_0000
  }
}
