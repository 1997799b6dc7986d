/** The age rule for a consume event. */
module Recency {
  import opened Words

  /** Clock skew tolerated between an event's timestamp and this host's clock. */
  const CLOCK_SKEW_MS: nat := 60_000

  /** At most `maxAgeSecs` old, and in the future by no more than the skew. */
  predicate IsRecent(timestampMs: nat, nowMs: nat, maxAgeSecs: nat) {
    && timestampMs <= Min(nowMs + CLOCK_SKEW_MS, U64_MAX)
    && SaturatingSub(nowMs, timestampMs) <= Min(maxAgeSecs * 1000, U64_MAX)
  }
}
