/** When a search first deduplicates the collection (`_needs_deduplication`). */
module Gating {
  import opened Wrappers
  import opened Memories

  /** `DEDUP_INTERVAL_HOURS`. */
  const DedupIntervalHours: int := 24
  /** Timestamps are microseconds, the resolution of the clock the engine reads. */
  const MicrosPerHour: int := 3_600_000_000
  const DedupInterval: int := DedupIntervalHours * MicrosPerHour
  /** Collections of at most this many memories are never deduplicated. */
  const DedupMinimum: int := 10

  predicate NeedsDeduplication(c: Collection, now: int)
  {
    if |c.memories| <= DedupMinimum then false
    else match c.lastDeduplicatedAt
      case None => true
      case Some(last) => now - last > DedupInterval
  }

  /** The three cases of the gate: small collections never, never-deduplicated large ones
      always, others exactly when more than 24 hours have passed. */
  lemma GateCases(c: Collection, now: int)
    ensures |c.memories| <= 10 ==> !NeedsDeduplication(c, now)
    ensures |c.memories| > 10 && c.lastDeduplicatedAt == None ==> NeedsDeduplication(c, now)
    ensures |c.memories| > 10 && c.lastDeduplicatedAt.Some? ==>
      (NeedsDeduplication(c, now) <==> now - c.lastDeduplicatedAt.value > 24 * 3600 * 1000000)
  {
  }

  /** A collection deduplicated at `last` is not deduplicated again within the next 24 hours. */
  lemma NotAgainWithinInterval(c: Collection, last: int, now: int)
    requires now <= last + DedupInterval
    ensures !NeedsDeduplication(c.(lastDeduplicatedAt := Some(last)), now)
  {
  }

  /** Once due, deduplication stays due as time passes. */
  lemma StaysDue(c: Collection, now: int, later: int)
    requires NeedsDeduplication(c, now) && now <= later
    ensures NeedsDeduplication(c, later)
  {
  }
}
