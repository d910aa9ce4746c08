/**
 * The shared rate limiter (apps/api/src/auth/shared-throttler-storage.ts): one row per bucket, moved by
 * an atomic upsert, and a background cleanup that deletes rows whose window has passed. Times are
 * milliseconds.
 */
module Throttler {
  import opened Options

  datatype Row = Row(hits: int, window: int, block: Option<int>)

  /** The policy of a bucket: constant for a key, because the key is derived from the throttled route. */
  datatype Policy = Policy(ttl: int, limit: int, blockDuration: int)

  datatype Record = Record(totalHits: int, timeToExpire: int, isBlocked: bool, timeToBlockExpire: int)

  const CLEANUP_INTERVAL_MS: int := 300000

  // ----- The row transition -----

  predicate ActiveBlock(row: Row, now: int) { row.block.Some? && row.block.value > now }

  function HitCount(row: Row, now: int): int
  {
    if ActiveBlock(row, now) then row.hits
    else if row.window <= now || (row.block.Some? && row.block.value <= now) then 1
    else row.hits + 1
  }

  /** The row an increment stores, from the row it finds. */
  function Upsert(found: Option<Row>, p: Policy, now: int): Row
  {
    match found
    case None => Row(1, now + p.ttl, None)
    case Some(row) =>
      if ActiveBlock(row, now) then row
      else
        var hits := HitCount(row, now);
        Row(hits, now + p.ttl, if hits > p.limit then Some(now + p.blockDuration) else None)
  }

  /** `Math.max(0, Math.ceil(ms / 1000))`. */
  function Seconds(ms: int): int { if ms <= 0 then 0 else (ms + 999) / 1000 }

  function Report(row: Row, now: int): Record
  {
    Record(row.hits, Seconds(row.window - now), ActiveBlock(row, now),
           match row.block case None => 0 case Some(b) => Seconds(b - now))
  }

  function Find(rows: map<string, Row>, key: string): Option<Row>
  {
    if key in rows then Some(rows[key]) else None
  }

  // ----- The storage -----

  class SharedThrottlerStorage {
    var rows: map<string, Row>
    var lastCleanupAt: int
    var lastCleanupDeleted: int

    constructor ()
      ensures rows == map[] && lastCleanupAt == 0 && lastCleanupDeleted == 0
    {
      rows, lastCleanupAt, lastCleanupDeleted := map[], 0, 0;
    }

    method Increment(key: string, p: Policy, now: int) returns (record: Record)
      modifies this`rows
      ensures rows == old(rows)[key := Upsert(Find(old(rows), key), p, now)]
      ensures record == Report(rows[key], now)
    {
      var windowExpiresAt := now + p.ttl;
      var blockExpiresAt := now + p.blockDuration;
      if key !in rows {
        rows := rows[key := Row(1, windowExpiresAt, None)];
      } else {
        var row := rows[key];
        var active := row.block.Some? && row.block.value > now;
        var hits := HitCount(row, now);
        rows := rows[key := Row(hits, if active then row.window else windowExpiresAt,
                                if active then row.block else if hits > p.limit then Some(blockExpiresAt) else None)];
      }
      var row := rows[key];
      record := Record(row.hits, Seconds(row.window - now), row.block.Some? && row.block.value > now,
                       if row.block.None? then 0 else Seconds(row.block.value - now));
    }

    /**
     * The cleanup an increment at `now` triggers. The database deletes `answer`, some batch of rows
     * whose window has passed, or fails and answers nothing.
     */
    method CleanupExpired(now: int, answer: Option<set<string>>)
      requires answer.Some? ==> |answer.value| <= 500
      requires answer.Some? ==> forall k :: k in answer.value ==> k in rows && rows[k].window <= now
      modifies this
      ensures var due := now - old(lastCleanupAt) >= 300000;
              && rows == (if due && answer.Some? then old(rows) - answer.value else old(rows))
              && lastCleanupAt == (if due then now else old(lastCleanupAt))
              && lastCleanupDeleted == (if !due then old(lastCleanupDeleted) else if answer.Some? then |answer.value| else 0)
    {
      if now - lastCleanupAt < CLEANUP_INTERVAL_MS { return; }
      lastCleanupAt := now;
      lastCleanupDeleted := 0;
      if answer.Some? {
        rows := rows - answer.value;
        lastCleanupDeleted := |answer.value|;
      }
    }
  }
}
