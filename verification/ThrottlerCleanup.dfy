/**
 * Whether the background cleanup can be noticed. It looks only at the window of a row and never at its
 * block (apps/api/src/auth/shared-throttler-storage.ts:112-123), so deleting a row is invisible for
 * some policies and forgets a running block for the others.
 */
module ThrottlerCleanup {
  import opened Options
  import opened Throttler
  import opened ThrottlerHistory

  /**
   * A step on the shared table: a hit, or a deletion of those rows among `chosen` whose window had
   * passed at `cutoff`, the time of the increment that triggered the cleanup.
   */
  datatype Step = Hit(key: string, now: int) | Sweep(cutoff: int, chosen: set<string>)

  function Swept(rows: map<string, Row>, cutoff: int, chosen: set<string>): map<string, Row>
  {
    map k | k in rows && !(k in chosen && rows[k].window <= cutoff) :: rows[k]
  }

  function After(pol: string -> Policy, rows: map<string, Row>, step: Step): map<string, Row>
  {
    match step
    case Hit(key, now) => rows[key := Upsert(Find(rows, key), pol(key), now)]
    case Sweep(cutoff, chosen) => Swept(rows, cutoff, chosen)
  }

  /** The answers to the hits of a run, in order. */
  function Records(pol: string -> Policy, rows: map<string, Row>, steps: seq<Step>): seq<Record>
    decreases steps
  {
    if steps == [] then []
    else
      var next := After(pol, rows, steps[0]);
      (match steps[0] case Hit(key, now) => [Report(next[key], now)] case Sweep(_, _) => [])
      + Records(pol, next, steps[1..])
  }

  /** The run without its deletions. */
  function HitsOnly(steps: seq<Step>): seq<Step>
  {
    if steps == [] then [] else (if steps[0].Hit? then [steps[0]] else []) + HitsOnly(steps[1..])
  }

  /** Time does not run backwards: hits come in order, and a deletion's cutoff is not in the future of a later hit. */
  predicate Timely(from: int, steps: seq<Step>)
    decreases steps
  {
    steps == [] ||
    match steps[0]
    case Hit(_, now) => from <= now && Timely(now, steps[1..])
    case Sweep(cutoff, _) => Timely(if cutoff > from then cutoff else from, steps[1..])
  }

  /** The cleanup cannot be noticed: no run is answered differently for having deletions in it. */
  ghost predicate Invisible(pol: string -> Policy)
  {
    forall from, steps :: Timely(from, steps) ==> Records(pol, map[], steps) == Records(pol, map[], HitsOnly(steps))
  }

  /** The policies the cleanup is safe for. */
  predicate Safe(p: Policy)
  {
    || (p.limit >= 1 && (p.ttl <= 0 || p.blockDuration <= p.ttl))
    || (p.limit <= 0 && p.ttl <= 0 && p.blockDuration <= 0)
  }

  // ----- Safe policies -----

  /** What holds of every stored row under a safe policy, at time `now` or later. */
  predicate RowOk(p: Policy, row: Row, now: int)
  {
    if p.limit >= 1 && p.ttl > 0 then row.block.Some? ==> row.block.value <= row.window
    else row.hits == 1 && row.window <= now && (row.block.Some? ==> p.limit <= 0 && row.block.value <= now)
  }

  /** The two rows are answered alike from `now` on, the second perhaps deleted. */
  predicate Alike(p: Policy, full: Option<Row>, swept: Option<Row>, now: int)
  {
    && (full.Some? ==> RowOk(p, full.value, now))
    && (swept.Some? ==> RowOk(p, swept.value, now) && full.Some?)
    && (swept.Some? && p.limit >= 1 ==> full == swept)
    && (swept.None? && full.Some? ==> full.value.window <= now)
  }

  lemma AlikeLater(p: Policy, full: Option<Row>, swept: Option<Row>, now: int, later: int)
    requires Alike(p, full, swept, now) && now <= later
    ensures Alike(p, full, swept, later)
  {
  }

  /** A hit on two rows that are alike gets the same answer and leaves them alike. */
  lemma AlikeHit(p: Policy, full: Option<Row>, swept: Option<Row>, now: int)
    requires Safe(p) && Alike(p, full, swept, now)
    ensures var a, b := Upsert(full, p, now), Upsert(swept, p, now);
            Report(a, now) == Report(b, now) && Alike(p, Some(a), Some(b), now)
  {
  }

  ghost predicate AlikeTables(pol: string -> Policy, full: map<string, Row>, swept: map<string, Row>, now: int)
  {
    forall k :: Alike(pol(k), Find(full, k), Find(swept, k), now)
  }

  lemma TablesAlikeHit(pol: string -> Policy, full: map<string, Row>, swept: map<string, Row>, now: int, key: string, t: int)
    requires Safe(pol(key)) && AlikeTables(pol, full, swept, now) && now <= t
    ensures var a, b := After(pol, full, Hit(key, t)), After(pol, swept, Hit(key, t));
            AlikeTables(pol, a, b, t) && Report(a[key], t) == Report(b[key], t)
  {
    hide Alike, Upsert, Report, Safe;
    var a, b := After(pol, full, Hit(key, t)), After(pol, swept, Hit(key, t));
    forall k ensures Alike(pol(k), Find(a, k), Find(b, k), t) {
      AlikeLater(pol(k), Find(full, k), Find(swept, k), now, t);
      if k == key { AlikeHit(pol(key), Find(full, key), Find(swept, key), t); }
    }
    AlikeLater(pol(key), Find(full, key), Find(swept, key), now, t);
    AlikeHit(pol(key), Find(full, key), Find(swept, key), t);
  }

  lemma TablesAlikeSweep(pol: string -> Policy, full: map<string, Row>, swept: map<string, Row>, now: int, cutoff: int, chosen: set<string>)
    requires AlikeTables(pol, full, swept, now)
    ensures AlikeTables(pol, full, Swept(swept, cutoff, chosen), if cutoff > now then cutoff else now)
  {
    hide Alike;
    var b, t := Swept(swept, cutoff, chosen), if cutoff > now then cutoff else now;
    forall k ensures Alike(pol(k), Find(full, k), Find(b, k), t) {
      AlikeSwept(pol(k), Find(full, k), Find(swept, k), Find(b, k), now, t);
    }
  }

  lemma {:induction false} SameRecords(pol: string -> Policy, full: map<string, Row>, swept: map<string, Row>, now: int, steps: seq<Step>)
    requires forall k :: Safe(pol(k))
    requires AlikeTables(pol, full, swept, now) && Timely(now, steps)
    ensures Records(pol, swept, steps) == Records(pol, full, HitsOnly(steps))
    decreases steps
  {
    hide Alike, AlikeTables, Upsert, Report, Safe, Swept;
    if steps != [] {
      var rest := HitsOnly(steps[1..]);
      match steps[0]
      case Hit(key, t) =>
        var a, b := After(pol, full, steps[0]), After(pol, swept, steps[0]);
        TablesAlikeHit(pol, full, swept, now, key, t);
        SameRecords(pol, a, b, t, steps[1..]);
        assert HitsOnly(steps)[0] == steps[0] && HitsOnly(steps)[1..] == rest;
      case Sweep(cutoff, chosen) =>
        var t := if cutoff > now then cutoff else now;
        var b := Swept(swept, cutoff, chosen);
        TablesAlikeSweep(pol, full, swept, now, cutoff, chosen);
        SameRecords(pol, full, b, t, steps[1..]);
        assert HitsOnly(steps) == rest;
    }
  }

  lemma AlikeSwept(p: Policy, full: Option<Row>, before: Option<Row>, swept: Option<Row>, now: int, later: int)
    requires Alike(p, full, before, now) && now <= later
    requires swept == before || (swept == None && before.Some? && before.value.window <= later)
    ensures Alike(p, full, swept, later)
  {
  }

  lemma SafeIsInvisible(pol: string -> Policy)
    requires forall k :: Safe(pol(k))
    ensures Invisible(pol)
  {
    hide Records, HitsOnly, Timely, Safe;
    forall from, steps | Timely(from, steps) ensures Records(pol, map[], steps) == Records(pol, map[], HitsOnly(steps)) {
      assert AlikeTables(pol, map[], map[], from);
      SameRecords(pol, map[], map[], from, steps);
    }
  }

  // ----- Unsafe policies -----

  lemma HitFirst(key: string, now: int, rest: seq<Step>, from: int)
    ensures Timely(from, [Hit(key, now)] + rest) <==> from <= now && Timely(now, rest)
    ensures HitsOnly([Hit(key, now)] + rest) == [Hit(key, now)] + HitsOnly(rest)
  {
    assert ([Hit(key, now)] + rest)[1..] == rest;
  }

  lemma SweepFirst(cutoff: int, chosen: set<string>, rest: seq<Step>, from: int)
    ensures Timely(from, [Sweep(cutoff, chosen)] + rest) <==> Timely(if cutoff > from then cutoff else from, rest)
    ensures HitsOnly([Sweep(cutoff, chosen)] + rest) == HitsOnly(rest)
  {
    assert ([Sweep(cutoff, chosen)] + rest)[1..] == rest;
  }

  lemma NoSteps(from: int)
    ensures Timely(from, []) && HitsOnly([]) == []
  {
  }

  /** `n` hits on one bucket, all at time 0. */
  function Burst(key: string, n: nat): seq<Step> { if n == 0 then [] else [Hit(key, 0)] + Burst(key, n - 1) }

  /** The row after `j` hits at time 0. */
  function BurstRow(p: Policy, j: nat): Option<Row>
  {
    if j == 0 then None
    else Some(Row(j, p.ttl, if j > p.limit then Some(p.blockDuration) else None))
  }

  lemma {:induction false} BurstIsTimely(key: string, n: nat, tail: seq<Step>)
    requires Timely(0, tail)
    ensures Timely(0, Burst(key, n) + tail)
    ensures HitsOnly(Burst(key, n) + tail) == Burst(key, n) + HitsOnly(tail)
  {
    hide Timely, HitsOnly;
    if n == 0 {
      assert Burst(key, n) + tail == tail && Burst(key, n) + HitsOnly(tail) == HitsOnly(tail);
    } else {
      BurstIsTimely(key, n - 1, tail);
      HitFirst(key, 0, Burst(key, n - 1) + tail, 0);
      assert Burst(key, n) + tail == [Hit(key, 0)] + (Burst(key, n - 1) + tail);
      assert Burst(key, n) + HitsOnly(tail) == [Hit(key, 0)] + (Burst(key, n - 1) + HitsOnly(tail));
    }
  }

  /** One step of a run that starts with a hit. */
  lemma RecordsOfHit(pol: string -> Policy, rows: map<string, Row>, key: string, now: int, rest: seq<Step>)
    ensures var row := Upsert(Find(rows, key), pol(key), now);
            Records(pol, rows, [Hit(key, now)] + rest) == [Report(row, now)] + Records(pol, rows[key := row], rest)
  {
    hide Upsert, Report;
    assert ([Hit(key, now)] + rest)[1..] == rest;
  }

  lemma RecordsOfSweep(pol: string -> Policy, rows: map<string, Row>, cutoff: int, chosen: set<string>, rest: seq<Step>)
    ensures Records(pol, rows, [Sweep(cutoff, chosen)] + rest) == Records(pol, Swept(rows, cutoff, chosen), rest)
  {
    hide Upsert, Report;
    assert ([Sweep(cutoff, chosen)] + rest)[1..] == rest;
  }

  /** A block longer than the window is forgotten when the window ends. */
  lemma {:induction false} ForgetsBlock(pol: string -> Policy, rows: map<string, Row>, key: string, j: nat)
    requires var p := pol(key);
             p.limit >= 1 && 0 < p.ttl < p.blockDuration && j <= p.limit + 1 && Find(rows, key) == BurstRow(p, j)
    ensures var p := pol(key);
            var hit := [Hit(key, p.ttl)];
            Records(pol, rows, Burst(key, p.limit + 1 - j) + ([Sweep(p.ttl, {key})] + hit))
            != Records(pol, rows, Burst(key, p.limit + 1 - j) + hit)
    decreases pol(key).limit + 1 - j
  {
    hide Records, Seconds;
    var p := pol(key);
    var sweep, hit, burst := [Sweep(p.ttl, {key})], [Hit(key, p.ttl)], Burst(key, p.limit + 1 - j);
    if j == p.limit + 1 {
      assert burst + (sweep + hit) == sweep + hit && burst + hit == hit == hit + [];
      RecordsOfSweep(pol, rows, p.ttl, {key}, hit);
      RecordsOfHit(pol, Swept(rows, p.ttl, {key}), key, p.ttl, []);
      RecordsOfHit(pol, rows, key, p.ttl, []);
      assert key !in Swept(rows, p.ttl, {key});
      var a, b := Records(pol, rows, burst + (sweep + hit)), Records(pol, rows, burst + hit);
      assert a[0] == Report(Upsert(None, p, p.ttl), p.ttl) && b[0] == Report(Upsert(Find(rows, key), p, p.ttl), p.ttl);
    } else {
      var row := Upsert(Find(rows, key), p, 0);
      assert BurstRow(p, j + 1) == Some(row);
      var later := Burst(key, p.limit - j);
      ForgetsBlock(pol, rows[key := row], key, j + 1);
      assert burst + (sweep + hit) == [Hit(key, 0)] + (later + (sweep + hit));
      assert burst + hit == [Hit(key, 0)] + (later + hit);
      RecordsOfHit(pol, rows, key, 0, later + (sweep + hit));
      RecordsOfHit(pol, rows, key, 0, later + hit);
      var a, b := Records(pol, rows, burst + (sweep + hit)), Records(pol, rows, burst + hit);
      assert a[1..] != b[1..];
    }
  }

  /** With no limit at all a row that is counted again starts a block or resets, and a fresh one does not. */
  lemma ForgetsRow(pol: string -> Policy, key: string)
    requires pol(key).limit <= 0 && (pol(key).blockDuration > 0 || pol(key).ttl > 0)
    ensures var ttl := pol(key).ttl;
            var end := if ttl > 0 then ttl else 0;
            var hits := [Hit(key, end)] + [Hit(key, end)];
            Records(pol, map[], [Hit(key, 0)] + ([Sweep(end, {key})] + hits)) != Records(pol, map[], [Hit(key, 0)] + hits)
  {
    hide Records, Seconds;
    var p := pol(key);
    var end := if p.ttl > 0 then p.ttl else 0;
    var hit := [Hit(key, end)];
    var first := Row(1, p.ttl, None);
    var rows := map[][key := first];
    RecordsOfHit(pol, map[], key, 0, [Sweep(end, {key})] + (hit + hit));
    RecordsOfHit(pol, map[], key, 0, hit + hit);
    RecordsOfSweep(pol, rows, end, {key}, hit + hit);
    var fresh_row, again := Upsert(None, p, end), Upsert(Some(first), p, end);
    var gone := Swept(rows, end, {key});
    assert key !in gone;
    RecordsOfHit(pol, gone, key, end, hit);
    RecordsOfHit(pol, rows, key, end, hit);
    assert hit == hit + [];
    RecordsOfHit(pol, gone[key := fresh_row], key, end, []);
    RecordsOfHit(pol, rows[key := again], key, end, []);
    var a, b := Records(pol, gone, hit + hit), Records(pol, rows, hit + hit);
    assert a[0] == Report(fresh_row, end) && b[0] == Report(again, end);
    if p.blockDuration <= 0 {
      assert a[1].totalHits == 2 && b[1].totalHits == 1;
    }
    assert a != b;
    var x, y := Records(pol, map[], [Hit(key, 0)] + ([Sweep(end, {key})] + (hit + hit))), Records(pol, map[], [Hit(key, 0)] + (hit + hit));
    assert x[1..] == a && y[1..] == b;
  }

  lemma UnsafeIsVisible(pol: string -> Policy, key: string)
    requires !Safe(pol(key))
    ensures !Invisible(pol)
  {
    hide Records, Burst, Timely, HitsOnly;
    var p := pol(key);
    var end := if p.ttl > 0 then p.ttl else 0;
    var hit := [Hit(key, end)];
    NoSteps(end);
    HitFirst(key, end, [], end);
    assert hit + [] == hit;
    if p.limit >= 1 {
      SweepFirst(end, {key}, hit, 0);
      BurstIsTimely(key, p.limit + 1, [Sweep(end, {key})] + hit);
      ForgetsBlock(pol, map[], key, 0);
    } else {
      HitFirst(key, end, hit, end);
      SweepFirst(end, {key}, hit + hit, 0);
      HitFirst(key, 0, [Sweep(end, {key})] + (hit + hit), 0);
      ForgetsRow(pol, key);
    }
  }

  /**
   * The exact condition: the cleanup is invisible in every run over the shared table if and only if
   * every bucket's policy is safe, which for a positive limit and window says that no block outlasts
   * the window.
   */
  lemma InvisibleExactly(pol: string -> Policy)
    ensures Invisible(pol) <==> forall k :: Safe(pol(k))
  {
    hide Safe, Invisible;
    if forall k :: Safe(pol(k)) {
      SafeIsInvisible(pol);
    } else {
      var key :| !Safe(pol(key));
      UnsafeIsVisible(pol, key);
    }
  }

  // ----- One bucket in a run of many, with deletions -----

  function KeyHits(key: string, steps: seq<Step>): seq<int>
  {
    if steps == [] then []
    else (if steps[0].Hit? && steps[0].key == key then [steps[0].now] else []) + KeyHits(key, steps[1..])
  }

  /** The answers to the hits on one bucket in a run over the shared table. */
  function KeyRecords(pol: string -> Policy, rows: map<string, Row>, key: string, steps: seq<Step>): seq<Record>
    decreases steps
  {
    if steps == [] then []
    else
      var next := After(pol, rows, steps[0]);
      (if steps[0].Hit? && steps[0].key == key then [Report(next[key], steps[0].now)] else [])
      + KeyRecords(pol, next, key, steps[1..])
  }

  /** The answers a history of hits gets when it has the bucket's row to itself and nothing is ever deleted. */
  function OwnRecords(p: Policy, prior: seq<int>, hits: seq<int>): (r: seq<Record>)
    ensures |r| == |hits|
    decreases hits
  {
    if hits == [] then []
    else [Report(RowAfter(p, prior + [hits[0]]).value, hits[0])] + OwnRecords(p, prior + [hits[0]], hits[1..])
  }

  lemma KeyStep(pol: string -> Policy, rows: map<string, Row>, key: string, prior: seq<int>, now: int, step: Step) returns (later: seq<int>, t: int)
    requires Safe(pol(key)) && Alike(pol(key), RowAfter(pol(key), prior), Find(rows, key), now)
    requires step.Hit? ==> now <= step.now
    ensures var next := After(pol, rows, step);
            && t == (match step case Hit(_, at) => at case Sweep(cutoff, _) => if cutoff > now then cutoff else now)
            && Alike(pol(key), RowAfter(pol(key), later), Find(next, key), t)
            && later == (if step.Hit? && step.key == key then prior + [step.now] else prior)
            && (step.Hit? && step.key == key ==>
                  RowAfter(pol(key), later).Some? && Report(next[key], t) == Report(RowAfter(pol(key), later).value, t))
  {
    hide Alike, Upsert, Report, Safe;
    var p := pol(key);
    match step
    case Hit(k, at) =>
      t := at;
      AlikeLater(p, RowAfter(p, prior), Find(rows, key), now, at);
      later := prior;
      if k == key {
        later := prior + [at];
        assert later[..|later| - 1] == prior;
        AlikeHit(p, RowAfter(p, prior), Find(rows, key), at);
      }
    case Sweep(cutoff, chosen) =>
      t := if cutoff > now then cutoff else now;
      later := prior;
      AlikeSwept(p, RowAfter(p, prior), Find(rows, key), Find(Swept(rows, cutoff, chosen), key), now, t);
  }

  lemma {:induction false} KeyRun(pol: string -> Policy, rows: map<string, Row>, key: string, prior: seq<int>, now: int, steps: seq<Step>)
    requires Safe(pol(key)) && Timely(now, steps)
    requires Alike(pol(key), RowAfter(pol(key), prior), Find(rows, key), now)
    ensures KeyRecords(pol, rows, key, steps) == OwnRecords(pol(key), prior, KeyHits(key, steps))
    decreases steps
  {
    hide Alike, Upsert, Report, Safe, After, RowAfter;
    if steps != [] {
      var later, t := KeyStep(pol, rows, key, prior, now, steps[0]);
      KeyRun(pol, After(pol, rows, steps[0]), key, later, t, steps[1..]);
      if steps[0].Hit? && steps[0].key == key {
        var hits := KeyHits(key, steps);
        assert hits[0] == t && hits[1..] == KeyHits(key, steps[1..]);
      } else {
        assert KeyHits(key, steps) == KeyHits(key, steps[1..]);
      }
    }
  }

  /**
   * Buckets are independent and the cleanup is transparent: in any run over the shared table, whatever
   * other buckets are hit and whatever is deleted, the hits on a bucket with a safe policy are answered
   * as its own history alone says.
   */
  lemma BucketAnswersItsHistory(pol: string -> Policy, key: string, from: int, steps: seq<Step>)
    requires Safe(pol(key)) && Timely(from, steps)
    ensures KeyRecords(pol, map[], key, steps) == OwnRecords(pol(key), [], KeyHits(key, steps))
  {
    hide Safe, KeyRecords, OwnRecords;
    KeyRun(pol, map[], key, [], from, steps);
  }

  /** How many of the records `i..j` let their hit through. */
  function Passed(records: seq<Record>, i: nat, j: nat): nat
    requires i <= j <= |records|
    decreases j - i
  {
    if i == j then 0 else Passed(records, i, j - 1) + if records[j - 1].isBlocked then 0 else 1
  }

  lemma {:induction false} OwnRecordAt(p: Policy, prior: seq<int>, hits: seq<int>, k: nat)
    requires k < |hits|
    ensures OwnRecords(p, prior, hits)[k] == RecordAt(p, prior + hits, |prior| + k)
    decreases hits
  {
    hide RowAfter, Report;
    var all := prior + hits;
    if k == 0 {
      assert all[..|prior| + 1] == prior + [hits[0]];
    } else {
      OwnRecordAt(p, prior + [hits[0]], hits[1..], k - 1);
      assert prior + [hits[0]] + hits[1..] == all;
    }
  }

  lemma {:induction false} PassedIsAdmitted(p: Policy, hits: seq<int>, i: nat, j: nat)
    requires i <= j <= |hits|
    ensures Passed(OwnRecords(p, [], hits), i, j) == Admitted(p, hits, i, j)
    decreases j - i
  {
    hide OwnRecords, RecordAt;
    if i < j {
      PassedIsAdmitted(p, hits, i, j - 1);
      OwnRecordAt(p, [], hits, j - 1);
      assert [] + hits == hits;
    }
  }

  lemma {:induction false} KeyHitsInOrder(key: string, from: int, steps: seq<Step>)
    requires Timely(from, steps)
    ensures NonDecreasing(KeyHits(key, steps))
    ensures forall k :: 0 <= k < |KeyHits(key, steps)| ==> from <= KeyHits(key, steps)[k]
    decreases steps
  {
    if steps != [] {
      var t := match steps[0] case Hit(_, now) => now case Sweep(cutoff, _) => if cutoff > from then cutoff else from;
      KeyHitsInOrder(key, t, steps[1..]);
    }
  }

  /**
   * The limiter as deployed keeps its promise: under a policy whose block does not outlast its window,
   * in any run with other buckets and deletions interleaved, at most `limit` hits on a bucket pass in
   * any stretch of time shorter than the block.
   */
  lemma LimiterBoundsRate(pol: string -> Policy, key: string, from: int, steps: seq<Step>, i: nat, j: nat)
    requires Sane(pol(key)) && pol(key).blockDuration <= pol(key).ttl && Timely(from, steps)
    requires var hits := KeyHits(key, steps);
             i < j <= |hits| && hits[j - 1] - hits[i] < pol(key).blockDuration
    ensures var records := KeyRecords(pol, map[], key, steps);
            |records| == |KeyHits(key, steps)| && Passed(records, i, j) <= pol(key).limit
  {
    hide KeyHits, KeyRecords, OwnRecords, Passed, Admitted, NonDecreasing;
    var hits := KeyHits(key, steps);
    BucketAnswersItsHistory(pol, key, from, steps);
    KeyHitsInOrder(key, from, steps);
    PassedIsAdmitted(pol(key), hits, i, j);
    RateBound(pol(key), hits, i, j);
  }
}
