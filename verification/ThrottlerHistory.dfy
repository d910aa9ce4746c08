/**
 * What the stored counter of one bucket means: it summarises the whole history of hits, it blocks
 * exactly, and it bounds the rate (apps/api/src/auth/shared-throttler-storage.ts:39-91).
 */
module ThrottlerHistory {
  import opened Options
  import opened Throttler

  /** A policy that limits something: the parameters the guard is configured with. */
  predicate Sane(p: Policy) { p.ttl > 0 && p.limit >= 1 && p.blockDuration > 0 }

  /** The row after a history of hits on one bucket, starting from no row. */
  function RowAfter(p: Policy, hits: seq<int>): Option<Row>
  {
    if hits == [] then None
    else Some(Upsert(RowAfter(p, hits[..|hits| - 1]), p, hits[|hits| - 1]))
  }

  /** The answer to the k-th hit of a history. */
  function RecordAt(p: Policy, hits: seq<int>, k: nat): Record
    requires k < |hits|
  {
    Report(RowAfter(p, hits[..k + 1]).value, hits[k])
  }

  // ----- The scan of the whole history -----

  /** A run of counted hits, then the hits refused while the block it ran into lasted. */
  datatype Episode = Episode(counted: seq<int>, refused: seq<int>)

  function Last(s: seq<int>): int
    requires s != []
  {
    s[|s| - 1]
  }

  /** The run is full: its last hit went over the limit. */
  predicate Full(p: Policy, e: Episode) { |e.counted| == p.limit + 1 }

  /** Counted hits follow one another within `ttl`; hits are refused only behind a full run, while it blocks. */
  ghost predicate ValidEpisode(p: Policy, e: Episode)
  {
    && 1 <= |e.counted| <= p.limit + 1
    && (forall i :: 0 < i < |e.counted| ==> e.counted[i] - e.counted[i - 1] < p.ttl)
    && (e.refused != [] ==> Full(p, e))
    && (forall i :: 0 <= i < |e.refused| ==> e.refused[i] < Last(e.counted) + p.blockDuration)
  }

  /** When the next hit starts a new run: at the end of the block of a full run, else after a gap of `ttl`. */
  function Until(p: Policy, e: Episode): int
    requires e.counted != []
  {
    Last(e.counted) + if Full(p, e) then p.blockDuration else p.ttl
  }

  ghost predicate ValidEpisodes(p: Policy, es: seq<Episode>)
  {
    && (forall i :: 0 <= i < |es| ==> ValidEpisode(p, es[i]))
    && (forall i :: 0 < i < |es| ==> Until(p, es[i - 1]) <= es[i].counted[0])
  }

  /** The hits of the episodes, in order. */
  function Times(es: seq<Episode>): seq<int>
  {
    if es == [] then [] else Times(es[..|es| - 1]) + es[|es| - 1].counted + es[|es| - 1].refused
  }

  /** The row an episode leaves: its count, the window behind its last counted hit, its block. */
  function Summary(p: Policy, e: Episode): Row
    requires e.counted != []
  {
    Row(|e.counted|, Last(e.counted) + p.ttl, if Full(p, e) then Some(Last(e.counted) + p.blockDuration) else None)
  }

  predicate Started(es: seq<Episode>) { forall i :: 0 <= i < |es| ==> es[i].counted != [] }

  /** The last episode with one more hit, unless that hit starts a new one. */
  function Grown(p: Policy, e: Episode, now: int): Episode
  {
    if Full(p, e) then Episode(e.counted, e.refused + [now]) else Episode(e.counted + [now], e.refused)
  }

  /** The episodes with one more hit. */
  function Scan(p: Policy, es: seq<Episode>, now: int): (r: seq<Episode>)
    requires Started(es)
    ensures r != [] && Started(r)
  {
    var n := |es| - 1;
    if es == [] || Until(p, es[n]) <= now then es + [Episode([now], [])]
    else es[..n] + [Grown(p, es[n], now)]
  }

  /** The from-scratch scan of a history into episodes. */
  function Episodes(p: Policy, hits: seq<int>): (es: seq<Episode>)
    ensures Started(es)
    ensures hits != [] ==> es != []
  {
    if hits == [] then [] else Scan(p, Episodes(p, hits[..|hits| - 1]), hits[|hits| - 1])
  }

  lemma GrownValid(p: Policy, e: Episode, now: int)
    requires Sane(p) && ValidEpisode(p, e) && now < Until(p, e)
    ensures ValidEpisode(p, Grown(p, e, now)) && Grown(p, e, now).counted[0] == e.counted[0]
  {
    var g := Grown(p, e, now);
    forall i | 0 < i < |g.counted| ensures g.counted[i] - g.counted[i - 1] < p.ttl {
      if i < |e.counted| { assert g.counted[i] == e.counted[i]; }
    }
  }

  lemma ScanValid(p: Policy, es: seq<Episode>, now: int)
    requires Sane(p) && Started(es) && ValidEpisodes(p, es)
    ensures ValidEpisodes(p, Scan(p, es, now))
  {
    hide ValidEpisode, Until, Grown;
    if es != [] && Until(p, es[|es| - 1]) > now {
      GrownValid(p, es[|es| - 1], now);
    } else {
      FreshValid(p, now);
    }
  }

  lemma FreshValid(p: Policy, now: int)
    requires Sane(p)
    ensures ValidEpisode(p, Episode([now], []))
  {
  }

  /** The hits of an episode. */
  function Hits(e: Episode): seq<int> { e.counted + e.refused }

  lemma TimesStep(es: seq<Episode>, e: Episode)
    ensures Times(es + [e]) == Times(es) + Hits(e)
  {
    assert (es + [e])[..|es|] == es;
    assert Times(es) + e.counted + e.refused == Times(es) + (e.counted + e.refused);
  }

  lemma GrownHits(p: Policy, e: Episode, now: int)
    requires Full(p, e) || e.refused == []
    ensures Hits(Grown(p, e, now)) == Hits(e) + [now]
  {
  }

  /** Only a full last episode refuses hits. */
  predicate ScanReady(p: Policy, es: seq<Episode>) { es != [] && !Full(p, es[|es| - 1]) ==> es[|es| - 1].refused == [] }

  lemma ValidIsReady(p: Policy, es: seq<Episode>)
    requires ValidEpisodes(p, es)
    ensures ScanReady(p, es)
  {
  }

  lemma ScanTimes(p: Policy, es: seq<Episode>, now: int)
    requires Started(es) && ScanReady(p, es)
    ensures Times(Scan(p, es, now)) == Times(es) + [now]
  {
    hide Until, Times, Hits, Grown, Full;
    var n := |es| - 1;
    if es == [] || Until(p, es[n]) <= now {
      TimesStep(es, Episode([now], []));
      assert Hits(Episode([now], [])) == [now] by { FreshHits(now); }
    } else {
      TimesStep(es[..n], es[n]);
      assert es == es[..n] + [es[n]];
      TimesStep(es[..n], Grown(p, es[n], now));
      GrownHits(p, es[n], now);
      assert Times(es[..n]) + (Hits(es[n]) + [now]) == Times(es[..n]) + Hits(es[n]) + [now];
    }
  }

  lemma FreshHits(now: int)
    ensures Hits(Episode([now], [])) == [now]
  {
  }

  /** The scan cuts the history into valid episodes and loses no hit. */
  lemma {:induction false} EpisodesOfHistory(p: Policy, hits: seq<int>)
    requires Sane(p)
    ensures ValidEpisodes(p, Episodes(p, hits)) && Times(Episodes(p, hits)) == hits
  {
    hide ValidEpisodes, Scan, Times, ScanReady;
    if hits == [] {
      NoTimes();
      assert ValidEpisodes(p, []) by { NoEpisodes(p); }
    } else {
      var n := |hits| - 1;
      EpisodesOfHistory(p, hits[..n]);
      ScanValid(p, Episodes(p, hits[..n]), hits[n]);
      ValidIsReady(p, Episodes(p, hits[..n]));
      ScanTimes(p, Episodes(p, hits[..n]), hits[n]);
      assert hits[..n] + [hits[n]] == hits;
    }
  }

  /** One increment does to the row what the scan does to the episodes. */
  lemma UpsertScans(p: Policy, es: seq<Episode>, now: int)
    requires Sane(p) && Started(es) && ValidEpisodes(p, es)
    ensures var r := Scan(p, es, now);
            var found := if es == [] then None else Some(Summary(p, es[|es| - 1]));
            Upsert(found, p, now) == Summary(p, r[|r| - 1])
  {
  }

  /** The stored row is the summary of the last episode of the whole history. */
  lemma {:induction false} CounterRefinesHistory(p: Policy, hits: seq<int>)
    requires Sane(p) && hits != []
    ensures var es := Episodes(p, hits);
            RowAfter(p, hits) == Some(Summary(p, es[|es| - 1]))
  {
    var before := hits[..|hits| - 1];
    if before != [] { CounterRefinesHistory(p, before); }
    EpisodesOfHistory(p, before);
    UpsertScans(p, Episodes(p, before), hits[|hits| - 1]);
  }

  /** The episodes without the last hit. */
  function Unscan(es: seq<Episode>): (r: seq<Episode>)
    requires es != [] && Started(es)
    ensures Started(r)
  {
    var n := |es| - 1;
    var e := es[n];
    if e.refused != [] then es[..n] + [Episode(e.counted, e.refused[..|e.refused| - 1])]
    else if |e.counted| >= 2 then es[..n] + [Episode(e.counted[..|e.counted| - 1], [])]
    else es[..n]
  }

  function LastHit(es: seq<Episode>): int
    requires es != [] && Started(es)
  {
    var e := es[|es| - 1];
    if e.refused != [] then Last(e.refused) else Last(e.counted)
  }

  lemma ShorterValid(p: Policy, e: Episode)
    requires Sane(p) && ValidEpisode(p, e)
    ensures var m, k := |e.refused| - 1, |e.counted| - 1;
            && (e.refused != [] ==>
                  var s := Episode(e.counted, e.refused[..m]);
                  ValidEpisode(p, s) && e.refused[m] < Until(p, s) && Grown(p, s, e.refused[m]) == e)
            && (e.refused == [] && k >= 1 ==>
                  var s := Episode(e.counted[..k], []);
                  ValidEpisode(p, s) && e.counted[k] < Until(p, s) && Grown(p, s, e.counted[k]) == e)
            && (e.refused == [] && k == 0 ==> e == Episode([e.counted[0]], []))
  {
  }

  /** Taking the last hit away and scanning it again is no change. */
  lemma ScanUnscan(p: Policy, es: seq<Episode>)
    requires Sane(p) && Started(es) && ValidEpisodes(p, es) && es != []
    ensures ValidEpisodes(p, Unscan(es)) && Scan(p, Unscan(es), LastHit(es)) == es
  {
    hide ValidEpisode, Until, Grown, Scan, ValidEpisodes;
    var n := |es| - 1;
    var e, front := es[n], es[..n];
    assert es == front + [e];
    FrontValid(p, front, e);
    ShorterValid(p, e);
    if e.refused != [] {
      var s := Episode(e.counted, e.refused[..|e.refused| - 1]);
      LastReplaced(p, front, e, s);
      ScanGrows(p, front, s, Last(e.refused));
    } else if |e.counted| >= 2 {
      var s := Episode(e.counted[..|e.counted| - 1], []);
      LastReplaced(p, front, e, s);
      ScanGrows(p, front, s, Last(e.counted));
    } else {
      ScanStarts(p, front, e);
    }
  }

  lemma FrontValid(p: Policy, front: seq<Episode>, e: Episode)
    requires Started(front + [e]) && ValidEpisodes(p, front + [e])
    ensures Started(front) && ValidEpisodes(p, front) && ValidEpisode(p, e) && e.counted != []
  {
    hide ValidEpisode, Until;
    var es := front + [e];
    assert es[|front|] == e;
    assert forall i :: 0 <= i < |front| ==> es[i] == front[i];
  }

  /** The last episode can be exchanged for another that starts with the same hit. */
  lemma LastReplaced(p: Policy, front: seq<Episode>, e: Episode, s: Episode)
    requires Started(front + [e]) && ValidEpisodes(p, front + [e])
    requires ValidEpisode(p, s) && s.counted != [] && e.counted != [] && s.counted[0] == e.counted[0]
    ensures Started(front + [s]) && ValidEpisodes(p, front + [s])
  {
    hide ValidEpisode, Until;
    var es, fs := front + [e], front + [s];
    assert es[|front|] == e;
    assert forall i :: 0 <= i < |front| ==> es[i] == fs[i];
  }

  lemma ScanGrows(p: Policy, front: seq<Episode>, s: Episode, now: int)
    requires Started(front + [s]) && s.counted != [] && now < Until(p, s)
    ensures Scan(p, front + [s], now) == front + [Grown(p, s, now)]
  {
    hide Until, Grown;
    var es := front + [s];
    assert es[..|front|] == front && es[|front|] == s;
  }

  lemma ScanStarts(p: Policy, front: seq<Episode>, e: Episode)
    requires Started(front + [e]) && ValidEpisodes(p, front + [e]) && |e.counted| == 1 && e.refused == []
    ensures Started(front) && Scan(p, front, e.counted[0]) == front + [e]
  {
    hide Until, ValidEpisode;
    var es := front + [e];
    var n := |front|;
    assert es[n] == e && forall i :: 0 <= i < n ==> es[i] == front[i];
    assert e == Episode([e.counted[0]], []);
    if front != [] { assert Until(p, es[n - 1]) <= es[n].counted[0]; }
  }

  lemma UnscanTimes(p: Policy, es: seq<Episode>)
    requires Sane(p) && Started(es) && ValidEpisodes(p, es) && es != []
    ensures Times(Unscan(es)) + [LastHit(es)] == Times(es)
  {
    hide Until, Grown, Times, ValidEpisodes, Scan, Unscan;
    ScanUnscan(p, es);
    ValidIsReady(p, Unscan(es));
    ScanTimes(p, Unscan(es), LastHit(es));
  }

  /** A history has one cut into valid episodes: the scan's. */
  lemma {:induction false} EpisodesUnique(p: Policy, es: seq<Episode>)
    requires Sane(p) && Started(es) && ValidEpisodes(p, es)
    ensures Episodes(p, Times(es)) == es
    decreases |Times(es)|
  {
    hide ValidEpisodes, Unscan, Scan, Times;
    if es == [] {
      assert Times([]) == [] by { NoTimes(); }
    } else {
      ScanUnscan(p, es);
      UnscanTimes(p, es);
      EpisodesUnique(p, Unscan(es));
      var hits := Times(es);
      assert hits[..|hits| - 1] == Times(Unscan(es)) && hits[|hits| - 1] == LastHit(es);
    }
  }

  lemma NoEpisodes(p: Policy)
    ensures ValidEpisodes(p, [])
  {
  }

  lemma NoTimes()
    ensures Times([]) == []
  {
  }

  /**
   * The counter means what the history says, under any reading of it: however a history is cut into
   * valid episodes, the stored row is the summary of the last one.
   */
  lemma CounterMeansHistory(p: Policy, hits: seq<int>, es: seq<Episode>)
    requires Sane(p) && hits != []
    requires Started(es) && ValidEpisodes(p, es) && Times(es) == hits
    ensures es != [] && RowAfter(p, hits) == Some(Summary(p, es[|es| - 1]))
  {
    hide ValidEpisodes, Times, Summary;
    if es == [] { NoTimes(); }
    EpisodesUnique(p, es);
    CounterRefinesHistory(p, hits);
  }

  // ----- Blocking -----

  /** Every stored row counts at most one hit over the limit, and is blocking or blocked exactly then. */
  lemma {:induction false} RowShape(p: Policy, hits: seq<int>)
    requires Sane(p) && hits != []
    ensures RowAfter(p, hits).Some?
    ensures var row := RowAfter(p, hits).value;
            && 1 <= row.hits <= p.limit + 1
            && (row.block.Some? <==> row.hits == p.limit + 1)
            && (row.block.Some? ==> row.block.value - p.blockDuration == row.window - p.ttl)
  {
    var before := hits[..|hits| - 1];
    if before != [] { RowShape(p, before); }
  }

  /**
   * Blocking is exact and cannot be extended: a hit is refused iff the count it reports is one over
   * the limit, a hit during a block changes nothing stored, and the first hit at or after the end of
   * the block is counted as 1 and let through.
   */
  lemma BlockingIsExact(p: Policy, hits: seq<int>, now: int)
    requires Sane(p)
    ensures var before := RowAfter(p, hits);
            var after := RowAfter(p, hits + [now]).value;
            var record := Report(after, now);
            && record.totalHits <= p.limit + 1
            && (record.isBlocked <==> record.totalHits == p.limit + 1)
            && (before.Some? && ActiveBlock(before.value, now) ==> after == before.value && record.isBlocked)
            && (before.Some? && before.value.block.Some? && before.value.block.value <= now ==>
                  record.totalHits == 1 && !record.isBlocked)
  {
    hide Seconds;
    var longer := hits + [now];
    assert longer[..|longer| - 1] == hits;
    RowShape(p, longer);
    if hits != [] { RowShape(p, hits); }
  }

  // ----- What the caller is told to wait -----

  /**
   * The times of an answer are in whole seconds, rounded up: the least number of seconds behind which
   * the window has passed or the block has ended, and 0 for what lies in the past.
   */
  lemma TimesAreExact(row: Row, now: int)
    ensures var t := Report(row, now).timeToExpire;
            t >= 0 && row.window <= now + 1000 * t && (t > 0 ==> now + 1000 * (t - 1) < row.window)
    ensures var t := Report(row, now).timeToBlockExpire;
            t >= 0 && (row.block.None? ==> t == 0)
            && (row.block.Some? ==> row.block.value <= now + 1000 * t && (t > 0 ==> now + 1000 * (t - 1) < row.block.value))
  {
  }

  /** A hit later on, as the only one behind the hits so far. */
  function NextRecord(p: Policy, hits: seq<int>, later: int): Record { RecordAt(p, hits + [later], |hits|) }

  /**
   * A refused client is told exactly how long to wait: at any time up to a second before, a hit is still
   * refused, and after the seconds told it is counted as 1 and let through.
   */
  lemma RetryAfterIsExact(p: Policy, hits: seq<int>, now: int, later: int)
    requires Sane(p) && NextRecord(p, hits, now).isBlocked
    ensures var t := NextRecord(p, hits, now).timeToBlockExpire;
            && t >= 1
            && (later <= now + 1000 * (t - 1) ==> NextRecord(p, hits + [now], later).isBlocked)
            && (later >= now + 1000 * t ==>
                  !NextRecord(p, hits + [now], later).isBlocked && NextRecord(p, hits + [now], later).totalHits == 1)
  {
    hide Seconds, RowAfter;
    var h := hits + [now];
    assert h[..|hits| + 1] == h;
    assert (h + [later])[..|h| + 1] == h + [later] && (h + [later])[..|h|] == h;
    RowShape(p, h);
    TimesAreExact(RowAfter(p, h).value, now);
    BlockingIsExact(p, hits, now);
    BlockingIsExact(p, h, later);
  }

  /** An answer that does not refuse names no time to wait. */
  lemma FreeNeedsNoWait(p: Policy, hits: seq<int>, now: int)
    requires Sane(p)
    ensures NextRecord(p, hits, now).isBlocked <==> NextRecord(p, hits, now).timeToBlockExpire > 0
  {
    hide RowAfter;
    var h := hits + [now];
    assert h[..|hits| + 1] == h;
    RowShape(p, h);
    BlockingIsExact(p, hits, now);
  }

  // ----- The rate -----

  predicate NonDecreasing(hits: seq<int>) { forall i, j :: 0 <= i < j < |hits| ==> hits[i] <= hits[j] }

  /** How many of the hits `i..j` were let through. */
  function Admitted(p: Policy, hits: seq<int>, i: nat, j: nat): nat
    requires i <= j <= |hits|
    decreases j - i
  {
    if i == j then 0
    else Admitted(p, hits, i, j - 1) + if RecordAt(p, hits, j - 1).isBlocked then 0 else 1
  }

  lemma RowStep(p: Policy, hits: seq<int>, j: nat)
    requires j < |hits|
    ensures RowAfter(p, hits[..j + 1]) == Some(Upsert(RowAfter(p, hits[..j]), p, hits[j]))
  {
    assert hits[..j + 1][..j] == hits[..j];
  }

  /** Within a stretch shorter than window and block, the admitted hits are all in the current run. */
  lemma {:induction false} AdmittedInRun(p: Policy, hits: seq<int>, i: nat, j: nat)
    requires Sane(p) && NonDecreasing(hits) && i < j <= |hits|
    requires hits[j - 1] - hits[i] < p.ttl && hits[j - 1] - hits[i] < p.blockDuration
    ensures var row := RowAfter(p, hits[..j]).value;
            var n := Admitted(p, hits, i, j);
            n > 0 ==> n <= row.hits && n <= p.limit && row.window - p.ttl >= hits[i]
    decreases j
  {
    hide RowAfter;
    RowStep(p, hits, j - 1);
    RowShape(p, hits[..j]);
    if i == j - 1 {
      assert Admitted(p, hits, i, i) == 0;
      if j > 1 { RowShape(p, hits[..j - 1]); }
    } else {
      AdmittedInRun(p, hits, i, j - 1);
      RowShape(p, hits[..j - 1]);
      var before, after, now := RowAfter(p, hits[..j - 1]).value, RowAfter(p, hits[..j]).value, hits[j - 1];
      var n := Admitted(p, hits, i, j - 1);
      if n > 0 {
        assert before.window > now && (before.block.Some? ==> before.block.value > now);
        assert after == before || after.hits == before.hits + 1;
      }
      assert RecordAt(p, hits, j - 1) == Report(after, now);
    }
  }

  /**
   * The promise of the limiter: in any stretch of time shorter than both the window and the block, at
   * most `limit` hits on a bucket are let through.
   */
  lemma RateBound(p: Policy, hits: seq<int>, i: nat, j: nat)
    requires Sane(p) && NonDecreasing(hits) && i < j <= |hits|
    requires hits[j - 1] - hits[i] < p.ttl && hits[j - 1] - hits[i] < p.blockDuration
    ensures Admitted(p, hits, i, j) <= p.limit
  {
    AdmittedInRun(p, hits, i, j);
  }
}
