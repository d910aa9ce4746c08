/**
 * What the edges and the nodes of a bracket mean on the recorded games themselves
 * (apps/api/src/controllers/bracket-placements.ts).
 */
module BracketMeaning {
  import opened Options
  import opened JsNumber
  import opened BracketPlacements
  import opened BracketLinks

  // ----- Games on the record -----

  /** The entrant is one of the two sides; an unset entrant is an unset side. */
  predicate InGame(m: Match, x: Option<string>) { x == m.home || x == m.away }

  /** `e` is the last game of `x` before the round of `record`. */
  predicate Before(records: seq<Match>, e: Match, x: Option<string>, record: Match)
  {
    e in records && InGame(e, x) && e.round < record.round
    && forall m :: m in records && InGame(m, x) ==> m.round <= e.round || m.round >= record.round
  }

  /** `n` is the next game of `x` behind a round. */
  predicate Behind(records: seq<Match>, n: Match, x: Option<string>, round: int)
  {
    n in records && InGame(n, x) && n.round > round
    && forall m :: m in records && InGame(m, x) ==> m.round <= round || m.round >= n.round
  }

  /** The score tells a winner: both numbers are there and differ. */
  predicate Told(e: Match)
  {
    e.scores.Some? && |e.scores.value| >= 2 && e.scores.value[0].Some? && e.scores.value[1].Some?
    && e.scores.value[0] != e.scores.value[1]
  }

  /** The score has the entrant ahead. */
  predicate Ahead(e: Match, x: string)
    requires Told(e)
  {
    if e.home == Some(x) then e.scores.value[0].value > e.scores.value[1].value
    else e.scores.value[1].value > e.scores.value[0].value
  }

  lemma LatestIsBefore(records: seq<Match>, e: Match, x: Option<string>, record: Match)
    requires Zone(records) && x.Some?
    ensures LatestBefore(records, x, record.round) == Some(e) <==> Before(records, e, x, record)
  {
    hide LatestBefore;
    if Before(records, e, x, record) {
      var l := LatestBefore(records, x, record.round).value;
      assert Side(l, x) && Side(e, x) && l.round == e.round;
    }
  }

  /** Of the games in the round of the next one, the first on the record counts. */
  lemma {:induction false} NextIsFirst(records: seq<Match>, x: Option<string>, round: int) returns (i: nat)
    requires NextGameOf(records, x, round).Some?
    ensures i < |records| && NextGameOf(records, x, round) == Some(records[i]) && Behind(records, records[i], x, round)
    ensures forall j :: 0 <= j < i && InGame(records[j], x) ==> records[j].round != records[i].round
  {
    var m, later := records[0], NextGameOf(records[1..], x, round);
    if m.round > round && InGame(m, x) && (later.None? || m.round <= later.value.round) {
      i := 0;
    } else {
      var k := NextIsFirst(records[1..], x, round);
      i := k + 1;
    }
  }

  lemma NextIsBehind(records: seq<Match>, n: Match, x: Option<string>, round: int)
    ensures NextGameOf(records, x, round).None? ==> !Behind(records, n, x, round)
    ensures NextGameOf(records, x, round).Some? ==> Behind(records, NextGameOf(records, x, round).value, x, round)
  {
    hide NextGameOf;
  }

  /** The stakes behind a round are those of the entrant's next game, and as far as can be without one. */
  lemma StakesArePlayed(records: seq<Match>, n: Match, x: Option<string>, round: int)
    requires Zone(records)
    ensures x.Some? && Behind(records, n, x, round) ==> StakesBehind(records, x, round) == StakesOf(n.role)
    ensures (forall m :: !Behind(records, m, x, round)) ==> StakesBehind(records, x, round) == 9007199254740991
  {
    hide NextGameOf, StakesOf;
    EliminatedIsLast();
    NextIsBehind(records, n, x, round);
    var next := NextGameOf(records, x, round);
    if x.Some? && Behind(records, n, x, round) {
      assert next.value.round == n.round && Side(n, x) && Side(next.value, x);
    }
    if next.Some? { assert Behind(records, next.value, x, round); }
  }

  lemma {:induction false} PrefixOfDigits(digits: string, rest: string)
    requires forall c :: c in digits ==> IsDigit(c)
    requires rest == "" || !IsDigit(rest[0])
    ensures DigitPrefix(digits + rest) == digits
  {
    if digits == "" {
      assert digits + rest == rest;
    } else {
      assert digits[0] in digits && forall c :: c in digits[1..] ==> c in digits;
      PrefixOfDigits(digits[1..], rest);
      assert (digits + rest)[1..] == digits[1..] + rest;
    }
  }

  lemma {:induction false} DigitsHaveValue(d: string)
    requires d != "" && forall c :: c in d ==> IsDigit(c)
    ensures Digits(d).Some?
  {
    var n := |d| - 1;
    assert d[n] in d;
    if n > 0 {
      assert forall c :: c in d[..n] ==> c in d;
      DigitsHaveValue(d[..n]);
    }
  }

  /** A placement game is for the best place its role names. */
  lemma NamedPlace(d: string, rest: string)
    requires d != "" && (forall c :: c in d ==> IsDigit(c)) && (rest == "" || !IsDigit(rest[0]))
    ensures Digits(d).Some?
    ensures StakesOf(Some("place-" + (d + rest))) == Digits(d).value && StakesOf(Some("places-" + (d + rest))) == Digits(d).value
  {
    hide Digits;
    DigitsHaveValue(d);
    PrefixOfDigits(d, rest);
    var one, more := "place-" + (d + rest), "places-" + (d + rest);
    assert one[6..] == d + rest && more[7..] == d + rest;
    assert more[5] == 's';
  }

  /** A game without a role is for the title, and one whose role names no place for none. */
  lemma NoPlace(role: string)
    requires !("place-" <= role && |role| > 6 && IsDigit(role[6])) && !("places-" <= role && |role| > 7 && IsDigit(role[7]))
    ensures StakesOf(None) == 0 && StakesOf(Some(role)) == 9007199254740991
  {
  }

  /**
   * An edge, on the record: the game is the entrant's last before this one, and the outcome is what the
   * score tells of it, or else whether the entrant plays on closer to the title than the opponent or
   * further from it.
   */
  lemma EdgeExactly(records: seq<Match>, e: Match, o: Outcome, record: Match, x: string)
    requires Zone(records)
    ensures Edge(records, e, o, record, Some(x)) <==>
            && record in records && InGame(record, Some(x)) && Before(records, e, Some(x), record)
            && if Told(e) then o == (if Ahead(e, x) then Winner else Loser)
               else
                 var theirs := StakesBehind(records, if e.home == Some(x) then e.away else e.home, e.round);
                 if o.Winner? then StakesOf(record.role) < theirs else StakesOf(record.role) > theirs
  {
    hide LatestBefore, NextGameOf, StakesOf, Zone, Before;
    LatestIsBefore(records, e, Some(x), record);
  }

  // ----- The nodes -----

  lemma KeptCons(m: Match, rest: seq<Match>, placement: bool)
    ensures Kept([m] + rest, placement) == (if m.role.Some? == placement then [m] else []) + Kept(rest, placement)
    ensures Kept([], placement) == []
  {
    assert ([m] + rest)[1..] == rest;
  }

  lemma {:induction false} KeptLast(front: seq<Match>, m: Match, placement: bool)
    ensures Kept(front + [m], placement) == Kept(front, placement) + if m.role.Some? == placement then [m] else []
  {
    hide Kept;
    KeptCons(m, [], placement);
    if front == [] {
      assert front + [m] == [m] + [];
    } else {
      var first, rest := front[0], front[1..];
      KeptLast(rest, m, placement);
      assert front == [first] + rest && front + [m] == [first] + (rest + [m]);
      KeptCons(first, rest, placement);
      KeptCons(first, rest + [m], placement);
    }
  }

  /** The games of a zone with a role, or without: each one once and in order, and no other. */
  lemma {:induction false} KeptExactly(records: seq<Match>, placement: bool) returns (at: seq<nat>)
    ensures |at| == |Kept(records, placement)|
    ensures forall k :: 0 <= k < |at| ==>
              at[k] < |records| && Kept(records, placement)[k] == records[at[k]] && records[at[k]].role.Some? == placement
    ensures forall k, l :: 0 <= k < l < |at| ==> at[k] < at[l]
    ensures forall i :: 0 <= i < |records| && records[i].role.Some? == placement ==> i in at
  {
    hide Kept;
    if records == [] {
      KeptCons(Match("", "", 0, None, 0, None, None, None), [], placement);
      return [];
    }
    var n := |records| - 1;
    var front := records[..n];
    var before := KeptExactly(front, placement);
    assert records == front + [records[n]];
    KeptLast(front, records[n], placement);
    at := before + if records[n].role.Some? == placement then [n] else [];
    assert forall i :: 0 <= i < n ==> records[i] == front[i];
  }

  /** A game is drawn as the last placement game of its fixture, by round and position, or else where the graph has it. */
  lemma DrawnExactly(placed: seq<Match>, graphIdOf: Match -> Option<string>, m: Match) returns (k: int)
    ensures -1 <= k < |placed| && (k >= 0 ==> placed[k].fixtureId == m.fixtureId)
    ensures forall j :: k < j < |placed| ==> placed[j].fixtureId != m.fixtureId
    ensures AnyIdOf(placed, graphIdOf)(m) == if k >= 0 then Some(PlacementId(placed[k].round, Rank(placed, k))) else graphIdOf(m)
  {
    hide PlacementId, Rank, PlacementIdOf;
    k := LastOfFixture(placed, |placed|, m.fixtureId);
  }

  lemma {:induction false} LastOfFixture(placed: seq<Match>, n: nat, f: string) returns (k: int)
    requires n <= |placed|
    ensures -1 <= k < n && (k >= 0 ==> placed[k].fixtureId == f)
    ensures forall j :: k < j < n ==> placed[j].fixtureId != f
    ensures PlacementIdOf(placed, n, f) == if k >= 0 then Some(PlacementId(placed[k].round, Rank(placed, k))) else None
  {
    hide PlacementId, Rank;
    if n == 0 {
      k := -1;
    } else if placed[n - 1].fixtureId == f {
      k := n - 1;
    } else {
      k := LastOfFixture(placed, n - 1, f);
    }
  }

  /** The graph has a game at the first of its matches that is persisted as it. */
  lemma {:induction false} GraphExactly(graph: seq<GraphMatch>, m: Match) returns (i: nat)
    ensures i <= |graph| && (i < |graph| ==> graph[i].persisted == Some(m.matchId))
    ensures forall j :: 0 <= j < i ==> graph[j].persisted != Some(m.matchId)
    ensures GraphIdOf(graph, m) == if i < |graph| then Some(graph[i].matchId) else None
  {
    if graph == [] || graph[0].persisted == Some(m.matchId) {
      i := 0;
    } else {
      var k := GraphExactly(graph[1..], m);
      i := k + 1;
      assert forall j :: 0 < j < |graph| ==> graph[j] == graph[1..][j - 1];
    }
  }

  /**
   * `sourcesOf` of the bracket links: nothing for a match of the graph without a game, else the sources of
   * the first game that it is persisted as, which are parallel to the sides of that game on the record.
   */
  method SourcesOf(records: seq<Match>, graph: seq<GraphMatch>, graphRecords: seq<Match>, persisted: Option<string>)
    returns (sources: seq<Option<Source>>)
    ensures (forall i :: 0 <= i < |graphRecords| ==> Some(graphRecords[i].matchId) != persisted) ==> sources == []
    ensures forall i, record, position ::
              0 <= i < |graphRecords| && Some(graphRecords[i].matchId) == persisted
              && (forall j :: 0 <= j < i ==> Some(graphRecords[j].matchId) != persisted)
              && record in records && graphRecords[i] == record.(position := position)
              ==> SidesFrom(sources, record, records, AnyIdOf(Kept(records, true), m => GraphIdOf(graph, m)))
  {
    hide Kept, RecordedSources, SidesFrom, AnyIdOf, GraphIdOf;
    var idOf := AnyIdOf(Kept(records, true), m => GraphIdOf(graph, m));
    for i := 0 to |graphRecords|
      invariant forall j :: 0 <= j < i ==> Some(graphRecords[j].matchId) != persisted
    {
      if Some(graphRecords[i].matchId) == persisted {
        sources := RecordedSources(graphRecords[i], records, idOf);
        forall record, position | record in records && graphRecords[i] == record.(position := position)
          ensures SidesFrom(sources, record, records, idOf)
        {
          SourcesAreEdges(record, position, records, idOf);
        }
        return;
      }
    }
    return [];
  }
}
