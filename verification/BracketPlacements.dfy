/**
 * Where the sides of a played game came from, and the placement games of a zone
 * (apps/api/src/controllers/bracket-placements.ts).
 */
module BracketPlacements {
  import opened Options
  import opened JsNumber

  datatype Match = Match(matchId: string, fixtureId: string, round: int, role: Option<string>, position: nat,
                         home: Option<string>, away: Option<string>, scores: Option<seq<Option<int>>>)

  datatype Outcome = Winner | Loser

  datatype Source = Source(matchId: string, outcome: Outcome)

  const MAX_SAFE_INTEGER: nat := 9007199254740991

  // ----- Positions within a round -----

  /** The placement games of a zone, or the games of the generated graph. */
  function Kept(records: seq<Match>, placement: bool): seq<Match>
  {
    if records == [] then []
    else (if records[0].role.Some? == placement then [records[0]] else []) + Kept(records[1..], placement)
  }

  /** How many of the first `k` records are in a round. */
  function InRound(records: seq<Match>, k: nat, round: int): nat
    requires k <= |records|
  {
    if k == 0 then 0 else InRound(records, k - 1, round) + if records[k - 1].round == round then 1 else 0
  }

  /** The 1-based position of a record within its round, in fixture order. */
  function Rank(records: seq<Match>, k: nat): nat
    requires k < |records|
  {
    InRound(records, k, records[k].round) + 1
  }

  function Renumbered(records: seq<Match>): (r: seq<Match>)
    ensures |r| == |records|
    ensures forall k :: 0 <= k < |records| ==> r[k] == records[k].(position := Rank(records, k))
  {
    seq(|records|, k requires 0 <= k < |records| => records[k].(position := Rank(records, k)))
  }

  /** The positions map of the traversal: the count so far of each round that has occurred. */
  ghost predicate Counts(positions: map<int, nat>, records: seq<Match>, k: nat)
    requires k <= |records|
  {
    forall round :: (if round in positions then positions[round] else 0) == InRound(records, k, round)
  }

  lemma NothingCounted(records: seq<Match>)
    ensures Counts(map[], records, 0)
  {
  }

  lemma OneMoreCounted(positions: map<int, nat>, records: seq<Match>, k: nat)
    requires k < |records| && Counts(positions, records, k)
    ensures var round := records[k].round;
            var position := (if round in positions then positions[round] else 0) + 1;
            position == Rank(records, k) && Counts(positions[round := position], records, k + 1)
  {
  }

  /** The fixtures that fill the generated graph, renumbered by position within their round. */
  method GraphRecordsOf(records: seq<Match>) returns (graph: seq<Match>)
    ensures graph == Renumbered(Kept(records, false))
  {
    hide Kept, Renumbered, Counts, Rank;
    var kept := Kept(records, false);
    var positions: map<int, nat> := map[];
    graph := [];
    NothingCounted(kept);
    for k := 0 to |kept|
      invariant Counts(positions, kept, k)
      invariant |graph| == k
      invariant forall i :: 0 <= i < k ==> graph[i] == kept[i].(position := Rank(kept, i))
    {
      var record := kept[k];
      var position := (if record.round in positions then positions[record.round] else 0) + 1;
      OneMoreCounted(positions, kept, k);
      positions := positions[record.round := position];
      graph := graph + [record.(position := position)];
    }
  }

  // ----- Sources -----

  predicate Plays(m: Match, entrant: Option<string>) { m.home == entrant || m.away == entrant }

  /** The first of the games an entrant played before a round that is in the latest of those rounds. */
  function LatestBefore(records: seq<Match>, entrant: Option<string>, round: int): (r: Option<Match>)
    ensures r.Some? ==> r.value in records && r.value.round < round && Plays(r.value, entrant)
    ensures forall m :: m in records && m.round < round && Plays(m, entrant) ==> r.Some? && m.round <= r.value.round
  {
    if records == [] then None
    else
      var later := LatestBefore(records[1..], entrant, round);
      var m := records[0];
      if m.round < round && Plays(m, entrant) && (later.None? || later.value.round <= m.round) then Some(m) else later
  }

  /** The first of the games an entrant plays after a round that is in the earliest of those rounds. */
  function NextGameOf(records: seq<Match>, entrant: Option<string>, round: int): (r: Option<Match>)
    ensures r.Some? ==> r.value in records && r.value.round > round && Plays(r.value, entrant)
    ensures forall m :: m in records && m.round > round && Plays(m, entrant) ==> r.Some? && r.value.round <= m.round
  {
    if records == [] then None
    else
      var later := NextGameOf(records[1..], entrant, round);
      var m := records[0];
      if m.round > round && Plays(m, entrant) && (later.None? || m.round <= later.value.round) then Some(m) else later
  }

  function DigitPrefix(s: string): string
  {
    if s != "" && IsDigit(s[0]) then [s[0]] + DigitPrefix(s[1..]) else ""
  }

  /** The place a role names, by `/^places?-(\d+)/`. */
  function PlaceOf(role: string): Option<nat>
  {
    if "place-" <= role then Digits(DigitPrefix(role[6..]))
    else if "places-" <= role then Digits(DigitPrefix(role[7..]))
    else None
  }

  /** How far a game is from the title, lowest first. */
  function StakesOf(role: Option<string>): nat
  {
    match role
    case None => 0
    case Some(r) => match PlaceOf(r) case None => MAX_SAFE_INTEGER case Some(place) => place
  }

  function Score(m: Match, side: nat): Option<int>
  {
    if m.scores.Some? && side < |m.scores.value| then m.scores.value[side] else None
  }

  /** How an entrant came out of an earlier game, seen from a later game it played. */
  function OutcomeIn(earlier: Match, entrant: Option<string>, record: Match, records: seq<Match>): Option<Outcome>
  {
    var isHome := earlier.home == entrant;
    var own, other := Score(earlier, if isHome then 0 else 1), Score(earlier, if isHome then 1 else 0);
    if own.Some? && other.Some? && own != other then Some(if own.value > other.value then Winner else Loser)
    else
      var opponent := if isHome then earlier.away else earlier.home;
      var next := NextGameOf(records, opponent, earlier.round);
      var mine := StakesOf(record.role);
      var theirs := StakesOf(if next.Some? then next.value.role else Some("eliminated"));
      if mine == theirs then None else Some(if mine < theirs then Winner else Loser)
  }

  /** The precedence of one side of a game. */
  function SourceOf(entrant: Option<string>, record: Match, records: seq<Match>, idOf: Match -> Option<string>): Option<Source>
  {
    if entrant.None? then None
    else
      var earlier := LatestBefore(records, entrant, record.round);
      if earlier.None? || idOf(earlier.value).None? then None
      else
        match OutcomeIn(earlier.value, entrant, record, records)
        case None => None
        case Some(outcome) => Some(Source(idOf(earlier.value).value, outcome))
  }

  function RecordedSources(record: Match, records: seq<Match>, idOf: Match -> Option<string>): seq<Option<Source>>
  {
    [SourceOf(record.home, record, records, idOf), SourceOf(record.away, record, records, idOf)]
  }

  /** A side of the game, as an entrant: unset sides play nobody. */
  predicate Side(m: Match, entrant: Option<string>) { entrant.Some? && Plays(m, entrant) }

  /** The game an entrant of a later game came from. */
  function SourceGame(records: seq<Match>, entrant: Option<string>, record: Match): Option<Match>
  {
    LatestBefore(records, entrant, record.round)
  }

  /** The edge into one side of a game. */
  ghost predicate Edge(records: seq<Match>, earlier: Match, outcome: Outcome, record: Match, entrant: Option<string>)
  {
    && record in records && Side(record, entrant)
    && SourceGame(records, entrant, record) == Some(earlier)
    && OutcomeIn(earlier, entrant, record, records) == Some(outcome)
  }

  /** The source of one side names the game the entrant came from, as it is drawn, and how it came out of it. */
  ghost predicate SideFrom(source: Option<Source>, entrant: Option<string>, record: Match, records: seq<Match>, idOf: Match -> Option<string>)
  {
    forall id, o :: source == Some(Source(id, o)) <==> exists e :: Edge(records, e, o, record, entrant) && idOf(e) == Some(id)
  }

  /** Two sources, that of the home side first. */
  ghost predicate SidesFrom(sources: seq<Option<Source>>, record: Match, records: seq<Match>, idOf: Match -> Option<string>)
  {
    |sources| == 2 && SideFrom(sources[0], record.home, record, records, idOf) && SideFrom(sources[1], record.away, record, records, idOf)
  }

  lemma SourceIsEdge(entrant: Option<string>, record: Match, records: seq<Match>, idOf: Match -> Option<string>)
    requires record in records && (record.home == entrant || record.away == entrant)
    ensures SideFrom(SourceOf(entrant, record, records, idOf), entrant, record, records, idOf)
  {
    hide LatestBefore, OutcomeIn;
    var source := SourceOf(entrant, record, records, idOf);
    forall id, o ensures source == Some(Source(id, o)) <==> exists e :: Edge(records, e, o, record, entrant) && idOf(e) == Some(id) {
      if source == Some(Source(id, o)) {
        var e := LatestBefore(records, entrant, record.round).value;
        assert Edge(records, e, o, record, entrant) && idOf(e) == Some(id);
      }
    }
  }

  /** The sources are parallel to the sides, also for a copy of the record that is only numbered differently. */
  lemma SourcesAreEdges(record: Match, position: nat, records: seq<Match>, idOf: Match -> Option<string>)
    requires record in records
    ensures SidesFrom(RecordedSources(record.(position := position), records, idOf), record, records, idOf)
  {
    hide SourceOf, SideFrom;
    SourceIsEdge(record.home, record, records, idOf);
    SourceIsEdge(record.away, record, records, idOf);
    PositionIsIrrelevant(record.home, record, position, records, idOf);
    PositionIsIrrelevant(record.away, record, position, records, idOf);
  }

  lemma PositionIsIrrelevant(entrant: Option<string>, record: Match, position: nat, records: seq<Match>, idOf: Match -> Option<string>)
    ensures SourceOf(entrant, record.(position := position), records, idOf) == SourceOf(entrant, record, records, idOf)
  {
    hide LatestBefore, NextGameOf, StakesOf;
  }

  // ----- Placement games -----

  datatype PlacementNode = PlacementNode(matchId: string, role: string, round: int, position: nat, record: Match,
                                         sources: seq<Option<Source>>)

  function PlacementId(round: int, position: nat): string { "PL-R" + ShowInt(round) + "-M" + ShowNat(position) }

  /** The last placement game of a fixture, as the map from fixtures to placement ids has it. */
  function PlacementIdOf(placed: seq<Match>, k: nat, fixtureId: string): Option<string>
    requires k <= |placed|
  {
    if k == 0 then None
    else if placed[k - 1].fixtureId == fixtureId then Some(PlacementId(placed[k - 1].round, Rank(placed, k - 1)))
    else PlacementIdOf(placed, k - 1, fixtureId)
  }

  /** The node id of any game: its placement id, else the graph match it was placed on. */
  function AnyIdOf(placed: seq<Match>, graphIdOf: Match -> Option<string>): Match -> Option<string>
  {
    (m: Match) =>
      var id := PlacementIdOf(placed, |placed|, m.fixtureId);
      if id.Some? then id else graphIdOf(m)
  }

  function NodeOf(placed: seq<Match>, k: nat, records: seq<Match>, graphIdOf: Match -> Option<string>): PlacementNode
    requires k < |placed| && placed[k].role.Some?
  {
    var record := placed[k];
    PlacementNode(PlacementId(record.round, Rank(placed, k)), record.role.value, record.round, Rank(placed, k), record,
                  RecordedSources(record, records, AnyIdOf(placed, graphIdOf)))
  }

  lemma {:induction false} KeptHasRole(records: seq<Match>, placement: bool)
    ensures forall m :: m in Kept(records, placement) ==> m in records && m.role.Some? == placement
    ensures forall m :: m in records && m.role.Some? == placement ==> m in Kept(records, placement)
  {
    if records != [] { KeptHasRole(records[1..], placement); }
  }

  /** The map from fixtures to placement ids; a fixture that occurs twice keeps its last id. */
  method PlacementIds(placed: seq<Match>) returns (ids: map<string, string>)
    ensures forall f :: PlacementIdOf(placed, |placed|, f) == if f in ids then Some(ids[f]) else None
  {
    hide PlacementId;
    var positions: map<int, nat> := map[];
    ids := map[];
    for k := 0 to |placed|
      invariant Counts(positions, placed, k)
      invariant forall f :: PlacementIdOf(placed, k, f) == if f in ids then Some(ids[f]) else None
    {
      var record := placed[k];
      var position := (if record.round in positions then positions[record.round] else 0) + 1;
      positions := positions[record.round := position];
      ids := ids[record.fixtureId := PlacementId(record.round, position)];
    }
  }

  /** The placement games of a zone, each with the match its sides came from. */
  method PlacementNodesOf(records: seq<Match>, graphIdOf: Match -> Option<string>) returns (nodes: seq<PlacementNode>)
    ensures var placed := Kept(records, true);
            && |nodes| == |placed|
            && forall k :: 0 <= k < |placed| ==> placed[k].role.Some? && nodes[k] == NodeOf(placed, k, records, graphIdOf)
    ensures var placed := Kept(records, true);
            forall k :: 0 <= k < |placed| ==>
              nodes[k].record == placed[k] && SidesFrom(nodes[k].sources, placed[k], records, AnyIdOf(placed, graphIdOf))
  {
    hide SourceOf, PlacementId, PlacementIdOf, Kept, SidesFrom;
    var placed := Kept(records, true);
    KeptHasRole(records, true);
    var placementIds := PlacementIds(placed);
    var idOf := (m: Match) => if m.fixtureId in placementIds then Some(placementIds[m.fixtureId]) else graphIdOf(m);
    var anyIdOf := AnyIdOf(placed, graphIdOf);
    forall m: Match ensures idOf(m) == anyIdOf(m) {
      assert PlacementIdOf(placed, |placed|, m.fixtureId)
             == if m.fixtureId in placementIds then Some(placementIds[m.fixtureId]) else None;
    }
    var positions: map<int, nat> := map[];
    nodes := [];
    for k := 0 to |placed|
      invariant Counts(positions, placed, k)
      invariant |nodes| == k
      invariant forall i :: 0 <= i < k ==> nodes[i] == NodeOf(placed, i, records, graphIdOf)
    {
      var record := placed[k];
      assert record in placed;
      var position := (if record.round in positions then positions[record.round] else 0) + 1;
      positions := positions[record.round := position];
      SameSources(record, records, idOf, anyIdOf);
      nodes := nodes + [PlacementNode(PlacementId(record.round, position), record.role.value, record.round, position, record,
                                      RecordedSources(record, records, idOf))];
    }
    forall k | 0 <= k < |placed| ensures SidesFrom(nodes[k].sources, placed[k], records, anyIdOf) {
      assert placed[k] in placed;
      SourcesAreEdges(placed[k], placed[k].position, records, anyIdOf);
      assert placed[k].(position := placed[k].position) == placed[k];
    }
  }

  lemma SameSources(record: Match, records: seq<Match>, a: Match -> Option<string>, b: Match -> Option<string>)
    requires forall m :: a(m) == b(m)
    ensures RecordedSources(record, records, a) == RecordedSources(record, records, b)
  {
    hide OutcomeIn, LatestBefore;
  }
}
