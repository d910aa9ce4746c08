/**
 * The edges of a bracket drawn from the games as played are consistent
 * (apps/api/src/controllers/bracket-placements.ts:79-185).
 */
module BracketLinks {
  import opened Options
  import opened JsNumber
  import opened BracketPlacements

  // ----- Zones -----

  /** No two games share an id or a fixture, no game has one entrant on both sides, no entrant plays two games of a round. */
  ghost predicate Zone(records: seq<Match>)
  {
    && (forall i, j :: 0 <= i < j < |records| ==>
          records[i].matchId != records[j].matchId && records[i].fixtureId != records[j].fixtureId)
    && (forall m :: m in records && m.home.Some? ==> m.home != m.away)
    && (forall a, b, e :: a in records && b in records && Side(a, e) && Side(b, e) && a.round == b.round ==> a == b)
  }

  // ----- Next and previous games -----

  /** Going to an entrant's next game and coming back from it are inverse. */
  lemma NextIsInverse(records: seq<Match>, entrant: Option<string>, earlier: Match, record: Match)
    requires Zone(records) && earlier in records && record in records && Side(earlier, entrant) && Side(record, entrant)
    ensures SourceGame(records, entrant, record) == Some(earlier)
            <==> NextGameOf(records, entrant, earlier.round) == Some(record)
  {
    hide LatestBefore, NextGameOf;
    var before, next := LatestBefore(records, entrant, record.round), NextGameOf(records, entrant, earlier.round);
    if before == Some(earlier) {
      assert next.Some? && next.value.round <= record.round;
      assert Side(next.value, entrant);
    }
    if next == Some(record) {
      assert before.Some? && earlier.round <= before.value.round;
      assert Side(before.value, entrant);
    }
  }

  /** An entrant leaves a game by at most one edge. */
  lemma OneEdgePerEntrant(records: seq<Match>, earlier: Match, a: Match, b: Match, entrant: Option<string>)
    requires Zone(records) && earlier in records && Side(earlier, entrant)
    requires a in records && Side(a, entrant) && SourceGame(records, entrant, a) == Some(earlier)
    requires b in records && Side(b, entrant) && SourceGame(records, entrant, b) == Some(earlier)
    ensures a == b
  {
    hide LatestBefore, NextGameOf;
    NextIsInverse(records, entrant, earlier, a);
    NextIsInverse(records, entrant, earlier, b);
  }

  /** The two sides of a game leave it with opposite outcomes, in the decided case and in the tie alike. */
  lemma OppositeOutcomes(records: seq<Match>, earlier: Match, a: Match, x: Option<string>, b: Match, y: Option<string>)
    requires Zone(records) && earlier in records && x != y && Side(earlier, x) && Side(earlier, y)
    requires a in records && Side(a, x) && SourceGame(records, x, a) == Some(earlier)
    requires b in records && Side(b, y) && SourceGame(records, y, b) == Some(earlier)
    ensures var o, p := OutcomeIn(earlier, x, a, records), OutcomeIn(earlier, y, b, records);
            o.None? <==> p.None?
    ensures var o, p := OutcomeIn(earlier, x, a, records), OutcomeIn(earlier, y, b, records);
            o.Some? ==> o != p
  {
    hide LatestBefore, NextGameOf, StakesOf;
    NextIsInverse(records, x, earlier, a);
    NextIsInverse(records, y, earlier, b);
  }

  /**
   * Every game has at most one outgoing winner edge and at most one outgoing loser edge, and they
   * belong to different entrants.
   */
  lemma EdgesAreConsistent(records: seq<Match>, earlier: Match, outcome: Outcome, a: Match, x: Option<string>, b: Match, y: Option<string>)
    requires Zone(records)
    requires Edge(records, earlier, outcome, a, x) && Edge(records, earlier, outcome, b, y)
    ensures a == b && x == y
  {
    hide LatestBefore, NextGameOf, OutcomeIn, Zone;
    assert Side(earlier, x) && Side(earlier, y);
    if x == y {
      OneEdgePerEntrant(records, earlier, a, b, x);
    } else {
      OppositeOutcomes(records, earlier, a, x, b, y);
    }
  }

  /** The score says who won. */
  predicate Decided(m: Match) { Score(m, 0).Some? && Score(m, 1).Some? && Score(m, 0) != Score(m, 1) }

  /** A decided game is left by exactly the edges its score says, for each side that plays on. */
  lemma DecidedGameIsLinked(records: seq<Match>, earlier: Match, entrant: Option<string>)
    requires Zone(records) && earlier in records && Side(earlier, entrant)
    requires NextGameOf(records, entrant, earlier.round).Some?
    requires Decided(earlier)
    ensures var record := NextGameOf(records, entrant, earlier.round).value;
            var homeWon := Score(earlier, 0).value > Score(earlier, 1).value;
            Edge(records, earlier, if (earlier.home == entrant) == homeWon then Winner else Loser, record, entrant)
  {
    hide LatestBefore, NextGameOf;
    NextIsInverse(records, entrant, earlier, NextGameOf(records, entrant, earlier.round).value);
  }

  function Opponent(m: Match, entrant: Option<string>): Option<string> { if m.home == entrant then m.away else m.home }

  /** How far from the title an entrant plays on; one that does not counts as eliminated. */
  function StakesBehind(records: seq<Match>, entrant: Option<string>, round: int): nat
  {
    var next := NextGameOf(records, entrant, round);
    StakesOf(if next.Some? then next.value.role else Some("eliminated"))
  }

  /**
   * The tie rule, for either side of a game without a decided score, a missing one included: a side
   * that plays on leaves as the winner exactly if it plays on closer to the title than its opponent, as
   * the loser exactly if further from it, and an opponent that does not play on is as far as can be.
   */
  lemma UndecidedGameIsLinked(records: seq<Match>, earlier: Match, x: Option<string>)
    requires Zone(records) && earlier in records && Side(earlier, x) && !Decided(earlier)
    requires NextGameOf(records, x, earlier.round).Some?
    ensures var a := NextGameOf(records, x, earlier.round).value;
            var theirs := StakesBehind(records, Opponent(earlier, x), earlier.round);
            && (Edge(records, earlier, Winner, a, x) <==> StakesOf(a.role) < theirs)
            && (Edge(records, earlier, Loser, a, x) <==> StakesOf(a.role) > theirs)
            && (NextGameOf(records, Opponent(earlier, x), earlier.round).None? ==> theirs == MAX_SAFE_INTEGER)
  {
    hide LatestBefore, NextGameOf, StakesOf;
    NextIsInverse(records, x, earlier, NextGameOf(records, x, earlier.round).value);
    EliminatedIsLast();
  }

  lemma EliminatedIsLast()
    ensures StakesOf(Some("eliminated")) == MAX_SAFE_INTEGER
  {
  }

  /** When both sides play on, the game is linked on both or not at all. */
  lemma TiedGameIsLinked(records: seq<Match>, earlier: Match, x: Option<string>, y: Option<string>)
    requires Zone(records) && earlier in records && x != y && Side(earlier, x) && Side(earlier, y) && !Decided(earlier)
    requires NextGameOf(records, x, earlier.round).Some? && NextGameOf(records, y, earlier.round).Some?
    ensures var a, b := NextGameOf(records, x, earlier.round).value, NextGameOf(records, y, earlier.round).value;
            && (Edge(records, earlier, Winner, a, x) <==> StakesOf(a.role) < StakesOf(b.role))
            && (Edge(records, earlier, Loser, b, y) <==> StakesOf(a.role) < StakesOf(b.role))
  {
    hide NextGameOf, StakesOf, Edge, Zone, Decided;
    UndecidedGameIsLinked(records, earlier, x);
    UndecidedGameIsLinked(records, earlier, y);
  }

  // ----- Acyclicity -----

  ghost predicate Linked(records: seq<Match>, a: Match, b: Match) { exists e, o :: Edge(records, a, o, b, e) }

  /** Each game of the path is a source of the next. */
  ghost predicate Path(records: seq<Match>, path: seq<Match>)
  {
    forall k :: 0 < k < |path| ==> Linked(records, path[k - 1], path[k])
  }

  lemma LinkClimbs(records: seq<Match>, a: Match, b: Match)
    requires Linked(records, a, b)
    ensures a.round < b.round
  {
    hide LatestBefore, OutcomeIn;
  }

  lemma {:induction false} PathClimbs(records: seq<Match>, path: seq<Match>)
    requires Path(records, path) && |path| >= 2
    ensures path[0].round < path[|path| - 1].round
  {
    hide Linked;
    var n := |path| - 1;
    LinkClimbs(records, path[n - 1], path[n]);
    if n >= 2 { PathClimbs(records, path[..n]); }
  }

  /** No path of edges leads from a game back to it. */
  lemma Acyclic(records: seq<Match>, path: seq<Match>)
    requires Path(records, path) && |path| >= 2
    ensures path[0] != path[|path| - 1]
  {
    PathClimbs(records, path);
  }

  // ----- The ids of the drawn nodes -----

  datatype GraphMatch = GraphMatch(matchId: string, persisted: Option<string>)

  /** The graph match a fixture was placed on. */
  function GraphIdOf(graph: seq<GraphMatch>, m: Match): Option<string>
  {
    if graph == [] then None
    else if graph[0].persisted == Some(m.matchId) then Some(graph[0].matchId)
    else GraphIdOf(graph[1..], m)
  }

  /** Node ids of the generated graph are distinct and not those of placement games. */
  ghost predicate GraphIds(graph: seq<GraphMatch>)
  {
    && (forall i, j :: 0 <= i < j < |graph| ==> graph[i].matchId != graph[j].matchId)
    && (forall i :: 0 <= i < |graph| ==> !("PL-R" <= graph[i].matchId))
  }

  lemma {:induction false} GraphIdFound(graph: seq<GraphMatch>, m: Match) returns (i: nat)
    requires GraphIdOf(graph, m).Some?
    ensures i < |graph| && graph[i].persisted == Some(m.matchId) && graph[i].matchId == GraphIdOf(graph, m).value
  {
    if graph[0].persisted == Some(m.matchId) {
      i := 0;
    } else {
      var k := GraphIdFound(graph[1..], m);
      i := k + 1;
    }
  }

  lemma {:induction false} RankRises(records: seq<Match>, i: nat, j: nat, round: int)
    requires i <= j <= |records|
    ensures InRound(records, i, round) <= InRound(records, j, round)
  {
    if i < j { RankRises(records, i, j - 1, round); }
  }

  /** Placement games of one round have different positions. */
  lemma RanksDiffer(records: seq<Match>, i: nat, j: nat)
    requires i < j < |records| && records[i].round == records[j].round
    ensures Rank(records, i) < Rank(records, j)
  {
    RankRises(records, i + 1, j, records[i].round);
  }

  lemma ShowIntInjective(a: int, b: int)
    requires ShowInt(a) == ShowInt(b)
    ensures a == b
  {
    hide ShowInt, ToNumber;
    NumberOfShow(a);
    NumberOfShow(b);
  }

  lemma ShowIntHasNoM(n: int)
    ensures 'M' !in ShowInt(n)
  {
    var digits := ShowNat(if n < 0 then -n else n);
    assert 'M' !in digits;
  }

  /** Texts around a mark that occurs in neither are determined by the whole. */
  lemma SplitAtMark(a: string, b: string, c: string, d: string, mark: char)
    requires mark !in a && mark !in c && a + [mark] + b == c + [mark] + d
    ensures a == c && b == d
  {
    var s := a + [mark] + b;
    forall i | 0 <= i < |a| ensures s[i] != mark { assert s[i] == a[i]; }
    forall i | 0 <= i < |c| ensures s[i] != mark { assert s[i] == c[i]; }
    assert s[|a|] == mark && s[|c|] == mark;
    assert a == s[..|a|] && c == s[..|c|];
    assert b == s[|a| + 1..] && d == s[|c| + 1..];
  }

  /** A placement id determines its round and position. */
  lemma PlacementIdInjective(r: int, p: nat, q: int, t: nat)
    requires PlacementId(r, p) == PlacementId(q, t)
    ensures r == q && p == t
  {
    hide ShowInt, ShowNat;
    var a, b, c, d := ShowInt(r), ShowNat(p), ShowInt(q), ShowNat(t);
    assert PlacementId(r, p) == "PL-R" + ((a + "-") + ['M'] + b);
    assert PlacementId(q, t) == "PL-R" + ((c + "-") + ['M'] + d);
    assert PlacementId(r, p)[4..] == (a + "-") + ['M'] + b && PlacementId(q, t)[4..] == (c + "-") + ['M'] + d;
    ShowIntHasNoM(r);
    ShowIntHasNoM(q);
    SplitAtMark(a + "-", b, c + "-", d, 'M');
    assert a == (a + "-")[..|a|] && c == (c + "-")[..|c|];
    ShowIntInjective(r, q);
    ShowNatIsShowInt(p);
    ShowNatIsShowInt(t);
    ShowIntInjective(p, t);
  }

  lemma ShowNatIsShowInt(n: nat)
    ensures ShowNat(n) == ShowInt(n)
  {
  }

  lemma {:induction false} PlacementFound(placed: seq<Match>, n: nat, fixtureId: string) returns (k: nat)
    requires n <= |placed| && PlacementIdOf(placed, n, fixtureId).Some?
    ensures k < n && placed[k].fixtureId == fixtureId
    ensures PlacementIdOf(placed, n, fixtureId) == Some(PlacementId(placed[k].round, Rank(placed, k)))
  {
    hide PlacementId, Rank;
    if placed[n - 1].fixtureId == fixtureId { k := n - 1; } else { k := PlacementFound(placed, n - 1, fixtureId); }
  }

  lemma SameFixture(records: seq<Match>, a: Match, b: Match)
    requires Zone(records) && a in records && b in records
    ensures a.fixtureId == b.fixtureId || a.matchId == b.matchId ==> a == b
  {
    var i :| 0 <= i < |records| && records[i] == a;
    var j :| 0 <= j < |records| && records[j] == b;
  }

  lemma PlacementIdsDiffer(placed: seq<Match>, i: nat, j: nat)
    requires i < |placed| && j < |placed|
    requires PlacementId(placed[i].round, Rank(placed, i)) == PlacementId(placed[j].round, Rank(placed, j))
    ensures i == j
  {
    hide PlacementId, Rank;
    PlacementIdInjective(placed[i].round, Rank(placed, i), placed[j].round, Rank(placed, j));
    if i < j { RanksDiffer(placed, i, j); }
    if j < i { RanksDiffer(placed, j, i); }
  }

  lemma PlacementIdStarts(round: int, position: nat)
    ensures "PL-R" <= PlacementId(round, position)
  {
  }

  /** Different games are drawn as different nodes. */
  lemma NodeIdsInjective(records: seq<Match>, graph: seq<GraphMatch>, a: Match, b: Match)
    requires Zone(records) && GraphIds(graph) && a in records && b in records
    requires var idOf := AnyIdOf(Kept(records, true), m => GraphIdOf(graph, m));
             idOf(a).Some? && idOf(a) == idOf(b)
    ensures a == b
  {
    hide PlacementId, PlacementIdOf, Rank, Zone, Kept, GraphIdOf;
    var placed := Kept(records, true);
    var n := |placed|;
    SameFixture(records, a, b);
    var pa, pb := PlacementIdOf(placed, n, a.fixtureId), PlacementIdOf(placed, n, b.fixtureId);
    if pa.Some? && pb.Some? {
      var i := PlacementFound(placed, n, a.fixtureId);
      var j := PlacementFound(placed, n, b.fixtureId);
      PlacementIdsDiffer(placed, i, j);
    } else if pa.None? && pb.None? {
      var i := GraphIdFound(graph, a);
      var j := GraphIdFound(graph, b);
      assert i == j;
    } else {
      var p, g := if pa.Some? then a else b, if pa.Some? then b else a;
      var i := PlacementFound(placed, n, p.fixtureId);
      var j := GraphIdFound(graph, g);
      PlacementIdStarts(placed[i].round, Rank(placed, i));
    }
  }

  /**
   * What the two bracket responses draw: no two sides of games have the same source, so every node has
   * at most one line for its winner and one for its loser.
   */
  lemma DrawnLinksAreConsistent(records: seq<Match>, graph: seq<GraphMatch>, a: Match, x: Option<string>, b: Match, y: Option<string>)
    requires Zone(records) && GraphIds(graph)
    requires a in records && Plays(a, x) && b in records && Plays(b, y)
    requires var idOf := AnyIdOf(Kept(records, true), m => GraphIdOf(graph, m));
             SourceOf(x, a, records, idOf).Some? && SourceOf(x, a, records, idOf) == SourceOf(y, b, records, idOf)
    ensures a == b && x == y
  {
    hide LatestBefore, OutcomeIn, Zone, Kept, GraphIdOf, AnyIdOf, NextGameOf;
    var idOf := AnyIdOf(Kept(records, true), m => GraphIdOf(graph, m));
    var source := SourceOf(x, a, records, idOf).value;
    var e, f := LatestBefore(records, x, a.round).value, LatestBefore(records, y, b.round).value;
    NodeIdsInjective(records, graph, e, f);
    EdgesAreConsistent(records, e, source.outcome, a, x, b, y);
  }

  /** The graph's records are drawn from renumbered copies, which changes no source. */
  lemma RenumberingKeepsSources(record: Match, position: nat, records: seq<Match>, idOf: Match -> Option<string>)
    ensures RecordedSources(record.(position := position), records, idOf) == RecordedSources(record, records, idOf)
  {
    hide LatestBefore, NextGameOf, StakesOf;
  }
}
