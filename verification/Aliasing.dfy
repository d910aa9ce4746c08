/** Following renamed aliases within one organization (packages/domain/src/aliasing.ts). */
module Aliasing {
  import opened Options

  datatype Redirect = Redirect(organizationId: string, oldAlias: string, newAlias: string)

  datatype Resolution = Current | Moved(to: string) | Unknown

  function Scoped(redirects: seq<Redirect>, organizationId: string): (scoped: seq<Redirect>)
    ensures |scoped| <= |redirects|
  {
    if redirects == [] then []
    else (if redirects[0].organizationId == organizationId then [redirects[0]] else []) + Scoped(redirects[1..], organizationId)
  }

  /** The first row that renames the alias. */
  function Follow(scoped: seq<Redirect>, alias: string): (next: Option<string>)
    ensures next.None? ==> forall i :: 0 <= i < |scoped| ==> scoped[i].oldAlias != alias
    ensures next.Some? ==> exists i :: 0 <= i < |scoped| && scoped[i].oldAlias == alias
  {
    if scoped == [] then None
    else if scoped[0].oldAlias == alias then Some(scoped[0].newAlias)
    else Follow(scoped[1..], alias)
  }

  /** The alias `k` renames behind, or `None` behind the end of the chain. */
  function At(scoped: seq<Redirect>, alias: string, k: nat): Option<string>
  {
    if k == 0 then Some(alias)
    else match At(scoped, alias, k - 1) case None => None case Some(target) => Follow(scoped, target)
  }

  predicate CurrentAt(scoped: seq<Redirect>, alias: string, current: set<string>, k: nat)
  {
    At(scoped, alias, k).Some? && At(scoped, alias, k).value in current
  }

  /** `k` renames lead to the first alias of the chain that is current. */
  predicate FirstCurrent(scoped: seq<Redirect>, alias: string, current: set<string>, k: nat)
  {
    CurrentAt(scoped, alias, current, k) && forall j: nat :: j < k ==> !CurrentAt(scoped, alias, current, j)
  }

  /** No alias of the chain is current, however far one follows it. */
  ghost predicate Nowhere(scoped: seq<Redirect>, alias: string, current: set<string>)
  {
    forall k: nat :: !CurrentAt(scoped, alias, current, k)
  }

  /**
   * The answer for a chain: a redirect names the first current alias within `maxHops` renames, and
   * `Unknown` says there is none so near. `settled` says that an `Unknown` was reached at a dead end or
   * a repeated alias and not by running out of hops: then there is none at any distance.
   */
  ghost predicate Answers(scoped: seq<Redirect>, alias: string, current: set<string>, maxHops: nat, r: Resolution, settled: bool)
  {
    match r
    case Current => alias in current
    case Moved(to) =>
      exists k: nat :: 1 <= k <= maxHops && FirstCurrent(scoped, alias, current, k) && At(scoped, alias, k) == Some(to)
    case Unknown =>
      (forall k: nat :: k <= maxHops ==> !CurrentAt(scoped, alias, current, k))
      && if settled then Nowhere(scoped, alias, current) else At(scoped, alias, maxHops).Some?
  }

  /** `resolveAlias`. */
  method Resolve(organizationId: string, alias: string, current: set<string>, redirects: seq<Redirect>, maxHops: nat)
    returns (r: Resolution, settled: bool)
    ensures Answers(Scoped(redirects, organizationId), alias, current, maxHops, r, settled)
    ensures r == Current <==> alias in current
    ensures forall to :: r == Moved(to) <==>
                         exists chain :: LeadsTo(redirects, organizationId, current, chain, alias, to) && |chain| <= maxHops + 1
  {
    hide Answers, LeadsTo, Scoped;
    r, settled := FollowChain(Scoped(redirects, organizationId), alias, current, maxHops);
    forall to ensures r == Moved(to) <==>
                      exists chain :: LeadsTo(redirects, organizationId, current, chain, alias, to) && |chain| <= maxHops + 1
    {
      ResolvesExactly(redirects, organizationId, alias, current, maxHops, r, settled, to);
    }
    ResolvesExactly(redirects, organizationId, alias, current, maxHops, r, settled, "");
  }

  /** The loop over the rows of the organization. */
  method FollowChain(scoped: seq<Redirect>, alias: string, current: set<string>, maxHops: nat) returns (r: Resolution, settled: bool)
    ensures Answers(scoped, alias, current, maxHops, r, settled)
  {
    hide Follow, At, CurrentAt, Nowhere, FirstCurrent;
    settled := true;
    if alias in current { return Current, settled; }
    var seen := {alias};
    var target := alias;
    AtStart(scoped, alias, current);
    for hop := 0 to maxHops
      invariant At(scoped, alias, hop) == Some(target)
      invariant forall k: nat :: k <= hop ==> At(scoped, alias, k).Some? && At(scoped, alias, k).value in seen
      invariant forall a :: a in seen ==> exists k: nat :: k <= hop && At(scoped, alias, k) == Some(a)
      invariant forall k: nat :: k <= hop ==> !CurrentAt(scoped, alias, current, k)
      invariant settled
    {
      var next := Follow(scoped, target);
      AtNext(scoped, alias, current, hop);
      if next.None? {
        EndsThere(scoped, alias, current, hop + 1);
        assert forall k: nat :: !CurrentAt(scoped, alias, current, k) by { NowhereIs(scoped, alias, current); }
        return Unknown, settled;
      }
      if next.value in seen {
        var k: nat :| k <= hop && At(scoped, alias, k) == Some(next.value);
        RepeatsForever(scoped, alias, current, k, hop + 1);
        assert forall k: nat :: !CurrentAt(scoped, alias, current, k) by { NowhereIs(scoped, alias, current); }
        return Unknown, settled;
      }
      seen := seen + {next.value};
      target := next.value;
      if target in current {
        assert FirstCurrent(scoped, alias, current, hop + 1) by { FirstIs(scoped, alias, current, hop + 1); }
        return Moved(target), settled;
      }
    }
    return Unknown, false;
  }

  lemma AtStart(scoped: seq<Redirect>, alias: string, current: set<string>)
    ensures At(scoped, alias, 0) == Some(alias)
    ensures CurrentAt(scoped, alias, current, 0) <==> alias in current
  {
  }

  lemma AtNext(scoped: seq<Redirect>, alias: string, current: set<string>, k: nat)
    requires At(scoped, alias, k).Some?
    ensures At(scoped, alias, k + 1) == Follow(scoped, At(scoped, alias, k).value)
    ensures CurrentAt(scoped, alias, current, k + 1) <==> At(scoped, alias, k + 1).Some? && At(scoped, alias, k + 1).value in current
  {
    hide Follow;
  }

  lemma NowhereIs(scoped: seq<Redirect>, alias: string, current: set<string>)
    requires Nowhere(scoped, alias, current)
    ensures forall k: nat :: !CurrentAt(scoped, alias, current, k)
  {
    hide CurrentAt;
  }

  lemma FirstIs(scoped: seq<Redirect>, alias: string, current: set<string>, k: nat)
    requires CurrentAt(scoped, alias, current, k) && forall j: nat :: j < k ==> !CurrentAt(scoped, alias, current, j)
    ensures FirstCurrent(scoped, alias, current, k)
  {
    hide CurrentAt;
  }

  /** The answer is the only one: the clauses of `Answers` exclude each other. */
  lemma AnswersExactly(scoped: seq<Redirect>, alias: string, current: set<string>, maxHops: nat, r: Resolution, settled: bool)
    requires Answers(scoped, alias, current, maxHops, r, settled)
    ensures r.Current? <==> alias in current
    ensures r.Moved? <==> exists k: nat :: 1 <= k <= maxHops && FirstCurrent(scoped, alias, current, k)
    ensures forall k: nat :: 1 <= k <= maxHops && FirstCurrent(scoped, alias, current, k) ==> r == Moved(At(scoped, alias, k).value)
  {
    hide CurrentAt, At;
    AtStart(scoped, alias, current);
    if r.Moved? {
      var k: nat :| 1 <= k <= maxHops && FirstCurrent(scoped, alias, current, k) && At(scoped, alias, k) == Some(r.to);
      forall j: nat | FirstCurrent(scoped, alias, current, j) ensures j == k {
        assert j < k ==> !CurrentAt(scoped, alias, current, j);
        assert k < j ==> !CurrentAt(scoped, alias, current, k);
      }
    }
    if r.Current? {
      forall j: nat | 1 <= j ensures !FirstCurrent(scoped, alias, current, j) { assert CurrentAt(scoped, alias, current, 0); }
    }
  }

  // ----- The answer, on the rows themselves -----

  /** The first row of the organization that renames `a` renames it to `b`. */
  ghost predicate Renames(redirects: seq<Redirect>, organizationId: string, a: string, b: string)
  {
    exists i: nat :: RenamesAt(redirects, organizationId, a, b, i)
  }

  predicate RenamesAt(redirects: seq<Redirect>, organizationId: string, a: string, b: string, i: nat)
  {
    i < |redirects| && redirects[i] == Redirect(organizationId, a, b)
    && forall j :: 0 <= j < i ==> !(redirects[j].organizationId == organizationId && redirects[j].oldAlias == a)
  }

  /** A chain of renames from one alias to another, in which only the last is current. */
  ghost predicate LeadsTo(redirects: seq<Redirect>, organizationId: string, current: set<string>, chain: seq<string>, from: string, to: string)
  {
    |chain| >= 2 && chain[0] == from && chain[|chain| - 1] == to && to in current
    && (forall i :: 0 <= i < |chain| - 1 ==> chain[i] !in current)
    && forall i :: 0 < i < |chain| ==> Renames(redirects, organizationId, chain[i - 1], chain[i])
  }

  lemma RenamesAtCons(first: Redirect, rest: seq<Redirect>, organizationId: string, a: string, b: string, i: nat)
    ensures RenamesAt([first] + rest, organizationId, a, b, 0) <==> first == Redirect(organizationId, a, b)
    ensures RenamesAt([first] + rest, organizationId, a, b, i + 1)
            <==> !(first.organizationId == organizationId && first.oldAlias == a) && RenamesAt(rest, organizationId, a, b, i)
  {
    var all := [first] + rest;
    assert forall j :: 0 <= j < |rest| ==> all[j + 1] == rest[j];
    assert forall j :: 0 < j < |all| ==> all[j] == rest[j - 1];
    if RenamesAt(all, organizationId, a, b, i + 1) {
      assert !(all[0].organizationId == organizationId && all[0].oldAlias == a);
    }
  }

  lemma RenamesCons(first: Redirect, rest: seq<Redirect>, organizationId: string, a: string, b: string)
    ensures Renames([first] + rest, organizationId, a, b)
            <==> if first.organizationId == organizationId && first.oldAlias == a then first.newAlias == b
                 else Renames(rest, organizationId, a, b)
    ensures !Renames([], organizationId, a, b)
  {
    hide RenamesAt;
    RenamesAtCons(first, rest, organizationId, a, b, 0);
    if i: nat :| RenamesAt([first] + rest, organizationId, a, b, i) {
      if i > 0 { RenamesAtCons(first, rest, organizationId, a, b, i - 1); }
    }
    if i: nat :| RenamesAt(rest, organizationId, a, b, i) { RenamesAtCons(first, rest, organizationId, a, b, i); }
    forall i: nat ensures !RenamesAt([], organizationId, a, b, i) { NoRename(organizationId, a, b, i); }
  }

  lemma NoRename(organizationId: string, a: string, b: string, i: nat)
    ensures !RenamesAt([], organizationId, a, b, i)
  {
  }

  lemma {:induction false} FollowsFirstRow(redirects: seq<Redirect>, organizationId: string, a: string, b: string)
    ensures Follow(Scoped(redirects, organizationId), a) == Some(b) <==> Renames(redirects, organizationId, a, b)
  {
    hide Scoped, Follow, Renames;
    if redirects == [] {
      NothingFollows(organizationId, a);
      RenamesCons(Redirect("", "", ""), [], organizationId, a, b);
    } else {
      var first, rest := redirects[0], redirects[1..];
      assert redirects == [first] + rest;
      ScopedCons(first, rest, organizationId);
      RenamesCons(first, rest, organizationId, a, b);
      FollowsFirstRow(rest, organizationId, a, b);
      if first.organizationId == organizationId { FollowCons(first, Scoped(rest, organizationId), a); }
    }
  }

  lemma NothingFollows(organizationId: string, a: string)
    ensures Follow(Scoped([], organizationId), a) == None
  {
  }

  lemma FollowCons(first: Redirect, rest: seq<Redirect>, a: string)
    ensures Follow([first] + rest, a) == if first.oldAlias == a then Some(first.newAlias) else Follow(rest, a)
  {
    assert ([first] + rest)[1..] == rest;
  }

  /** The chain of an alias, up to a position. */
  lemma {:induction false} ChainAt(redirects: seq<Redirect>, organizationId: string, alias: string, k: nat) returns (chain: seq<string>)
    requires At(Scoped(redirects, organizationId), alias, k).Some?
    ensures |chain| == k + 1
    ensures forall i :: 0 <= i <= k ==> At(Scoped(redirects, organizationId), alias, i) == Some(chain[i])
    ensures forall i :: 0 < i <= k ==> Renames(redirects, organizationId, chain[i - 1], chain[i])
  {
    hide Scoped, Follow, Renames;
    if k == 0 {
      chain := [alias];
    } else {
      var before := ChainAt(redirects, organizationId, alias, k - 1);
      var next := At(Scoped(redirects, organizationId), alias, k).value;
      FollowsFirstRow(redirects, organizationId, before[k - 1], next);
      chain := before + [next];
    }
  }

  lemma {:induction false} ChainIsAt(redirects: seq<Redirect>, organizationId: string, chain: seq<string>, i: nat)
    requires i < |chain|
    requires forall j :: 0 < j < |chain| ==> Renames(redirects, organizationId, chain[j - 1], chain[j])
    ensures At(Scoped(redirects, organizationId), chain[0], i) == Some(chain[i])
  {
    hide Scoped, Follow, Renames;
    if i > 0 {
      ChainIsAt(redirects, organizationId, chain, i - 1);
      FollowsFirstRow(redirects, organizationId, chain[i - 1], chain[i]);
    }
  }

  /**
   * What is resolved, on the rows themselves: an alias in use is current, one from which at most
   * `maxHops` renames lead to the first alias in use is redirected there, and any other is unknown.
   */
  lemma ResolvesExactly(redirects: seq<Redirect>, organizationId: string, alias: string, current: set<string>, maxHops: nat,
                        r: Resolution, settled: bool, to: string)
    requires Answers(Scoped(redirects, organizationId), alias, current, maxHops, r, settled)
    ensures r == Current <==> alias in current
    ensures r == Moved(to) <==> exists chain :: LeadsTo(redirects, organizationId, current, chain, alias, to) && |chain| <= maxHops + 1
  {
    hide Scoped, Renames, At;
    var scoped := Scoped(redirects, organizationId);
    AnswersExactly(scoped, alias, current, maxHops, r, settled);
    if r == Moved(to) {
      var k: nat :| 1 <= k <= maxHops && FirstCurrent(scoped, alias, current, k) && At(scoped, alias, k) == Some(to);
      var chain := ChainAt(redirects, organizationId, alias, k);
      assert At(scoped, alias, 0) == Some(alias) by { AtStart(scoped, alias, current); }
      forall i | 0 <= i < k ensures chain[i] !in current { assert !CurrentAt(scoped, alias, current, i); }
      assert LeadsTo(redirects, organizationId, current, chain, alias, to);
    }
    if chain :| LeadsTo(redirects, organizationId, current, chain, alias, to) && |chain| <= maxHops + 1 {
      var k := |chain| - 1;
      forall i: nat | i <= k ensures At(scoped, alias, i) == Some(chain[i]) { ChainIsAt(redirects, organizationId, chain, i); }
      assert FirstCurrent(scoped, alias, current, k);
    }
  }

  lemma {:induction false} EndedAt(scoped: seq<Redirect>, alias: string, k: nat, m: nat)
    requires At(scoped, alias, k).None? && k <= m
    ensures At(scoped, alias, m).None?
    decreases m
  {
    if m > k { EndedAt(scoped, alias, k, m - 1); }
  }

  /** A chain that ends without a current alias has none. */
  lemma EndsThere(scoped: seq<Redirect>, alias: string, current: set<string>, k: nat)
    requires At(scoped, alias, k).None?
    requires forall j: nat :: j < k ==> !CurrentAt(scoped, alias, current, j)
    ensures Nowhere(scoped, alias, current)
  {
    forall m: nat ensures !CurrentAt(scoped, alias, current, m) {
      if m >= k { EndedAt(scoped, alias, k, m); }
    }
  }

  lemma SameNext(scoped: seq<Redirect>, alias: string, i: nat, m: nat)
    requires At(scoped, alias, i) == At(scoped, alias, m)
    ensures At(scoped, alias, i + 1) == At(scoped, alias, m + 1)
  {
    hide Follow;
  }

  /** Behind a repeated alias the chain stays among the aliases it has visited. */
  lemma {:induction false} StaysAmong(scoped: seq<Redirect>, alias: string, j: nat, k: nat, m: nat) returns (i: nat)
    requires j < k && At(scoped, alias, j) == At(scoped, alias, k)
    ensures i < k && At(scoped, alias, m) == At(scoped, alias, i)
    decreases m
  {
    hide At;
    if m < k {
      i := m;
    } else if m == k {
      i := j;
    } else {
      i := StaysAmong(scoped, alias, j, k, m - 1);
      SameNext(scoped, alias, i, m - 1);
      i := if i + 1 < k then i + 1 else j;
    }
  }

  /** A chain that comes back to an alias without having met a current one has none. */
  lemma RepeatsForever(scoped: seq<Redirect>, alias: string, current: set<string>, j: nat, k: nat)
    requires j < k && At(scoped, alias, j) == At(scoped, alias, k)
    requires forall i: nat :: i < k ==> !CurrentAt(scoped, alias, current, i)
    ensures Nowhere(scoped, alias, current)
  {
    forall m: nat ensures !CurrentAt(scoped, alias, current, m) {
      var i := StaysAmong(scoped, alias, j, k, m);
      assert !CurrentAt(scoped, alias, current, i);
    }
  }

  // ----- How many hops are enough -----

  function OldAliases(scoped: seq<Redirect>): (aliases: set<string>)
    ensures |aliases| <= |scoped|
    ensures forall a :: a in aliases <==> exists i :: 0 <= i < |scoped| && scoped[i].oldAlias == a
  {
    if scoped == [] then {}
    else
      var front := scoped[..|scoped| - 1];
      assert scoped == front + [scoped[|scoped| - 1]];
      OldAliases(front) + {scoped[|scoped| - 1].oldAlias}
  }

  function Visited(scoped: seq<Redirect>, alias: string, k: nat): set<Option<string>>
  {
    set i: nat | i < k :: At(scoped, alias, i)
  }

  lemma {:induction false} VisitedAll(scoped: seq<Redirect>, alias: string, k: nat)
    requires forall i: nat, j: nat :: i < j < k ==> At(scoped, alias, i) != At(scoped, alias, j)
    ensures |Visited(scoped, alias, k)| == k
  {
    hide At, Visited;
    if k == 0 {
      NoneVisited(scoped, alias);
    } else {
      VisitedAll(scoped, alias, k - 1);
      OneMoreVisited(scoped, alias, k - 1);
    }
  }

  lemma NoneVisited(scoped: seq<Redirect>, alias: string)
    ensures Visited(scoped, alias, 0) == {}
  {
  }

  lemma OneMoreVisited(scoped: seq<Redirect>, alias: string, k: nat)
    ensures Visited(scoped, alias, k + 1) == Visited(scoped, alias, k) + {At(scoped, alias, k)}
    ensures (forall i: nat :: i < k ==> At(scoped, alias, i) != At(scoped, alias, k)) ==> At(scoped, alias, k) !in Visited(scoped, alias, k)
  {
    hide At;
    forall a ensures a in Visited(scoped, alias, k + 1) <==> a in Visited(scoped, alias, k) + {At(scoped, alias, k)} {
      if a in Visited(scoped, alias, k + 1) {
        var i: nat :| i < k + 1 && a == At(scoped, alias, i);
        if i < k { assert a in Visited(scoped, alias, k); }
      }
    }
  }

  /** A chain of distinct aliases that does not end within `k` renames has used `k` rows. */
  lemma LongChainsRepeat(scoped: seq<Redirect>, alias: string, k: nat)
    requires forall i: nat :: i <= k ==> At(scoped, alias, i).Some?
    requires forall i: nat, j: nat :: i < j < k ==> At(scoped, alias, i) != At(scoped, alias, j)
    ensures k <= |scoped|
  {
    hide At, Follow;
    VisitedAll(scoped, alias, k);
    var olds := OldAliases(scoped);
    var wrapped := set a | a in olds :: Some(a);
    forall v | v in Visited(scoped, alias, k) ensures v in wrapped {
      var i: nat :| i < k && At(scoped, alias, i) == v;
      RenamedBy(scoped, alias, i);
    }
    Wrapped(olds);
    Smaller(Visited(scoped, alias, k), wrapped);
  }

  lemma RenamedBy(scoped: seq<Redirect>, alias: string, i: nat)
    requires At(scoped, alias, i + 1).Some?
    ensures At(scoped, alias, i).Some? && exists r :: 0 <= r < |scoped| && scoped[r].oldAlias == At(scoped, alias, i).value
  {
    var target := At(scoped, alias, i).value;
    assert Follow(scoped, target).Some?;
  }

  lemma {:induction false} Wrapped(s: set<string>)
    ensures |set a | a in s :: Some(a)| == |s|
  {
    if s != {} {
      var x :| x in s;
      Wrapped(s - {x});
      assert (set a | a in s :: Some(a)) == (set a | a in s - {x} :: Some(a)) + {Some(x)};
    }
  }

  lemma {:induction false} Smaller(a: set<Option<string>>, b: set<Option<string>>)
    requires a <= b
    ensures |a| <= |b|
  {
    if a != {} {
      var x :| x in a;
      Smaller(a - {x}, b - {x});
    }
  }

  /** Within as many hops as the organization has rows, an alias is found if it can be found at all. */
  lemma RowsAreEnough(scoped: seq<Redirect>, alias: string, current: set<string>, maxHops: nat)
    requires maxHops >= |scoped|
    requires forall k: nat :: k <= maxHops ==> !CurrentAt(scoped, alias, current, k)
    ensures Nowhere(scoped, alias, current)
  {
    hide At;
    if k: nat :| k <= maxHops && At(scoped, alias, k).None? {
      EndsThereAtFirst(scoped, alias, current, k);
    } else if i: nat, j: nat :| i < j <= maxHops && At(scoped, alias, i) == At(scoped, alias, j) {
      RepeatsForever(scoped, alias, current, i, j);
    } else {
      AllWithin(scoped, alias, current, maxHops);
    }
  }

  lemma EndsThereAtFirst(scoped: seq<Redirect>, alias: string, current: set<string>, k: nat)
    requires At(scoped, alias, k).None?
    requires forall j: nat :: j <= k ==> !CurrentAt(scoped, alias, current, j)
    ensures Nowhere(scoped, alias, current)
  {
    EndsThere(scoped, alias, current, k);
  }

  lemma AllWithin(scoped: seq<Redirect>, alias: string, current: set<string>, n: nat)
    requires n >= |scoped|
    requires forall k: nat :: k <= n ==> At(scoped, alias, k).Some?
    requires forall i: nat, j: nat :: i < j <= n ==> At(scoped, alias, i) != At(scoped, alias, j)
    requires forall k: nat :: k <= n ==> !CurrentAt(scoped, alias, current, k)
    ensures Nowhere(scoped, alias, current)
  {
    hide At;
    var end := At(scoped, alias, n + 1);
    if end.Some? {
      assert forall i: nat :: i <= n + 1 ==> At(scoped, alias, i).Some?;
      LongChainsRepeat(scoped, alias, n + 1);
      assert false;
    } else {
      EndsThere(scoped, alias, current, n + 1);
    }
  }

  // ----- Other organizations -----

  lemma {:induction false} ScopedAgain(redirects: seq<Redirect>, organizationId: string)
    ensures Scoped(Scoped(redirects, organizationId), organizationId) == Scoped(redirects, organizationId)
    ensures forall r :: r in Scoped(redirects, organizationId) ==> r.organizationId == organizationId
  {
    if redirects != [] {
      ScopedAgain(redirects[1..], organizationId);
      var rest := Scoped(redirects[1..], organizationId);
      assert ([redirects[0]] + rest)[1..] == rest && [] + rest == rest;
    }
  }

  /** A row of another organization, wherever it stands, does not change the rows followed. */
  lemma {:induction false} OthersDoNotCount(before: seq<Redirect>, other: Redirect, behind: seq<Redirect>, organizationId: string)
    requires other.organizationId != organizationId
    ensures Scoped(before + [other] + behind, organizationId) == Scoped(before + behind, organizationId)
  {
    hide Scoped;
    if before == [] {
      assert before + [other] + behind == [other] + behind && before + behind == behind;
      ScopedCons(other, behind, organizationId);
    } else {
      var first, rest := before[0], before[1..];
      OthersDoNotCount(rest, other, behind, organizationId);
      assert before + [other] + behind == [first] + (rest + [other] + behind) && before + behind == [first] + (rest + behind);
      ScopedCons(first, rest + [other] + behind, organizationId);
      ScopedCons(first, rest + behind, organizationId);
    }
  }

  lemma ScopedCons(first: Redirect, rest: seq<Redirect>, organizationId: string)
    ensures Scoped([first] + rest, organizationId)
            == if first.organizationId == organizationId then [first] + Scoped(rest, organizationId) else Scoped(rest, organizationId)
  {
    assert ([first] + rest)[1..] == rest;
    assert [] + Scoped(rest, organizationId) == Scoped(rest, organizationId);
  }
}
