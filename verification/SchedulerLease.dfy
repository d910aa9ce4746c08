/**
 * One logical scheduler across replicas (apps/scheduler/src/scheduler.service.ts,
 * apps/scheduler/src/lease-state.ts, packages/persistence/src/relay/scheduler-lease.ts). Times are
 * milliseconds on the database's clock unless said otherwise.
 */
module SchedulerLease {
  import opened Options

  datatype Lease = Lease(holder: string, expiresAt: int, fencingToken: nat)

  datatype LeaseState = Idle | Held(expiresAt: int, fencingToken: nat) | Lost(since: int)

  datatype LeaseTiming = LeaseTiming(ttlSeconds: nat, renewAt: real)

  const DEFAULT_LEASE: LeaseTiming := LeaseTiming(30, 1.0 / 3.0)

  predicate MayEnqueue(state: LeaseState, now: int) { state.Held? && state.expiresAt > now }

  predicate WasFenced(state: LeaseState, currentToken: nat) { state.Held? && currentToken > state.fencingToken }

  // ----- The store -----

  /** The row after an attempt to take the lease: free, expired and own leases are granted. */
  function Taken(row: Option<Lease>, holder: string, ttl: int, now: int): Option<Lease>
  {
    match row
    case None => Some(Lease(holder, now + ttl, 1))
    case Some(lease) =>
      if lease.expiresAt < now || lease.holder == holder
      then Some(Lease(holder, now + ttl, lease.fencingToken + 1))
      else row
  }

  predicate Granted(row: Option<Lease>, holder: string, now: int)
  {
    row.None? || row.value.expiresAt < now || row.value.holder == holder
  }

  class SchedulerLeaseStore {
    var row: Option<Lease>

    constructor ()
      ensures row == None
    {
      row := None;
    }

    /** One statement: an insert with a conditional upsert. */
    method Acquire(holder: string, ttlSeconds: nat, now: int) returns (lease: Option<Lease>)
      modifies this
      ensures row == Taken(old(row), holder, ttlSeconds * 1000, now)
      ensures lease == if Granted(old(row), holder, now) then row else None
    {
      var expiresAt := now + ttlSeconds * 1000;
      if row.None? {
        row := Some(Lease(holder, expiresAt, 1));
        return row;
      }
      if row.value.expiresAt < now || row.value.holder == holder {
        row := Some(Lease(holder, expiresAt, row.value.fencingToken + 1));
        return row;
      }
      return None;
    }
  }

  // ----- The service -----

  /** The state a tick that started at `now` sets from the answer to its `acquire`. */
  function Settled(lease: Option<Lease>, now: int): LeaseState
  {
    match lease case None => Lost(now) case Some(l) => Held(l.expiresAt, l.fencingToken)
  }

  class SchedulerService {
    const replicaId: string
    var state: LeaseState

    constructor (replicaId: string)
      ensures this.replicaId == replicaId && state == Idle
    {
      this.replicaId, state := replicaId, Idle;
    }

    /** What `tick(now)` does once `acquire` has answered: set the state, and decide whether to enqueue. */
    method Settle(now: int, lease: Option<Lease>) returns (enqueues: bool)
      modifies this
      ensures state == Settled(lease, now)
      ensures enqueues == (lease.Some? && lease.value.expiresAt > now)
    {
      if lease.None? {
        state := Lost(now);
        return false;
      }
      state := Held(lease.value.expiresAt, lease.value.fencingToken);
      return MayEnqueue(state, now);
    }
  }

  // ----- The replicas together -----

  /** Where a tick is: `now` is the replica's clock when it began, `grant` what `acquire` answered. */
  datatype Tick =
    | Begun(replica: string, now: int)
    | Answered(replica: string, now: int, grant: Option<Lease>)
    | Enqueuing(replica: string, lease: Lease)
    | Finished(replica: string)

  datatype Grant = Grant(replica: string, at: int)

  datatype Enqueue = Enqueue(replica: string, at: int, fencingToken: nat)

  /**
   * `grants` and `enqueues` are the histories of what the store granted and what was enqueued, oldest
   * first; a replica may have several ticks under way, because the timer does not wait for the last.
   */
  datatype System = System(clock: int, row: Option<Lease>, states: map<string, LeaseState>, ticks: map<nat, Tick>,
                           grants: seq<Grant>, enqueues: seq<Enqueue>)

  const Start := System(0, None, map[], map[], [], [])

  datatype Action =
    | Advance(to: int)
    | Begin(id: nat, replica: string, now: int)
    | Acquire(id: nat)
    | Answer(id: nat)
    | DoEnqueue(id: nat)

  /** One step; an action that is not enabled does nothing. */
  function Do(ttl: int, s: System, a: Action): System
  {
    match a
    case Advance(to) => if to >= s.clock then s.(clock := to) else s
    case Begin(id, replica, now) =>
      if id in s.ticks then s else s.(ticks := s.ticks[id := Begun(replica, now)])
    case Acquire(id) =>
      if id in s.ticks && s.ticks[id].Begun? then
        var t := s.ticks[id];
        var row := Taken(s.row, t.replica, ttl, s.clock);
        if Granted(s.row, t.replica, s.clock)
        then s.(row := row, ticks := s.ticks[id := Answered(t.replica, t.now, row)], grants := s.grants + [Grant(t.replica, s.clock)])
        else s.(ticks := s.ticks[id := Answered(t.replica, t.now, None)])
      else s
    case Answer(id) =>
      if id in s.ticks && s.ticks[id].Answered? then
        var t := s.ticks[id];
        var state := Settled(t.grant, t.now);
        s.(states := s.states[t.replica := state],
           ticks := s.ticks[id := if t.grant.Some? && MayEnqueue(state, t.now) then Enqueuing(t.replica, t.grant.value)
                                  else Finished(t.replica)])
      else s
    case DoEnqueue(id) =>
      if id in s.ticks && s.ticks[id].Enqueuing? then
        var t := s.ticks[id];
        s.(ticks := s.ticks[id := Finished(t.replica)],
           enqueues := s.enqueues + [Enqueue(t.replica, s.clock, t.lease.fencingToken)])
      else s
  }

  function Run(ttl: int, s: System, actions: seq<Action>): System
    decreases actions
  {
    if actions == [] then s else Run(ttl, Do(ttl, s, actions[0]), actions[1..])
  }

  // ----- What every step keeps -----

  /** The row is the last grant, and its token counts the grants. */
  predicate RowIsLastGrant(ttl: int, row: Option<Lease>, grants: seq<Grant>)
  {
    if grants == [] then row == None
    else row == Some(Lease(grants[|grants| - 1].replica, grants[|grants| - 1].at + ttl, |grants|))
  }

  predicate InOrder(grants: seq<Grant>, clock: int)
  {
    && (forall i, j :: 0 <= i < j < |grants| ==> grants[i].at <= grants[j].at)
    && (forall i :: 0 <= i < |grants| ==> grants[i].at <= clock)
  }

  /** A grant to another replica comes only after the earlier lease ran out. */
  predicate Separated(ttl: int, grants: seq<Grant>)
  {
    forall i, j :: 0 <= i < j < |grants| && grants[i].replica != grants[j].replica ==> grants[i].at + ttl < grants[j].at
  }

  /** The lease was granted to that replica: its token names the grant. */
  predicate Genuine(ttl: int, grants: seq<Grant>, replica: string, expiresAt: int, token: nat)
  {
    1 <= token <= |grants| && grants[token - 1].replica == replica && expiresAt == grants[token - 1].at + ttl
  }

  predicate TickOk(ttl: int, grants: seq<Grant>, t: Tick)
  {
    && (t.Answered? && t.grant.Some? ==> Genuine(ttl, grants, t.replica, t.grant.value.expiresAt, t.grant.value.fencingToken))
    && (t.Enqueuing? ==> Genuine(ttl, grants, t.replica, t.lease.expiresAt, t.lease.fencingToken))
  }

  predicate TicksOk(ttl: int, grants: seq<Grant>, ticks: map<nat, Tick>)
  {
    forall id :: id in ticks ==> TickOk(ttl, grants, ticks[id])
  }

  predicate StatesOk(ttl: int, grants: seq<Grant>, states: map<string, LeaseState>)
  {
    forall r :: r in states && states[r].Held? ==> Genuine(ttl, grants, r, states[r].expiresAt, states[r].fencingToken)
  }

  predicate EnqueueOk(grants: seq<Grant>, e: Enqueue)
  {
    1 <= e.fencingToken <= |grants| && grants[e.fencingToken - 1].replica == e.replica && grants[e.fencingToken - 1].at <= e.at
  }

  predicate EnqueuesOk(grants: seq<Grant>, enqueues: seq<Enqueue>, clock: int)
  {
    && (forall k :: 0 <= k < |enqueues| ==> EnqueueOk(grants, enqueues[k]) && enqueues[k].at <= clock)
    && (forall j, k :: 0 <= j < k < |enqueues| ==> enqueues[j].at <= enqueues[k].at)
  }

  ghost predicate Inv(ttl: int, s: System)
  {
    && RowIsLastGrant(ttl, s.row, s.grants)
    && InOrder(s.grants, s.clock)
    && Separated(ttl, s.grants)
    && TicksOk(ttl, s.grants, s.ticks)
    && StatesOk(ttl, s.grants, s.states)
    && EnqueuesOk(s.grants, s.enqueues, s.clock)
  }

  /** A new grant keeps the earlier ones apart from those of other replicas. */
  lemma GrantSeparates(ttl: int, row: Option<Lease>, grants: seq<Grant>, clock: int, replica: string)
    requires ttl >= 0 && RowIsLastGrant(ttl, row, grants) && InOrder(grants, clock) && Separated(ttl, grants)
    requires Granted(row, replica, clock)
    ensures var g := grants + [Grant(replica, clock)];
            RowIsLastGrant(ttl, Taken(row, replica, ttl, clock), g) && InOrder(g, clock) && Separated(ttl, g)
  {
    var n, g := |grants|, grants + [Grant(replica, clock)];
    forall i | 0 <= i < n && grants[i].replica != replica ensures grants[i].at + ttl < clock {
      if i < n - 1 && grants[n - 1].replica != replica { assert grants[i].at <= grants[n - 1].at; }
    }
    forall i, j | 0 <= i < j < |g| && g[i].replica != g[j].replica ensures g[i].at + ttl < g[j].at {
      if j < n { assert g[j] == grants[j]; }
    }
  }

  /** What was known of earlier grants stays true when another is added. */
  lemma MoreGrants(ttl: int, s: System, grant: Grant)
    requires TicksOk(ttl, s.grants, s.ticks) && StatesOk(ttl, s.grants, s.states) && EnqueuesOk(s.grants, s.enqueues, s.clock)
    ensures var g := s.grants + [grant];
            TicksOk(ttl, g, s.ticks) && StatesOk(ttl, g, s.states) && EnqueuesOk(g, s.enqueues, s.clock)
  {
    var g := s.grants + [grant];
    forall id | id in s.ticks ensures TickOk(ttl, g, s.ticks[id]) { assert TickOk(ttl, s.grants, s.ticks[id]); }
    forall k | 0 <= k < |s.enqueues| ensures EnqueueOk(g, s.enqueues[k]) { assert EnqueueOk(s.grants, s.enqueues[k]); }
  }

  lemma TickSet(ttl: int, grants: seq<Grant>, ticks: map<nat, Tick>, id: nat, t: Tick)
    requires TicksOk(ttl, grants, ticks) && TickOk(ttl, grants, t)
    ensures TicksOk(ttl, grants, ticks[id := t])
  {
  }

  lemma AcquireKeepsInv(ttl: int, s: System, id: nat)
    requires ttl >= 0 && Inv(ttl, s)
    ensures Inv(ttl, Do(ttl, s, Acquire(id)))
  {
    hide InOrder, Separated, TicksOk, StatesOk, EnqueuesOk;
    if id in s.ticks && s.ticks[id].Begun? {
      var t := s.ticks[id];
      if Granted(s.row, t.replica, s.clock) {
        var grant, row := Grant(t.replica, s.clock), Taken(s.row, t.replica, ttl, s.clock);
        GrantSeparates(ttl, s.row, s.grants, s.clock, t.replica);
        MoreGrants(ttl, s, grant);
        TickSet(ttl, s.grants + [grant], s.ticks, id, Answered(t.replica, t.now, row));
      } else {
        TickSet(ttl, s.grants, s.ticks, id, Answered(t.replica, t.now, None));
      }
    }
  }

  lemma AnswerKeepsInv(ttl: int, s: System, id: nat)
    requires Inv(ttl, s)
    ensures Inv(ttl, Do(ttl, s, Answer(id)))
  {
    hide InOrder, Separated, EnqueuesOk, RowIsLastGrant;
    if id in s.ticks && s.ticks[id].Answered? {
      var t, u := s.ticks[id], Do(ttl, s, Answer(id));
      TickSet(ttl, s.grants, s.ticks, id, u.ticks[id]);
    }
  }

  lemma EnqueueKeepsInv(ttl: int, s: System, id: nat)
    requires Inv(ttl, s)
    ensures Inv(ttl, Do(ttl, s, DoEnqueue(id)))
  {
    hide Separated, StatesOk, RowIsLastGrant;
    if id in s.ticks && s.ticks[id].Enqueuing? {
      var t := s.ticks[id];
      TickSet(ttl, s.grants, s.ticks, id, Finished(t.replica));
      assert TickOk(ttl, s.grants, t);
    }
  }

  lemma StepKeepsInv(ttl: int, s: System, a: Action)
    requires ttl >= 0 && Inv(ttl, s)
    ensures Inv(ttl, Do(ttl, s, a))
  {
    hide Separated, StatesOk, RowIsLastGrant, TicksOk;
    match a
    case Acquire(id) => AcquireKeepsInv(ttl, s, id);
    case Advance(to) =>
    case Begin(id, replica, now) => TickSet(ttl, s.grants, s.ticks, id, Begun(replica, now));
    case Answer(id) => AnswerKeepsInv(ttl, s, id);
    case DoEnqueue(id) => EnqueueKeepsInv(ttl, s, id);
  }

  lemma {:induction false} RunKeepsInv(ttl: int, s: System, actions: seq<Action>)
    requires ttl >= 0 && Inv(ttl, s)
    ensures Inv(ttl, Run(ttl, s, actions))
    decreases actions
  {
    hide Inv, Do;
    if actions != [] {
      StepKeepsInv(ttl, s, actions[0]);
      RunKeepsInv(ttl, Do(ttl, s, actions[0]), actions[1..]);
    }
  }

  lemma Reachable(ttl: int, actions: seq<Action>)
    requires ttl >= 0
    ensures Inv(ttl, Run(ttl, Start, actions))
  {
    RunKeepsInv(ttl, Start, actions);
  }

  // ----- Safety -----

  /** The enqueue happened while its lease was in force. */
  predicate InForce(ttl: int, grants: seq<Grant>, e: Enqueue)
    requires EnqueueOk(grants, e)
  {
    e.at <= grants[e.fencingToken - 1].at + ttl
  }

  /** That is so exactly if the tick enqueues no later than the expiry it was answered. */
  lemma InForceExactly(ttl: int, actions: seq<Action>, id: nat)
    requires ttl >= 0
    requires var s := Run(ttl, Start, actions); id in s.ticks && s.ticks[id].Enqueuing?
    ensures var s := Run(ttl, Start, actions);
            var u := Do(ttl, s, DoEnqueue(id));
            |u.enqueues| == |s.enqueues| + 1 &&
            var e := u.enqueues[|s.enqueues|];
            EnqueueOk(u.grants, e) && (InForce(ttl, u.grants, e) <==> s.clock <= s.ticks[id].lease.expiresAt)
  {
    hide Run;
    Reachable(ttl, actions);
    var s := Run(ttl, Start, actions);
    assert TickOk(ttl, s.grants, s.ticks[id]);
  }

  /**
   * Over every run, with any clocks on the replicas and any pauses: when two replicas enqueue under
   * leases in force, the earlier lease had run out before the later one was granted, and the fencing
   * tokens are in the order of the enqueues.
   */
  lemma EnqueuesExclude(ttl: int, actions: seq<Action>, j: nat, k: nat)
    requires ttl >= 0
    requires j < k < |Run(ttl, Start, actions).enqueues|
    ensures var s := Run(ttl, Start, actions);
            var e, f := s.enqueues[j], s.enqueues[k];
            EnqueueOk(s.grants, e) && EnqueueOk(s.grants, f) &&
            (InForce(ttl, s.grants, e) && InForce(ttl, s.grants, f) && e.replica != f.replica ==>
               && e.fencingToken < f.fencingToken
               && s.grants[e.fencingToken - 1].at + ttl < s.grants[f.fencingToken - 1].at
               && e.at < f.at)
  {
    hide Run;
    Reachable(ttl, actions);
    var s := Run(ttl, Start, actions);
    var e, f := s.enqueues[j], s.enqueues[k];
    assert EnqueueOk(s.grants, e) && EnqueueOk(s.grants, f) && e.at <= f.at;
  }

  /** On the true clock at most one replica may enqueue on the strength of its state. */
  lemma OneMayEnqueue(ttl: int, actions: seq<Action>, a: string, b: string)
    requires ttl >= 0
    requires var s := Run(ttl, Start, actions);
             a in s.states && b in s.states && MayEnqueue(s.states[a], s.clock) && MayEnqueue(s.states[b], s.clock)
    ensures a == b
  {
    hide Run;
    Reachable(ttl, actions);
    var s := Run(ttl, Start, actions);
    var i, j := s.states[a].fencingToken - 1, s.states[b].fencingToken - 1;
    assert s.grants[i].replica == a && s.grants[j].replica == b;
    assert s.grants[i].at <= s.clock && s.grants[j].at <= s.clock;
  }

  // ----- What the guard of a tick can see -----

  /**
   * The guard compares the new expiry with the time the tick began. It turns a granted tick away only
   * when the replica's clock was at least a whole lease ahead of the database's; how long the tick
   * was held up between the grant and the guard makes no difference.
   */
  lemma GuardSeesNoPause(ttl: int, s: System, later: System, id: nat)
    requires id in s.ticks && s.ticks[id].Begun? && Granted(s.row, s.ticks[id].replica, s.clock)
    requires var granted := Do(ttl, s, Acquire(id));
             id in later.ticks && later.ticks[id] == granted.ticks[id]
    ensures var settled := Do(ttl, later, Answer(id));
            id in settled.ticks && (settled.ticks[id].Enqueuing? <==> s.ticks[id].now < s.clock + ttl)
  {
  }

  lemma RunStep(ttl: int, s: System, a: Action, rest: seq<Action>)
    ensures Run(ttl, s, [a] + rest) == Run(ttl, Do(ttl, s, a), rest)
  {
    hide Do;
    assert ([a] + rest)[1..] == rest;
  }

  /** The steps of one tick up to its guard. */
  function UpToGuard(id: nat, replica: string, now: int, rest: seq<Action>): seq<Action>
  {
    [Begin(id, replica, now)] + ([Acquire(id)] + ([Answer(id)] + rest))
  }

  lemma TickReachesGuard(ttl: int, s: System, id: nat, replica: string, rest: seq<Action>)
    requires ttl > 0 && id !in s.ticks && Granted(s.row, replica, s.clock)
    ensures var row := Taken(s.row, replica, ttl, s.clock);
            Run(ttl, s, UpToGuard(id, replica, s.clock, rest))
            == Run(ttl, s.(row := row, states := s.states[replica := Held(row.value.expiresAt, row.value.fencingToken)],
                           ticks := s.ticks[id := Enqueuing(replica, row.value)],
                           grants := s.grants + [Grant(replica, s.clock)]), rest)
  {
    hide Run;
    var row := Taken(s.row, replica, ttl, s.clock);
    var s1 := Do(ttl, s, Begin(id, replica, s.clock));
    var s2 := Do(ttl, s1, Acquire(id));
    var s3 := Do(ttl, s2, Answer(id));
    RunStep(ttl, s, Begin(id, replica, s.clock), [Acquire(id)] + ([Answer(id)] + rest));
    RunStep(ttl, s1, Acquire(id), [Answer(id)] + rest);
    RunStep(ttl, s2, Answer(id), rest);
    assert s3.ticks == s.ticks[id := Enqueuing(replica, row.value)];
  }

  lemma RunNothing(ttl: int, s: System)
    ensures Run(ttl, s, []) == s
  {
  }

  /**
   * A replica held up past its lease behind the guard enqueues all the same, after another replica has
   * taken over and enqueued, and with the smaller token: with the clocks of both replicas exact.
   */
  lemma PausedTickEnqueues(ttl: int) returns (actions: seq<Action>)
    requires ttl > 0
    ensures Run(ttl, Start, actions).enqueues == [Enqueue("b", ttl + 1, 2), Enqueue("a", ttl + 1, 1)]
  {
    hide Run, Do;
    var last := [DoEnqueue(1)] + ([DoEnqueue(0)] + []);
    var middle := [Advance(ttl + 1)] + UpToGuard(1, "b", ttl + 1, last);
    actions := UpToGuard(0, "a", 0, middle);
    TickReachesGuard(ttl, Start, 0, "a", middle);
    var la, lb := Lease("a", ttl, 1), Lease("b", ttl + 1 + ttl, 2);
    var s1 := System(0, Some(la), map[]["a" := Held(ttl, 1)], map[][0 := Enqueuing("a", la)], [Grant("a", 0)], []);
    assert Start.grants + [Grant("a", 0)] == [Grant("a", 0)];
    var s2 := s1.(clock := ttl + 1);
    AdvanceTo(ttl, s1, ttl + 1);
    RunStep(ttl, s1, Advance(ttl + 1), UpToGuard(1, "b", ttl + 1, last));
    TickReachesGuard(ttl, s2, 1, "b", last);
    var s3 := s2.(row := Some(lb), states := s2.states["b" := Held(lb.expiresAt, 2)], ticks := s2.ticks[1 := Enqueuing("b", lb)],
                  grants := s2.grants + [Grant("b", ttl + 1)]);
    EnqueuesBoth(ttl, s3, 1, 0);
  }

  lemma AdvanceTo(ttl: int, s: System, to: int)
    requires to >= s.clock
    ensures Do(ttl, s, Advance(to)) == s.(clock := to)
  {
  }

  lemma EnqueuesBoth(ttl: int, s: System, first: nat, second: nat)
    requires first != second && first in s.ticks && second in s.ticks && s.ticks[first].Enqueuing? && s.ticks[second].Enqueuing?
    requires s.enqueues == []
    ensures var t, u := s.ticks[first], s.ticks[second];
            Run(ttl, s, [DoEnqueue(first)] + ([DoEnqueue(second)] + [])).enqueues
            == [Enqueue(t.replica, s.clock, t.lease.fencingToken), Enqueue(u.replica, s.clock, u.lease.fencingToken)]
  {
    hide Run;
    var s1 := Do(ttl, s, DoEnqueue(first));
    RunStep(ttl, s, DoEnqueue(first), [DoEnqueue(second)] + []);
    RunStep(ttl, s1, DoEnqueue(second), []);
    RunNothing(ttl, Do(ttl, s1, DoEnqueue(second)));
  }

  // ----- The order of fencing tokens -----

  predicate Live(t: Tick) { !t.Finished? }

  /** A replica begins a tick only when its earlier ticks are finished. */
  ghost predicate Serial(ttl: int, s: System, actions: seq<Action>)
    decreases actions
  {
    actions != [] ==>
      && (actions[0].Begin? ==> forall id :: id in s.ticks && s.ticks[id].replica == actions[0].replica ==> !Live(s.ticks[id]))
      && Serial(ttl, Do(ttl, s, actions[0]), actions[1..])
  }

  function LeaseOf(t: Tick): Option<Lease>
  {
    match t case Answered(_, _, grant) => grant case Enqueuing(_, lease) => Some(lease) case _ => None
  }

  predicate OneLive(ticks: map<nat, Tick>)
  {
    forall a, b :: a in ticks && b in ticks && a != b && Live(ticks[a]) && Live(ticks[b]) ==> ticks[a].replica != ticks[b].replica
  }

  /** A lease not yet used is newer than every enqueue of its replica. */
  predicate UnusedIsNewer(ticks: map<nat, Tick>, enqueues: seq<Enqueue>)
  {
    forall id, k :: id in ticks && LeaseOf(ticks[id]).Some? && 0 <= k < |enqueues| && enqueues[k].replica == ticks[id].replica ==>
                      enqueues[k].fencingToken < LeaseOf(ticks[id]).value.fencingToken
  }

  predicate OwnTokensRise(enqueues: seq<Enqueue>)
  {
    forall j, k :: 0 <= j < k < |enqueues| && enqueues[j].replica == enqueues[k].replica ==>
                     enqueues[j].fencingToken < enqueues[k].fencingToken
  }

  predicate SerialInv(s: System) { OneLive(s.ticks) && UnusedIsNewer(s.ticks, s.enqueues) && OwnTokensRise(s.enqueues) }

  lemma AcquireKeepsSerial(ttl: int, s: System, id: nat)
    requires ttl >= 0 && Inv(ttl, s) && SerialInv(s)
    ensures SerialInv(Do(ttl, s, Acquire(id)))
  {
    hide InOrder, Separated, TicksOk, StatesOk, OwnTokensRise;
    var u := Do(ttl, s, Acquire(id));
    assert OneLive(u.ticks);
    forall k | 0 <= k < |s.enqueues| ensures s.enqueues[k].fencingToken <= |s.grants| { assert EnqueueOk(s.grants, s.enqueues[k]); }
  }

  lemma AnswerKeepsSerial(ttl: int, s: System, id: nat)
    requires SerialInv(s)
    ensures SerialInv(Do(ttl, s, Answer(id)))
  {
    hide OwnTokensRise;
    var u := Do(ttl, s, Answer(id));
    assert OneLive(u.ticks);
  }

  lemma EnqueueKeepsSerial(ttl: int, s: System, id: nat)
    requires SerialInv(s)
    ensures SerialInv(Do(ttl, s, DoEnqueue(id)))
  {
    var u := Do(ttl, s, DoEnqueue(id));
    assert OneLive(u.ticks);
  }

  lemma StepKeepsSerial(ttl: int, s: System, a: Action)
    requires ttl >= 0 && Inv(ttl, s) && SerialInv(s)
    requires a.Begin? ==> forall id :: id in s.ticks && s.ticks[id].replica == a.replica ==> !Live(s.ticks[id])
    ensures SerialInv(Do(ttl, s, a))
  {
    hide Inv, OwnTokensRise;
    match a
    case Advance(to) =>
    case Begin(id, replica, now) =>
    case Acquire(id) => AcquireKeepsSerial(ttl, s, id);
    case Answer(id) => AnswerKeepsSerial(ttl, s, id);
    case DoEnqueue(id) => EnqueueKeepsSerial(ttl, s, id);
  }

  lemma {:induction false} RunKeepsSerial(ttl: int, s: System, actions: seq<Action>)
    requires ttl >= 0 && Inv(ttl, s) && SerialInv(s) && Serial(ttl, s, actions)
    ensures SerialInv(Run(ttl, s, actions))
    decreases actions
  {
    hide Inv, SerialInv, Do, Live;
    if actions != [] {
      StepKeepsSerial(ttl, s, actions[0]);
      StepKeepsInv(ttl, s, actions[0]);
      RunKeepsSerial(ttl, Do(ttl, s, actions[0]), actions[1..]);
    }
  }

  /**
   * When no replica overlaps its own ticks and every enqueue happens under a lease in force, the
   * fencing tokens rise strictly along all enqueues of all replicas.
   */
  lemma TokensRise(ttl: int, actions: seq<Action>)
    requires ttl >= 0 && Serial(ttl, Start, actions)
    ensures var s := Run(ttl, Start, actions);
            (forall k :: 0 <= k < |s.enqueues| ==> EnqueueOk(s.grants, s.enqueues[k])) &&
            ((forall k :: 0 <= k < |s.enqueues| ==> InForce(ttl, s.grants, s.enqueues[k])) ==>
               forall j, k :: 0 <= j < k < |s.enqueues| ==> s.enqueues[j].fencingToken < s.enqueues[k].fencingToken)
  {
    hide Run, Serial, InForce;
    RunKeepsSerial(ttl, Start, actions);
    Reachable(ttl, actions);
    var s := Run(ttl, Start, actions);
    forall j, k | 0 <= j < k < |s.enqueues| && InForce(ttl, s.grants, s.enqueues[j]) && InForce(ttl, s.grants, s.enqueues[k])
      ensures s.enqueues[j].fencingToken < s.enqueues[k].fencingToken
    {
      EnqueuesExclude(ttl, actions, j, k);
    }
  }

  /** Ticks of one replica that overlap can enqueue in the other order, with every lease in force. */
  lemma OverlappingTicksReorder(ttl: int) returns (actions: seq<Action>)
    requires ttl > 0
    ensures Run(ttl, Start, actions).enqueues == [Enqueue("a", 0, 2), Enqueue("a", 0, 1)]
  {
    hide Run, Do;
    var last := [DoEnqueue(1)] + ([DoEnqueue(0)] + []);
    var middle := UpToGuard(1, "a", 0, last);
    actions := UpToGuard(0, "a", 0, middle);
    TickReachesGuard(ttl, Start, 0, "a", middle);
    var first, second := Lease("a", ttl, 1), Lease("a", ttl, 2);
    var s1 := System(0, Some(first), map[]["a" := Held(ttl, 1)], map[][0 := Enqueuing("a", first)], [Grant("a", 0)], []);
    assert Start.grants + [Grant("a", 0)] == [Grant("a", 0)];
    TickReachesGuard(ttl, s1, 1, "a", last);
    var s2 := s1.(row := Some(second), states := s1.states["a" := Held(ttl, 2)], ticks := s1.ticks[1 := Enqueuing("a", second)],
                  grants := s1.grants + [Grant("a", 0)]);
    EnqueuesBoth(ttl, s2, 1, 0);
  }

  // ----- The token as evidence -----

  /** Some tick of the replica holds a grant it has not yet written to its state. */
  ghost predicate Unsettled(ticks: map<nat, Tick>, replica: string)
  {
    exists id :: id in ticks && ticks[id].Answered? && ticks[id].replica == replica && ticks[id].grant.Some?
  }

  /** A state knows its replica's grants, up to one that is not yet settled. */
  ghost predicate Known(s: System)
  {
    forall i :: 0 <= i < |s.grants| ==> var a := s.grants[i].replica;
      Unsettled(s.ticks, a) || (a in s.states && (s.states[a].Held? ==> i < s.states[a].fencingToken))
  }

  /** A grant not yet settled is its replica's last. */
  predicate UnsettledIsLast(ticks: map<nat, Tick>, grants: seq<Grant>)
  {
    forall id, i :: id in ticks && ticks[id].Answered? && ticks[id].grant.Some? ==>
      (0 <= i < |grants| && grants[i].replica == ticks[id].replica ==> i < ticks[id].grant.value.fencingToken)
  }

  ghost predicate EvidenceInv(s: System) { OneLive(s.ticks) && Known(s) && UnsettledIsLast(s.ticks, s.grants) }

  lemma StillUnsettled(before: map<nat, Tick>, after: map<nat, Tick>, replica: string)
    requires Unsettled(before, replica)
    requires forall k :: k in before && before[k].Answered? ==> k in after && after[k] == before[k]
    ensures Unsettled(after, replica)
  {
    var k :| k in before && before[k].Answered? && before[k].replica == replica && before[k].grant.Some?;
    assert k in after && after[k] == before[k];
  }

  lemma AcquireKeepsKnown(ttl: int, s: System, id: nat)
    requires Known(s)
    ensures Known(Do(ttl, s, Acquire(id)))
  {
    hide Taken, Granted;
    var u := Do(ttl, s, Acquire(id));
    if id in s.ticks && s.ticks[id].Begun? && Granted(s.row, s.ticks[id].replica, s.clock) {
      assert u.ticks[id].Answered? && u.ticks[id].replica == s.ticks[id].replica;
      forall i | 0 <= i < |u.grants|
        ensures var a := u.grants[i].replica;
                Unsettled(u.ticks, a) || (a in u.states && (u.states[a].Held? ==> i < u.states[a].fencingToken))
      {
        if i < |s.grants| && Unsettled(s.ticks, s.grants[i].replica) { StillUnsettled(s.ticks, u.ticks, s.grants[i].replica); }
        if i == |s.grants| { assert u.ticks[id].grant.Some? by { GrantIsRow(s.row, s.ticks[id].replica, ttl, s.clock); } }
      }
    } else {
      forall a | Unsettled(s.ticks, a) ensures Unsettled(u.ticks, a) { StillUnsettled(s.ticks, u.ticks, a); }
    }
  }

  lemma GrantIsRow(row: Option<Lease>, holder: string, ttl: int, now: int)
    requires Granted(row, holder, now)
    ensures Taken(row, holder, ttl, now).Some?
    ensures Taken(row, holder, ttl, now).value.fencingToken == if row.None? then 1 else row.value.fencingToken + 1
  {
  }

  lemma AcquireKeepsEvidence(ttl: int, s: System, id: nat)
    requires ttl >= 0 && Inv(ttl, s) && EvidenceInv(s)
    ensures EvidenceInv(Do(ttl, s, Acquire(id)))
  {
    hide InOrder, Separated, TicksOk, StatesOk, EnqueuesOk, Known, Taken, Granted;
    AcquireKeepsKnown(ttl, s, id);
    var u := Do(ttl, s, Acquire(id));
    assert OneLive(u.ticks);
    if id in s.ticks && s.ticks[id].Begun? && Granted(s.row, s.ticks[id].replica, s.clock) {
      GrantIsRow(s.row, s.ticks[id].replica, ttl, s.clock);
    }
  }

  lemma AnswerKeepsEvidence(ttl: int, s: System, id: nat)
    requires EvidenceInv(s)
    ensures EvidenceInv(Do(ttl, s, Answer(id)))
  {
    var u := Do(ttl, s, Answer(id));
    assert OneLive(u.ticks);
    if id in s.ticks && s.ticks[id].Answered? {
      var a := s.ticks[id].replica;
      forall b | b != a && Unsettled(s.ticks, b) ensures Unsettled(u.ticks, b) {
        var k :| k in s.ticks && s.ticks[k].Answered? && s.ticks[k].replica == b && s.ticks[k].grant.Some?;
        assert k in u.ticks && u.ticks[k] == s.ticks[k];
      }
    }
  }

  lemma OtherStepKeepsEvidence(ttl: int, s: System, a: Action)
    requires EvidenceInv(s) && (a.Advance? || a.DoEnqueue? || a.Begin?)
    requires a.Begin? ==> forall id :: id in s.ticks && s.ticks[id].replica == a.replica ==> !Live(s.ticks[id])
    ensures EvidenceInv(Do(ttl, s, a))
  {
    hide Unsettled;
    var u := Do(ttl, s, a);
    assert OneLive(u.ticks);
    forall b | Unsettled(s.ticks, b) ensures Unsettled(u.ticks, b) { StillUnsettled(s.ticks, u.ticks, b); }
  }

  lemma {:induction false} RunKeepsEvidence(ttl: int, s: System, actions: seq<Action>)
    requires ttl >= 0 && Inv(ttl, s) && EvidenceInv(s) && Serial(ttl, s, actions)
    ensures EvidenceInv(Run(ttl, s, actions))
    decreases actions
  {
    hide Inv, EvidenceInv, Do, Live;
    if actions != [] {
      match actions[0] {
        case Acquire(id) => AcquireKeepsEvidence(ttl, s, id);
        case Answer(id) => AnswerKeepsEvidence(ttl, s, id);
        case _ => OtherStepKeepsEvidence(ttl, s, actions[0]);
      }
      StepKeepsInv(ttl, s, actions[0]);
      RunKeepsEvidence(ttl, Do(ttl, s, actions[0]), actions[1..]);
    }
  }

  /**
   * When no replica overlaps its own ticks, a replica that has settled its last grant is fenced exactly
   * if another replica has been granted the lease since.
   */
  lemma FencedMeansTakenOver(ttl: int, actions: seq<Action>, a: string)
    requires ttl >= 0 && Serial(ttl, Start, actions)
    requires var s := Run(ttl, Start, actions); a in s.states && s.states[a].Held? && !Unsettled(s.ticks, a)
    ensures var s := Run(ttl, Start, actions);
            s.row.Some? && (WasFenced(s.states[a], s.row.value.fencingToken)
                            <==> exists i :: s.states[a].fencingToken <= i < |s.grants| && s.grants[i].replica != a)
  {
    hide Run, Serial;
    RunKeepsEvidence(ttl, Start, actions);
    Reachable(ttl, actions);
    var s := Run(ttl, Start, actions);
    var token := s.states[a].fencingToken;
    assert Genuine(ttl, s.grants, a, s.states[a].expiresAt, token);
    if token < |s.grants| { assert s.grants[token].replica != a; }
  }

  /** Until a renewal is settled the token says taken over, though the replica itself took the lease again. */
  lemma RenewalLooksFenced(ttl: int, s: System, id: nat)
    requires id in s.ticks && s.ticks[id].Begun?
    requires var a := s.ticks[id].replica;
             s.row.Some? && s.row.value.holder == a && a in s.states && s.states[a].Held?
             && s.states[a].fencingToken == s.row.value.fencingToken
    ensures var a, u := s.ticks[id].replica, Do(ttl, s, Acquire(id));
            u.row.Some? && u.row.value.holder == a && a in u.states && WasFenced(u.states[a], u.row.value.fencingToken)
  {
  }

  // ----- The timing of renewals -----

  /** `renewIntervalMs`. */
  function RenewIntervalMs(timing: LeaseTiming): int
  {
    var ms := (timing.ttlSeconds as real * timing.renewAt * 1000.0).Floor;
    if ms < 1 then 1 else ms
  }

  predicate RenewalDue(state: LeaseState, now: int, timing: LeaseTiming)
  {
    state.Held? && (state.expiresAt - now) as real <= timing.ttlSeconds as real * (1.0 - timing.renewAt) * 1000.0
  }

  /** A renewal is due exactly from the renewal share of the lease on. */
  lemma RenewalDueExactly(grantedAt: int, token: nat, now: int, timing: LeaseTiming)
    ensures RenewalDue(Held(grantedAt + timing.ttlSeconds * 1000, token), now, timing)
            <==> (now - grantedAt) as real >= timing.ttlSeconds as real * timing.renewAt * 1000.0
  {
    var t := timing.ttlSeconds as real;
    assert t * (1.0 - timing.renewAt) == t - t * timing.renewAt;
  }

  /** The interval is the share of the lease in whole milliseconds, and never less than one. */
  lemma RenewIntervalExactly(timing: LeaseTiming, share: real)
    requires share == timing.ttlSeconds as real * timing.renewAt * 1000.0
    ensures var ms := RenewIntervalMs(timing) as real;
            if share < 1.0 then ms == 1.0 else ms <= share < ms + 1.0
    ensures RenewIntervalMs(DEFAULT_LEASE) == 10000
  {
    WholePart(share);
    assert 30.0 * (1.0 / 3.0) * 1000.0 == 10000.0;
  }

  lemma WholePart(x: real)
    ensures x.Floor as real <= x < x.Floor as real + 1.0
  {
  }

  /** Renewing at a third is not hurried: less than three milliseconds of the lease are left over by three intervals. */
  lemma ThirdsAreLong(ttlSeconds: nat)
    requires ttlSeconds >= 1
    ensures 3 * RenewIntervalMs(LeaseTiming(ttlSeconds, 1.0 / 3.0)) > ttlSeconds * 1000 - 3
  {
    hide RenewIntervalMs;
    var share := ttlSeconds as real * (1.0 / 3.0) * 1000.0;
    RenewIntervalExactly(LeaseTiming(ttlSeconds, 1.0 / 3.0), share);
    assert 3.0 * share == ttlSeconds as real * 1000.0;
  }

  /** Three renewal intervals fit into the lease. */
  lemma ThreeIntervalsFit(ttlSeconds: nat)
    requires ttlSeconds >= 1
    ensures 3 * RenewIntervalMs(LeaseTiming(ttlSeconds, 1.0 / 3.0)) <= ttlSeconds * 1000
  {
    var share := ttlSeconds as real * (1.0 / 3.0) * 1000.0;
    assert share.Floor as real <= share;
    assert 3.0 * share == ttlSeconds as real * 1000.0;
  }

  /**
   * Renewing at a third of the lease leaves room for two failures: over every run, no other replica is
   * granted the lease between a grant and the time of the third renewal behind it.
   */
  lemma TwoRenewalsMayFail(ttlSeconds: nat, actions: seq<Action>, i: nat, j: nat)
    requires ttlSeconds >= 1
    requires var s := Run(ttlSeconds * 1000, Start, actions);
             i < j < |s.grants| && s.grants[i].replica != s.grants[j].replica
    ensures var s := Run(ttlSeconds * 1000, Start, actions);
            s.grants[j].at > s.grants[i].at + 3 * RenewIntervalMs(LeaseTiming(ttlSeconds, 1.0 / 3.0))
  {
    hide Run, RenewIntervalMs;
    Reachable(ttlSeconds * 1000, actions);
    ThreeIntervalsFit(ttlSeconds);
  }
}
