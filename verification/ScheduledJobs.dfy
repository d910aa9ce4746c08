/**
 * The second line of defence behind the lease: enqueueing what is due records the time on the job's row
 * in the same transaction (packages/persistence/src/relay/scheduled-jobs.ts:26-106), so replicas that
 * enqueue without the lease, late or with a clock that is behind still cannot enqueue a job twice
 * within its interval.
 */
module ScheduledJobs {
  import opened Options

  datatype Job = Job(enabled: bool, interval: int, last: Option<int>)

  /**
   * What replicas do to the table: register a job, or enqueue what is due by a replica's own time,
   * leaving out the rows another transaction has locked.
   */
  datatype Step = Register(name: string, enabled: bool, interval: int) | EnqueueDue(now: int, locked: set<string>)

  predicate Due(job: Job, now: int)
  {
    job.enabled && (job.last.None? || job.last.value + job.interval <= now)
  }

  function After(jobs: map<string, Job>, step: Step): map<string, Job>
  {
    match step
    case Register(name, enabled, interval) =>
      jobs[name := Job(enabled, interval, if name in jobs then jobs[name].last else None)]
    case EnqueueDue(now, locked) =>
      map n | n in jobs :: if n !in locked && Due(jobs[n], now) then jobs[n].(last := Some(now)) else jobs[n]
  }

  /** An enqueue of a job: the time it was stamped with and the interval in force. */
  datatype Stamp = Stamp(now: int, interval: int)

  function StampsOf(jobs: map<string, Job>, name: string, step: Step): seq<Stamp>
  {
    if step.EnqueueDue? && name in jobs && name !in step.locked && Due(jobs[name], step.now)
    then [Stamp(step.now, jobs[name].interval)] else []
  }

  /** Every enqueue of one job over a run. */
  function Stamps(jobs: map<string, Job>, name: string, steps: seq<Step>): seq<Stamp>
    decreases steps
  {
    if steps == [] then [] else StampsOf(jobs, name, steps[0]) + Stamps(After(jobs, steps[0]), name, steps[1..])
  }

  /** Each stamp is at least the interval then in force behind the one before it. */
  predicate Spaced(stamps: seq<Stamp>)
  {
    forall k :: 0 < k < |stamps| ==> stamps[k - 1].now + stamps[k].interval <= stamps[k].now
  }

  /** The first stamp to come keeps its distance from the one on the row. */
  lemma {:induction false} StampsSpaced(jobs: map<string, Job>, name: string, steps: seq<Step>)
    ensures var stamps := Stamps(jobs, name, steps);
            && Spaced(stamps)
            && (stamps != [] && name in jobs && jobs[name].last.Some? ==>
                  jobs[name].last.value + stamps[0].interval <= stamps[0].now)
    decreases steps
  {
    if steps != [] {
      StampsSpaced(After(jobs, steps[0]), name, steps[1..]);
    }
  }

  predicate Interval(steps: seq<Step>, name: string, interval: int)
  {
    forall k :: 0 <= k < |steps| && steps[k].Register? && steps[k].name == name ==> steps[k].interval == interval
  }

  lemma {:induction false} StampsAtInterval(jobs: map<string, Job>, name: string, steps: seq<Step>, interval: int)
    requires Interval(steps, name, interval) && (name in jobs ==> jobs[name].interval == interval)
    ensures forall k :: 0 <= k < |Stamps(jobs, name, steps)| ==> Stamps(jobs, name, steps)[k].interval == interval
    decreases steps
  {
    if steps != [] {
      assert forall k :: 0 <= k < |steps[1..]| ==> steps[1..][k] == steps[k + 1];
      StampsAtInterval(After(jobs, steps[0]), name, steps[1..], interval);
    }
  }

  lemma {:induction false} SpacedApart(stamps: seq<Stamp>, interval: int, j: nat, k: nat)
    requires Spaced(stamps) && interval >= 0 && j < k < |stamps|
    requires forall i :: 0 <= i < |stamps| ==> stamps[i].interval == interval
    ensures stamps[j].now + (k - j) * interval <= stamps[k].now
    decreases k
  {
    if j < k - 1 {
      SpacedApart(stamps, interval, j, k - 1);
      assert (k - j) * interval == (k - 1 - j) * interval + interval;
    }
  }

  /**
   * Whatever replicas enqueue, in whatever order and with whatever clocks: the k-th enqueue of a job
   * is stamped at least k whole intervals behind the first, so a job is never enqueued twice within one.
   */
  lemma OncePerInterval(name: string, steps: seq<Step>, interval: int, j: nat, k: nat)
    requires interval >= 0 && Interval(steps, name, interval)
    requires j < k < |Stamps(map[], name, steps)|
    ensures Stamps(map[], name, steps)[j].now + (k - j) * interval <= Stamps(map[], name, steps)[k].now
  {
    hide Stamps;
    StampsSpaced(map[], name, steps);
    StampsAtInterval(map[], name, steps, interval);
    SpacedApart(Stamps(map[], name, steps), interval, j, k);
  }

  // ----- What is enqueued -----

  lemma {:induction false} StampsMore(jobs: map<string, Job>, name: string, steps: seq<Step>, step: Step)
    ensures Stamps(jobs, name, steps + [step]) == Stamps(jobs, name, steps) + StampsOf(Later(jobs, steps), name, step)
    decreases steps
  {
    hide After, StampsOf;
    if steps == [] {
      assert steps + [step] == [step] && [step][1..] == [];
    } else {
      StampsMore(After(jobs, steps[0]), name, steps[1..], step);
      assert (steps + [step])[1..] == steps[1..] + [step] && (steps + [step])[0] == steps[0];
    }
  }

  function Later(jobs: map<string, Job>, steps: seq<Step>): map<string, Job>
    decreases steps
  {
    if steps == [] then jobs else Later(After(jobs, steps[0]), steps[1..])
  }

  lemma {:induction false} LaterMore(jobs: map<string, Job>, steps: seq<Step>, step: Step)
    ensures Later(jobs, steps + [step]) == After(Later(jobs, steps), step)
    decreases steps
  {
    hide After;
    if steps == [] {
      assert steps + [step] == [step] && [step][1..] == [];
    } else {
      LaterMore(After(jobs, steps[0]), steps[1..], step);
      assert (steps + [step])[1..] == steps[1..] + [step] && (steps + [step])[0] == steps[0];
    }
  }

  /** The last registration of a job is its `r`-th step. */
  predicate RegisteredAt(steps: seq<Step>, name: string, r: nat)
  {
    r < |steps| && steps[r].Register? && steps[r].name == name
    && forall k :: r < k < |steps| ==> !(steps[k].Register? && steps[k].name == name)
  }

  /** The row of a job: its last registration, and the time of its last enqueue. */
  lemma {:induction false} RowExactly(steps: seq<Step>, name: string)
    ensures var jobs := Later(map[], steps);
            && (name in jobs <==> exists r: nat :: RegisteredAt(steps, name, r))
            && (forall r: nat :: RegisteredAt(steps, name, r) ==>
                  name in jobs && jobs[name].enabled == steps[r].enabled && jobs[name].interval == steps[r].interval)
            && (name in jobs ==>
                  var stamps := Stamps(map[], name, steps);
                  jobs[name].last == if stamps == [] then None else Some(stamps[|stamps| - 1].now))
            && (name !in jobs ==> Stamps(map[], name, steps) == [])
  {
    hide Due;
    if steps != [] {
      var n := |steps| - 1;
      var front, step := steps[..n], steps[n];
      assert steps == front + [step];
      RowExactly(front, name);
      LaterMore(map[], front, step);
      StampsMore(map[], name, front, step);
      RegistrationMoves(front, step, name);
    }
  }

  lemma RegistrationMoves(front: seq<Step>, step: Step, name: string)
    ensures step.Register? && step.name == name ==> RegisteredAt(front + [step], name, |front|)
                                                    && forall r: nat :: RegisteredAt(front + [step], name, r) ==> r == |front|
    ensures !(step.Register? && step.name == name) ==>
              forall r: nat :: RegisteredAt(front + [step], name, r) <==> RegisteredAt(front, name, r)
  {
    var steps := front + [step];
    assert forall k :: 0 <= k < |front| ==> steps[k] == front[k];
    assert steps[|front|] == step;
  }

  /**
   * A job is enqueued exactly if it is registered, its last registration has it enabled, no other
   * transaction holds its row, and its interval has passed since its last enqueue, if it had one.
   */
  lemma EnqueuedExactly(steps: seq<Step>, name: string, now: int, locked: set<string>)
    ensures var stamps := Stamps(map[], name, steps);
            var more := Stamps(map[], name, steps + [EnqueueDue(now, locked)]);
            && (forall r: nat :: RegisteredAt(steps, name, r) && steps[r].enabled && name !in locked
                                 && (stamps == [] || stamps[|stamps| - 1].now + steps[r].interval <= now)
                                 ==> more == stamps + [Stamp(now, steps[r].interval)])
            && (more != stamps ==>
                  name !in locked && exists r: nat :: RegisteredAt(steps, name, r) && steps[r].enabled
                                              && (stamps == [] || stamps[|stamps| - 1].now + steps[r].interval <= now))
  {
    hide RegisteredAt, After;
    RowExactly(steps, name);
    StampsMore(map[], name, steps, EnqueueDue(now, locked));
    var stamps := Stamps(map[], name, steps);
    assert stamps + [] == stamps;
  }
}
