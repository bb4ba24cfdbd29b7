/**
 Coordination of cache misses
 (packages/runner/src/execution-cache/execution-cache-run-coordinator.ts): of the runs that need
 the same cache entry, one evaluates under a lease while the others wait for what it publishes.

 The coordination interface is an atomic register of a lease and a revision.  A lease can expire
 between any two steps, and each operation of a run is one step.
 */
module RunCoordinator {
  import opened Wrappers

  type RunId = nat
  type Revision = nat

  // `baseline` is the revision at the time the lease was granted.
  datatype Lease = Lease(owner: RunId, baseline: Option<Revision>)

  datatype How = Replayed | ReusedTerminal | WaitEnded | Completed | LostOwnership | Threw

  datatype Pc =
    | Starting                                                    // has not read the current revision yet
    | Acquiring                                                   // at the head of the loop
    | Waiting(owner: RunId, baseline: Option<Revision>)           // another run holds the lease
    | Leased                                                      // acquired, current revision not read yet
    | Cleared                                                     // read it, nothing newer: about to evaluate
    | Evaluating
    | Ending(how: How)                                            // in the finally block
    | Done(how: How)

  datatype State = State(
    lease: Option<Lease>,
    revision: Option<Revision>,
    observed: map<RunId, Option<Revision>>,
    pcs: map<RunId, Pc>)
  {
    function PcOf(r: RunId): Pc {
      if r in pcs then pcs[r] else Starting
    }

    function With(r: RunId, pc: Pc): State {
      this.(pcs := pcs[r := pc])
    }

    predicate Owns(r: RunId) {
      lease.Some? && lease.value.owner == r
    }

    /** The revision that a run saw before it asked for the lease. */
    function ObservedBy(r: RunId): Option<Revision> {
      if r in observed then observed[r] else None
    }
  }

  datatype Step =
    | Observe(r: RunId)
    | Acquire(r: RunId)
    | EndWait(r: RunId)                        // timed out or cancelled
    | Released(r: RunId, terminal: bool)       // the awaited lease is gone; `terminal`: its outcome is reusable
    | ReadCurrent(r: RunId)
    | StartEvaluation(r: RunId)
    | LoseOwnership(r: RunId)                  // the heartbeat found the lease gone
    | Publish(r: RunId)                        // completeOwner, publishing an entry
    | Complete(r: RunId)                       // completeOwner, recording a terminal outcome or nothing
    | Throw(r: RunId)
    | Release(r: RunId)
    | Expire

  const Initial := State(None, None, map[], map[])

  function NextRevision(revision: Option<Revision>): Revision {
    if revision.Some? then revision.value + 1 else 1
  }

  /** The state after a step, if the step can happen.  Replaying a published entry succeeds. */
  function Apply(s: State, step: Step): Option<State> {
    match step
    case Expire => Some(s.(lease := None))
    case Observe(r) =>
      if s.PcOf(r).Starting? then Some(s.With(r, Acquiring).(observed := s.observed[r := s.revision])) else None
    case Acquire(r) =>
      if !s.PcOf(r).Acquiring? then None
      else if s.lease.None? then Some(s.With(r, Leased).(lease := Some(Lease(r, s.revision))))
      else Some(s.With(r, Waiting(s.lease.value.owner, s.lease.value.baseline)))
    case EndWait(r) =>
      if s.PcOf(r).Waiting? then Some(s.With(r, Done(WaitEnded))) else None
    case Released(r, terminal) =>
      if !s.PcOf(r).Waiting? || s.Owns(s.PcOf(r).owner) then None
      else if s.revision != s.PcOf(r).baseline then Some(s.With(r, Done(Replayed)))
      else Some(s.With(r, if terminal then Done(ReusedTerminal) else Acquiring))
    case ReadCurrent(r) =>
      if !s.PcOf(r).Leased? then None
      else Some(s.With(r, if s.revision.Some? && s.revision != s.ObservedBy(r) then Ending(Replayed) else Cleared))
    case StartEvaluation(r) =>
      if s.PcOf(r).Cleared? then Some(s.With(r, Evaluating)) else None
    case LoseOwnership(r) =>
      if s.PcOf(r).Evaluating? && !s.Owns(r) then Some(s.With(r, Ending(LostOwnership))) else None
    case Publish(r) =>
      if !s.PcOf(r).Evaluating? then None
      else if s.Owns(r) && s.lease.value.baseline == s.revision
      then Some(s.With(r, Ending(Completed)).(lease := None, revision := Some(NextRevision(s.revision))))
      else if s.Owns(r) then Some(s.With(r, Ending(Completed)).(lease := None))
      else Some(s.With(r, Ending(Completed)))
    case Complete(r) =>
      if !s.PcOf(r).Evaluating? then None
      else Some(s.With(r, Ending(Completed)).(lease := if s.Owns(r) then None else s.lease))
    case Throw(r) =>
      if s.PcOf(r).Leased? || s.PcOf(r).Cleared? || s.PcOf(r).Evaluating? then Some(s.With(r, Ending(Threw))) else None
    case Release(r) =>
      if !s.PcOf(r).Ending? then None
      else Some(s.With(r, Done(s.PcOf(r).how)).(lease := if s.Owns(r) then None else s.lease))
  }

  function Run(steps: seq<Step>): Option<State> {
    if steps == [] then Some(Initial)
    else
      match Run(steps[..|steps| - 1])
      case None => None
      case Some(s) => Apply(s, steps[|steps| - 1])
  }

  // ---------------------------------------------------------------- invariants

  /** A run that has acquired a lease and not given it back. */
  predicate InLease(pc: Pc) {
    pc.Leased? || pc.Cleared? || pc.Evaluating? || pc.Ending?
  }

  function Number(revision: Option<Revision>): nat {
    if revision.Some? then revision.value + 1 else 0
  }

  ghost predicate Inv(s: State) {
    // the lease belongs to a run that is still inside it, and starts from the current revision
    && (s.lease.Some? ==> InLease(s.PcOf(s.lease.value.owner)) && s.lease.value.baseline == s.revision)
    // nobody has seen a revision of the future
    && (forall r :: Number(s.ObservedBy(r)) <= Number(s.revision))
    // a run that is about to evaluate, and still owns the lease, has seen the current revision
    && (forall r :: (s.PcOf(r).Cleared? || s.PcOf(r).Evaluating?) && s.Owns(r) && s.revision.Some? ==>
          s.ObservedBy(r) == s.revision)
  }

  lemma {:induction false} RunKeepsInv(steps: seq<Step>)
    requires Run(steps).Some?
    ensures Inv(Run(steps).value)
  {
    if steps != [] {
      RunKeepsInv(steps[..|steps| - 1]);
      StepKeepsInv(Run(steps[..|steps| - 1]).value, steps[|steps| - 1]);
    }
  }

  /** A step moves its own run only. */
  lemma StepFrame(s: State, step: Step, v: RunId)
    requires Apply(s, step).Some?
    ensures
      var t := Apply(s, step).value;
      && (step.Expire? || v != step.r ==> t.PcOf(v) == s.PcOf(v) && t.ObservedBy(v) == s.ObservedBy(v))
      && (!step.Observe? ==> t.ObservedBy(v) == s.ObservedBy(v))
  {
  }

  /** What a step does to the register. */
  lemma RegisterFrame(s: State, step: Step)
    requires Inv(s) && Apply(s, step).Some?
    ensures
      var t := Apply(s, step).value;
      && (t.lease.Some? && t.lease != s.lease ==> step.Acquire? && t.lease == Some(Lease(step.r, s.revision)))
      && (t.revision != s.revision ==>
            && step.Publish? && s.Owns(step.r) && t.lease.None? && Number(t.revision) > Number(s.revision)
            && t.revision == Some(NextRevision(s.revision)))
  {
  }

  lemma StepKeepsInv(s: State, step: Step)
    requires Inv(s) && Apply(s, step).Some?
    ensures Inv(Apply(s, step).value)
  {
    var t := Apply(s, step).value;
    RegisterFrame(s, step);
    if t.lease.Some? {
      StepFrame(s, step, t.lease.value.owner);
    }
    forall r ensures Number(t.ObservedBy(r)) <= Number(t.revision) {
      StepFrame(s, step, r);
    }
    forall r | (t.PcOf(r).Cleared? || t.PcOf(r).Evaluating?) && t.Owns(r) && t.revision.Some?
      ensures t.ObservedBy(r) == t.revision
    {
      StepFrame(s, step, r);
    }
  }

  // ---------------------------------------------------------------- what is published and replayed

  /** How many publications of the run took effect. */
  ghost function Publications(steps: seq<Step>): nat
    requires Run(steps).Some?
  {
    if steps == [] then 0
    else
      var before := steps[..|steps| - 1];
      Publications(before) + (if Run(before).value.revision != Run(steps).value.revision then 1 else 0)
  }

  /** Revisions are the numbers of publications: each that takes effect is the next one. */
  lemma {:induction false} RevisionCountsPublications(steps: seq<Step>)
    requires Run(steps).Some?
    ensures Run(steps).value.revision == if Publications(steps) == 0 then None else Some(Publications(steps))
  {
    if steps != [] {
      hide Apply, Inv;
      var before := steps[..|steps| - 1];
      RevisionCountsPublications(before);
      RunKeepsInv(before);
      RegisterFrame(Run(before).value, steps[|steps| - 1]);
    }
  }

  /** Something newer was published than a run has seen, when it replays; and than a waiter knows of, or nothing yet. */
  ghost predicate ReplaysNewer(s: State) {
    && (forall r :: s.PcOf(r) == Ending(Replayed) || s.PcOf(r) == Done(Replayed) ==>
          Number(s.revision) > Number(s.ObservedBy(r)))
    && (forall r :: s.PcOf(r).Waiting? ==>
          Number(s.ObservedBy(r)) <= Number(s.PcOf(r).baseline) <= Number(s.revision))
    && (forall r :: s.PcOf(r).Starting? ==> s.ObservedBy(r).None?)
  }

  lemma StepReplaysNewer(s: State, step: Step)
    requires Inv(s) && ReplaysNewer(s) && Apply(s, step).Some?
    ensures ReplaysNewer(Apply(s, step).value)
  {
    var t := Apply(s, step).value;
    RegisterFrame(s, step);
    forall r
      ensures t.PcOf(r) == Ending(Replayed) || t.PcOf(r) == Done(Replayed) ==>
        Number(t.revision) > Number(t.ObservedBy(r))
      ensures t.PcOf(r).Waiting? ==>
        Number(t.ObservedBy(r)) <= Number(t.PcOf(r).baseline) <= Number(t.revision)
      ensures t.PcOf(r).Starting? ==> t.ObservedBy(r).None?
    {
      StepFrame(s, step, r);
    }
  }

  /** In every reachable state, a run that replays does so because something newer was published than it observed. */
  lemma {:induction false} ReplayedBecauseNewer(steps: seq<Step>, r: RunId)
    requires Run(steps).Some?
    ensures ReplaysNewer(Run(steps).value)
    ensures
      var s := Run(steps).value;
      s.PcOf(r) == Done(Replayed) ==> Number(s.revision) > Number(s.ObservedBy(r))
  {
    if steps != [] {
      var before := steps[..|steps| - 1];
      ReplayedBecauseNewer(before, r);
      RunKeepsInv(before);
      StepReplaysNewer(Run(before).value, steps[|steps| - 1]);
    }
  }

  /**
   A waiter whose lease is gone replays exactly when something was published since that lease was
   granted; otherwise it takes over a terminal outcome if it can, or asks for the lease itself.
   */
  lemma ReleasedExactly(steps: seq<Step>, r: RunId, terminal: bool)
    requires Run(steps).Some? && Apply(Run(steps).value, Released(r, terminal)).Some?
    ensures
      var s, t := Run(steps).value, Apply(Run(steps).value, Released(r, terminal)).value;
      && s.PcOf(r).Waiting?
      && (t.PcOf(r) == Done(Replayed) <==> Number(s.revision) > Number(s.PcOf(r).baseline))
      && (t.PcOf(r) == Done(ReusedTerminal) <==> Number(s.revision) == Number(s.PcOf(r).baseline) && terminal)
      && (t.PcOf(r) == Acquiring <==> Number(s.revision) == Number(s.PcOf(r).baseline) && !terminal)
  {
    ReplayedBecauseNewer(steps, r);
  }

  /** What an evaluation made is published exactly when its run still owns the lease, which is then given back. */
  lemma PublishesExactlyWhenOwner(steps: seq<Step>, r: RunId)
    requires Run(steps).Some? && Run(steps).value.PcOf(r).Evaluating?
    ensures Apply(Run(steps).value, Publish(r)).Some?
    ensures
      var s, t := Run(steps).value, Apply(Run(steps).value, Publish(r)).value;
      && t.PcOf(r) == Ending(Completed) && !t.Owns(r)
      && t.lease == (if s.Owns(r) then None else s.lease)
      && (if s.Owns(r) then Number(t.revision) > Number(s.revision) else t.revision == s.revision)
  {
    RunKeepsInv(steps);
  }

  predicate GoesOn(s: State, step: Step, r: RunId) {
    && !step.Expire? && step.r == r && !step.EndWait? && !step.LoseOwnership? && !step.Throw?
    && Apply(s, step).Some? && Apply(s, step).value.PcOf(r) != s.PcOf(r)
  }

  /** A run that is not done can go on, without giving up or failing, unless it waits for a lease that is still held. */
  lemma RunGoesOn(s: State, r: RunId)
    requires !s.PcOf(r).Done?
    ensures (exists step :: GoesOn(s, step, r)) <==> !(s.PcOf(r).Waiting? && s.Owns(s.PcOf(r).owner))
  {
    match s.PcOf(r)
    case Starting => assert GoesOn(s, Observe(r), r);
    case Acquiring => assert GoesOn(s, Acquire(r), r);
    case Waiting(owner, _) => assert s.Owns(owner) || GoesOn(s, Released(r, false), r);
    case Leased => assert GoesOn(s, ReadCurrent(r), r);
    case Cleared => assert GoesOn(s, StartEvaluation(r), r);
    case Evaluating => assert GoesOn(s, Publish(r), r);
    case Ending(_) => assert GoesOn(s, Release(r), r);
  }

  // ---------------------------------------------------------------- single flight

  lemma {:induction false} RevisionsOnlyGrow(steps: seq<Step>, i: nat)
    requires i <= |steps| && Run(steps).Some?
    ensures Run(steps[..i]).Some? && Number(Run(steps[..i]).value.revision) <= Number(Run(steps).value.revision)
    decreases |steps|
  {
    if i == |steps| {
      assert steps[..i] == steps;
    } else {
      var before := steps[..|steps| - 1];
      RevisionsOnlyGrow(before, i);
      assert before[..i] == steps[..i];
      RunKeepsInv(before);
      RegisterFrame(Run(before).value, steps[|steps| - 1]);
    }
  }

  /**
   Single flight: once a revision newer than the one a run observed has been published, that run
   does not start an evaluation while it owns the lease, in any interleaving.
   */
  lemma NoStaleEvaluation(steps: seq<Step>, i: nat, r: RunId)
    requires i <= |steps| && Run(steps).Some? && Apply(Run(steps).value, StartEvaluation(r)).Some?
    requires Run(steps[..i]).Some? && Number(Run(steps[..i]).value.revision) > Number(Run(steps).value.ObservedBy(r))
    ensures !Run(steps).value.Owns(r)
  {
    RunKeepsInv(steps);
    RevisionsOnlyGrow(steps, i);
  }

  /** Every lease that was acquired is given back on every path: a finished run owns nothing. */
  lemma FinishedRunsOwnNothing(steps: seq<Step>, r: RunId)
    requires Run(steps).Some? && Run(steps).value.PcOf(r).Done?
    ensures !Run(steps).value.Owns(r)
  {
    RunKeepsInv(steps);
  }

  ghost predicate NeverExpires(steps: seq<Step>) {
    forall i :: 0 <= i < |steps| ==> !steps[i].Expire?
  }

  predicate AtWork(pc: Pc) {
    pc.Leased? || pc.Cleared? || pc.Evaluating?
  }

  /** As long as no lease expires, whoever works owns the lease: one run at a time. */
  lemma {:induction false} OneRunAtWork(steps: seq<Step>)
    requires Run(steps).Some? && NeverExpires(steps)
    ensures forall r :: AtWork(Run(steps).value.PcOf(r)) ==> Run(steps).value.Owns(r)
  {
    if steps != [] {
      var before, step := steps[..|steps| - 1], steps[|steps| - 1];
      OneRunAtWork(before);
      var s, t := Run(before).value, Run(steps).value;
      forall r | AtWork(t.PcOf(r)) ensures t.Owns(r) {
        StepFrame(s, step, r);
      }
    }
  }

  /**
   With leases that never expire, a run that observed an older revision cannot start an evaluation
   at all once a newer one was published, and no two runs are at work.
   */
  lemma SingleFlight(steps: seq<Step>, i: nat, r: RunId, q: RunId)
    requires i <= |steps| && Run(steps).Some? && NeverExpires(steps) && Run(steps[..i]).Some?
    ensures Number(Run(steps[..i]).value.revision) > Number(Run(steps).value.ObservedBy(r)) ==>
      Apply(Run(steps).value, StartEvaluation(r)).None?
    ensures AtWork(Run(steps).value.PcOf(r)) && AtWork(Run(steps).value.PcOf(q)) ==> r == q
  {
    OneRunAtWork(steps);
    var s := Run(steps).value;
    assert AtWork(s.PcOf(r)) ==> s.Owns(r);
    assert AtWork(s.PcOf(q)) ==> s.Owns(q);
    if Number(Run(steps[..i]).value.revision) > Number(s.ObservedBy(r)) && Apply(s, StartEvaluation(r)).Some? {
      NoStaleEvaluation(steps, i, r);
    }
  }

  // ---------------------------------------------------------------- exactly which evaluations are stale

  /** Step i is another run's publication that takes effect, and the run has not read the revision since. */
  ghost predicate Overtakes(steps: seq<Step>, r: RunId, i: nat) {
    && i < |steps| && steps[i].Publish? && steps[i].r != r
    && Run(steps[..i]).Some? && Run(steps[..i + 1]).Some?
    && Run(steps[..i + 1]).value.revision != Run(steps[..i]).value.revision
    && forall j :: i < j < |steps| ==> steps[j] != ReadCurrent(r)
  }

  lemma OvertakenOneMore(steps: seq<Step>, r: RunId, i: nat)
    requires steps != []
    ensures i < |steps| - 1 ==>
      (Overtakes(steps, r, i) <==> Overtakes(steps[..|steps| - 1], r, i) && steps[|steps| - 1] != ReadCurrent(r))
  {
    var before := steps[..|steps| - 1];
    if i < |before| {
      assert before[..i] == steps[..i] && before[..i + 1] == steps[..i + 1];
      hide Run;
      assert forall j :: i < j < |before| ==> before[j] == steps[j];
    }
  }

  lemma {:induction false} BehindExactlyWhenOvertaken(steps: seq<Step>, r: RunId)
    requires Run(steps).Some? && Run(steps).value.PcOf(r).Cleared?
    ensures Number(Run(steps).value.revision) > Number(Run(steps).value.ObservedBy(r))
       <==> exists i :: Overtakes(steps, r, i)
  {
    var n := |steps| - 1;
    var before, step := steps[..n], steps[n];
    RunKeepsInv(before);
    ClearedStep(Run(before).value, step, r);
    forall i: nat ensures
      i < n ==> (Overtakes(steps, r, i) <==> Overtakes(before, r, i) && step != ReadCurrent(r))
    {
      OvertakenOneMore(steps, r, i);
    }
    LastOvertakes(steps, r);
    hide Run, Overtakes, Apply, Inv;
    if step != ReadCurrent(r) {
      BehindExactlyWhenOvertaken(before, r);
      if Run(steps).value.revision != Run(before).value.revision {
        assert Overtakes(steps, r, n);
      } else {
        assert forall i: nat :: Overtakes(steps, r, i) ==> i < n;
      }
    }
  }

  /** What a step does to a run that is about to evaluate after it. */
  lemma ClearedStep(s: State, step: Step, r: RunId)
    requires Inv(s) && Apply(s, step).Some? && Apply(s, step).value.PcOf(r).Cleared?
    ensures
      var t := Apply(s, step).value;
      && t.ObservedBy(r) == s.ObservedBy(r) && Number(s.ObservedBy(r)) <= Number(s.revision)
      && (step == ReadCurrent(r) ==> Number(t.revision) == Number(t.ObservedBy(r)))
      && (step != ReadCurrent(r) ==> s.PcOf(r).Cleared?)
      && (t.revision != s.revision ==> step.Publish? && step.r != r && Number(t.revision) > Number(s.revision))
  {
    StepFrame(s, step, r);
    RegisterFrame(s, step);
  }

  lemma LastOvertakes(steps: seq<Step>, r: RunId)
    requires steps != [] && Run(steps).Some?
    ensures
      var n, before := |steps| - 1, steps[..|steps| - 1];
      && Run(before).Some?
      && (Overtakes(steps, r, n) <==>
            steps[n].Publish? && steps[n].r != r && Run(steps).value.revision != Run(before).value.revision)
      && forall i: nat :: Overtakes(steps, r, i) ==> i <= n
  {
    assert steps[..|steps|] == steps;
  }

  /**
   The evaluation that a run is about to start is stale exactly when another run's publication took
   effect after this run last read the current revision.
   */
  lemma StaleExactlyWhenOvertaken(steps: seq<Step>, r: RunId)
    requires Run(steps).Some? && Apply(Run(steps).value, StartEvaluation(r)).Some?
    ensures Number(Run(steps).value.revision) > Number(Run(steps).value.ObservedBy(r))
       <==> exists i :: Overtakes(steps, r, i)
  {
    BehindExactlyWhenOvertaken(steps, r);
  }

  // ---------------------------------------------------------------- what an expired lease can do

  lemma Extend(steps: seq<Step>, step: Step) returns (more: seq<Step>)
    requires Run(steps).Some? && Apply(Run(steps).value, step).Some?
    ensures Run(more) == Apply(Run(steps).value, step)
  {
    more := steps + [step];
    assert more[..|steps|] == steps;
  }

  ghost predicate Situation(s: State, lease: Option<Lease>, revision: Option<Revision>, pc0: Pc, pc1: Pc) {
    && s.lease == lease && s.revision == revision && s.PcOf(0) == pc0 && s.PcOf(1) == pc1
    && s.ObservedBy(0) == None && s.ObservedBy(1) == None
  }

  lemma FirstLosesLease() returns (steps: seq<Step>)
    ensures Run(steps).Some? && Situation(Run(steps).value, None, None, Cleared, Acquiring)
  {
    assert Run([]) == Some(Initial);
    hide Run;
    steps := Extend([], Observe(0));
    steps := Extend(steps, Observe(1));
    steps := Extend(steps, Acquire(0));
    steps := Extend(steps, ReadCurrent(0));
    steps := Extend(steps, Expire);
  }

  /**
   The condition on the lease is needed: when the lease expires between the read and the
   evaluation, another run can publish in between, and the first one still evaluates.
   */
  lemma ExpiredLeaseEvaluatesStale() returns (steps: seq<Step>)
    ensures Run(steps).Some? && Apply(Run(steps).value, StartEvaluation(0)).Some?
    ensures Number(Run(steps).value.revision) > Number(Run(steps).value.ObservedBy(0))
  {
    steps := FirstLosesLease();
    hide Run;
    steps := Extend(steps, Acquire(1));
    steps := Extend(steps, ReadCurrent(1));
    steps := Extend(steps, StartEvaluation(1));
    steps := Extend(steps, Publish(1));
  }
}
