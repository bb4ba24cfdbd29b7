/**
 The lock file of a plan slot (packages/runner/src/execution-plans/local-plan-files.ts), shared by
 any number of writers in any number of processes.

 Each step is one file operation.  A writer is one call that takes the lock, with the owner token
 it would put in the file; it runs in a process, and a process can stop between any two steps.
 */
module PlanLock {
  import opened Wrappers

  type Writer = nat
  type Pid = nat

  datatype LockRecord = LockRecord(owner: Writer, pid: Pid)

  datatype Pc =
    | Waiting                          // about to create the file, or to look at the one in place
    | SawStale(source: LockRecord)     // read a record whose process has exited
    | Removing(source: LockRecord)     // read it again unchanged, about to unlink
    | Holding                          // created the file
    | Releasing                        // read its own token back, about to unlink
    | Left                             // gave up, or released

  datatype LockState = LockState(file: Option<LockRecord>, exited: set<Pid>, pcs: map<Writer, Pc>) {
    function PcOf(w: Writer): Pc {
      if w in pcs then pcs[w] else Waiting
    }

    function With(w: Writer, pc: Pc): LockState {
      this.(pcs := pcs[w := pc])
    }
  }

  // The process of each writer.
  type Processes = Writer -> Pid

  datatype Step =
    | Create(w: Writer)
    | Inspect(w: Writer)
    | InspectAgain(w: Writer)
    | RemoveStale(w: Writer)
    | GiveUp(w: Writer)
    | CheckToken(w: Writer)
    | Unlock(w: Writer)
    | Exit(pid: Pid)

  const Initial := LockState(None, {}, map[])

  predicate Alive(p: Processes, s: LockState, w: Writer) {
    p(w) !in s.exited
  }

  /** The state after a step, if the step can happen. */
  function Apply(p: Processes, s: LockState, step: Step): Option<LockState> {
    if step.Exit? then Some(s.(exited := s.exited + {step.pid}))
    else if !Alive(p, s, step.w) then None
    else
      var w := step.w;
      match (step, s.PcOf(w))
      case (Create(_), Waiting) =>
        if s.file.None? then Some(s.With(w, Holding).(file := Some(LockRecord(w, p(w))))) else None
      case (Inspect(_), Waiting) =>
        if s.file.Some? && s.file.value.pid in s.exited then Some(s.With(w, SawStale(s.file.value))) else None
      case (InspectAgain(_), SawStale(source)) =>
        Some(s.With(w, if s.file == Some(source) then Removing(source) else Waiting))
      case (RemoveStale(_), Removing(_)) => Some(s.With(w, Waiting).(file := None))
      case (GiveUp(_), Waiting) => Some(s.With(w, Left))
      case (CheckToken(_), Holding) =>
        Some(s.With(w, if s.file.Some? && s.file.value.owner == w then Releasing else Left))
      case (Unlock(_), Releasing) => Some(s.With(w, Left).(file := None))
      case _ => None
  }

  /** A writer between creating the lock file and unlinking it. */
  predicate InSection(s: LockState, w: Writer) {
    s.PcOf(w).Holding? || s.PcOf(w).Releasing?
  }

  /** A live writer inside the section finds its own record in the file. */
  ghost predicate Locked(p: Processes, s: LockState) {
    forall w :: InSection(s, w) && Alive(p, s, w) ==> s.file == Some(LockRecord(w, p(w)))
  }

  /** No two live writers are inside the section. */
  ghost predicate Exclusive(p: Processes, s: LockState) {
    forall v, w :: InSection(s, v) && Alive(p, s, v) && InSection(s, w) && Alive(p, s, w) ==> v == w
  }

  lemma LockedIsExclusive(p: Processes, s: LockState)
    requires Locked(p, s)
    ensures Exclusive(p, s)
  {
  }

  /**
   The one step that can break the lock: unlinking a stale file takes away, at that moment, either
   nothing or the record of a process that has exited.
   */
  predicate Careful(s: LockState, step: Step) {
    step.RemoveStale? && s.PcOf(step.w).Removing? && s.file.Some? ==> s.file.value.pid in s.exited
  }

  /** The record in the file is that of a writer inside the section; stale sources are stale. */
  ghost predicate Owned(p: Processes, s: LockState) {
    && (s.file.Some? ==> p(s.file.value.owner) == s.file.value.pid && InSection(s, s.file.value.owner))
    && (forall w :: s.PcOf(w).SawStale? || s.PcOf(w).Removing? ==> s.PcOf(w).source.pid in s.exited)
  }

  ghost predicate Inv(p: Processes, s: LockState) {
    Locked(p, s) && Owned(p, s)
  }

  /** A step moves its own writer only, and only an exit stops processes. */
  lemma StepFrame(p: Processes, s: LockState, step: Step, v: Writer)
    requires Apply(p, s, step).Some?
    ensures
      var t := Apply(p, s, step).value;
      && (step.Exit? || v != step.w ==> t.PcOf(v) == s.PcOf(v))
      && (Alive(p, t, v) ==> Alive(p, s, v))
      && (step.Exit? ==> t.file == s.file)
      && (!step.Exit? ==> t.exited == s.exited)
  {
  }

  /**
   The file changes by three operations only: it is created where there was none, and it goes when a
   writer unlinks what it read as stale twice, or when one unlinks after it read its own token back.
   */
  lemma FileChangesBy(p: Processes, s: LockState, step: Step)
    requires Apply(p, s, step).Some? && Apply(p, s, step).value.file != s.file
    ensures
      var t := Apply(p, s, step).value;
      && !step.Exit? && p(step.w) !in s.exited
      && (|| (step.Create? && s.PcOf(step.w).Waiting? && s.file.None?
              && t.file == Some(LockRecord(step.w, p(step.w))) && t.PcOf(step.w).Holding?)
          || (step.RemoveStale? && s.PcOf(step.w).Removing? && t.file.None? && t.PcOf(step.w).Waiting?)
          || (step.Unlock? && s.PcOf(step.w).Releasing? && t.file.None? && t.PcOf(step.w).Left?))
  {
  }

  /** A live writer that waits can give up; else it leaves only when it holds the lock no longer. */
  lemma LeavesBy(p: Processes, s: LockState, w: Writer)
    requires Alive(p, s, w)
    ensures s.PcOf(w).Waiting? ==>
      Apply(p, s, GiveUp(w)).Some? && Apply(p, s, GiveUp(w)).value.PcOf(w).Left?
    ensures
      forall step :: Apply(p, s, step).Some? && Apply(p, s, step).value.PcOf(w).Left? && !s.PcOf(w).Left? ==>
        || step == GiveUp(w) || step == Unlock(w)
        || (step == CheckToken(w) && s.PcOf(w).Holding? && s.file != Some(LockRecord(w, p(w))))
  {
  }

  lemma StepKeepsOwned(p: Processes, s: LockState, step: Step)
    requires Inv(p, s) && Apply(p, s, step).Some?
    ensures Owned(p, Apply(p, s, step).value)
  {
    var t := Apply(p, s, step).value;
    forall v ensures t.PcOf(v).SawStale? || t.PcOf(v).Removing? ==> t.PcOf(v).source.pid in t.exited {
      StepFrame(p, s, step, v);
    }
    if t.file.Some? {
      StepFrame(p, s, step, t.file.value.owner);
    }
  }

  lemma CarefulStepKeepsLocked(p: Processes, s: LockState, step: Step)
    requires Inv(p, s) && Apply(p, s, step).Some? && Careful(s, step)
    ensures Locked(p, Apply(p, s, step).value)
  {
    var t := Apply(p, s, step).value;
    forall v | InSection(t, v) && Alive(p, t, v) ensures t.file == Some(LockRecord(v, p(v))) {
      StepFrame(p, s, step, v);
      if step.Exit? || v != step.w {
        assert InSection(s, v) && Alive(p, s, v);
      }
    }
  }

  lemma CarelessStepBreaksLock(p: Processes, s: LockState, step: Step)
    requires Inv(p, s) && Apply(p, s, step).Some? && !Careful(s, step)
    ensures !Locked(p, Apply(p, s, step).value)
  {
    var t := Apply(p, s, step).value;
    var owner := s.file.value.owner;
    StepFrame(p, s, step, owner);
    assert InSection(t, owner) && Alive(p, t, owner);
  }

  /** Exactly when a step keeps the lock: the second read and the unlink are not one operation. */
  lemma StepKeepsLockExactlyWhen(p: Processes, s: LockState, step: Step)
    requires Inv(p, s) && Apply(p, s, step).Some?
    ensures Owned(p, Apply(p, s, step).value)
    ensures Locked(p, Apply(p, s, step).value) <==> Careful(s, step)
  {
    StepKeepsOwned(p, s, step);
    if Careful(s, step) {
      CarefulStepKeepsLocked(p, s, step);
    } else {
      CarelessStepBreaksLock(p, s, step);
    }
  }

  /** Unlinking right after the second read is careful: as one operation the removal would be safe. */
  lemma AtomicRemovalIsCareful(p: Processes, s: LockState, w: Writer)
    requires Owned(p, s) && Apply(p, s, InspectAgain(w)).Some?
    ensures Careful(Apply(p, s, InspectAgain(w)).value, RemoveStale(w))
  {
  }

  /** No record in the file is stale, and nobody has seen one that was. */
  ghost predicate NeverStale(s: LockState) {
    && (s.file.Some? ==> s.file.value.pid !in s.exited)
    && forall w :: !s.PcOf(w).SawStale? && !s.PcOf(w).Removing?
  }

  /** If no process exits while the file holds its record, every step is careful. */
  lemma NoExitInSectionIsCareful(p: Processes, s: LockState, step: Step)
    requires NeverStale(s) && Apply(p, s, step).Some?
    requires step.Exit? && s.file.Some? ==> s.file.value.pid != step.pid
    ensures Careful(s, step) && NeverStale(Apply(p, s, step).value)
  {
    var t := Apply(p, s, step).value;
    forall w ensures !t.PcOf(w).SawStale? && !t.PcOf(w).Removing? {
      StepFrame(p, s, step, w);
    }
  }

  /** A live holder of a kept lock reads its own token back, and its unlink leaves no file. */
  lemma HolderReleases(p: Processes, s: LockState, w: Writer)
    requires Inv(p, s) && s.PcOf(w).Holding? && Alive(p, s, w)
    ensures Apply(p, s, CheckToken(w)).Some?
    ensures
      var t := Apply(p, s, CheckToken(w)).value;
      && t.file == s.file && Apply(p, t, Unlock(w)).Some?
      && Apply(p, t, Unlock(w)).value.file.None? && Apply(p, t, Unlock(w)).value.PcOf(w).Left?
  {
  }

  /** The four steps by which a writer takes over a lock, as far as each of them can happen. */
  function TakeOver(p: Processes, s: LockState, w: Writer, steps: nat): Option<LockState>
    requires steps <= 4
  {
    if steps == 0 then Some(s)
    else
      match TakeOver(p, s, w, steps - 1)
      case None => None
      case Some(t) => Apply(p, t, [Inspect(w), InspectAgain(w), RemoveStale(w), Create(w)][steps - 1])
  }

  /** A waiting writer, undisturbed, takes over a lock exactly when the process in the file has exited. */
  lemma TakesOverExactlyWhenStale(p: Processes, s: LockState, w: Writer)
    requires s.PcOf(w).Waiting? && Alive(p, s, w) && s.file.Some?
    ensures s.file.value.pid in s.exited <==> TakeOver(p, s, w, 4).Some?
    ensures
      s.file.value.pid in s.exited ==>
        var t := TakeOver(p, s, w, 4).value;
        t.PcOf(w).Holding? && t.file == Some(LockRecord(w, p(w)))
  {
    var record := s.file.value;
    if record.pid in s.exited {
      assert TakeOver(p, s, w, 1) == Some(s.With(w, SawStale(record)));
      assert TakeOver(p, s, w, 2) == Some(s.With(w, SawStale(record)).With(w, Removing(record)));
      assert TakeOver(p, s, w, 3).Some? && TakeOver(p, s, w, 3).value.PcOf(w).Waiting?;
    } else {
      assert TakeOver(p, s, w, 1).None?;
      assert TakeOver(p, s, w, 2).None?;
      assert TakeOver(p, s, w, 3).None?;
    }
  }
}
