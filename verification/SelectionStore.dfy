/**
 Compare-and-swap of a plan slot's selection
 (packages/runner/src/execution-plans/local-execution-plan-store.ts), by any number of writers in
 any interleaving of their file operations.
 */
module SelectionStore {
  import opened Wrappers
  import Lock = PlanLock

  type Writer = Lock.Writer

  // ---------------------------------------------------------------- documents

  datatype Scope = Scope(scenarioId: string, scenarioRevision: string, profileId: string, fingerprint: string,
                         applicationRevision: string, adapterKind: string, schemaVersion: string)

  // planSlotId hashes these three fields of a scope.
  datatype Slot = SlotOf(scenarioId: string, profileId: string, adapterKind: string)

  function PlanSlot(scope: Scope): Slot {
    SlotOf(scope.scenarioId, scope.profileId, scope.adapterKind)
  }

  type RevisionId = nat

  datatype Why = Activate | Rollback | Deactivate

  // Who made a selection and when it was made.
  type Provenance = nat

  datatype Selection = Selection(generation: nat, active: Option<RevisionId>, previous: Option<Digest>, why: Why,
      author: Provenance)

  // selectionDigest is injective.
  datatype Digest = DigestOf(selection: Selection)

  datatype Input = Input(scope: Scope, active: Option<RevisionId>, expected: Option<Digest>, why: Why,
      author: Provenance)

  function DigestOrNull(current: Option<Selection>): Option<Digest> {
    match current
    case None => None
    case Some(selection) => Some(DigestOf(selection))
  }

  function NextSelection(input: Input, current: Option<Selection>): Selection {
    var generation := if current.Some? then current.value.generation else 0;
    Selection(generation + 1, input.active, DigestOrNull(current), input.why, input.author)
  }

  /** The schema of a selection: only a deactivation has no active revision. */
  predicate ValidSelection(selection: Selection) {
    selection.why.Deactivate? <==> selection.active.None?
  }

  // ---------------------------------------------------------------- the store

  // How far a writer that holds the lock has come.
  datatype Work =
    | NotStarted
    | HasRead(current: Option<Selection>)
    | HasVerified(current: Option<Selection>)
    | HasWritten(next: Selection)            // to the temporary file
    | Finished(published: Option<Selection>)

  datatype Store = Store(
    lock: Lock.LockState,
    selection: Option<Selection>,
    revisions: map<RevisionId, Scope>,
    work: map<Writer, Work>,
    // The published selections and their writers, oldest first.
    history: seq<Selection>,
    writers: seq<Writer>)
  {
    function WorkOf(w: Writer): Work {
      if w in work then work[w] else NotStarted
    }

    function With(w: Writer, k: Work): Store {
      this.(work := work[w := k])
    }
  }

  // The writers of one slot: what each is asked to write, and its process.
  datatype Config = Config(slot: Slot, inputs: Writer -> Input, processes: Lock.Processes)

  ghost predicate ValidConfig(c: Config) {
    forall w :: PlanSlot(c.inputs(w).scope) == c.slot
  }

  datatype Step =
    | Locking(step: Lock.Step)
    | ReadSelection(w: Writer)
    | VerifyRevision(w: Writer)
    | WriteTemporary(w: Writer)
    | Rename(w: Writer)
    | Fail(w: Writer)
    | CreateRevision(id: RevisionId, scope: Scope)

  const Initial := Store(Lock.Initial, None, map[], map[], [], [])

  predicate Holds(c: Config, s: Store, w: Writer) {
    s.lock.PcOf(w).Holding? && Lock.Alive(c.processes, s.lock, w)
  }

  /** The state after a step, if the step can happen. */
  function Apply(c: Config, s: Store, step: Step): Option<Store> {
    match step
    case Locking(lockStep) =>
      if lockStep.CheckToken? && !s.WorkOf(lockStep.w).Finished? then None
      else
        (match Lock.Apply(c.processes, s.lock, lockStep)
         case None => None
         case Some(lock) => Some(s.(lock := lock)))
    case CreateRevision(id, scope) =>
      if id in s.revisions then None else Some(s.(revisions := s.revisions[id := scope]))
    case ReadSelection(w) =>
      if !Holds(c, s, w) || !s.WorkOf(w).NotStarted? then None
      else if DigestOrNull(s.selection) != c.inputs(w).expected then Some(s.With(w, Finished(None)))
      else Some(s.With(w, HasRead(s.selection)))
    case VerifyRevision(w) =>
      if !Holds(c, s, w) || !s.WorkOf(w).HasRead? then None
      else
        var active := c.inputs(w).active;
        if active.Some? && (active.value !in s.revisions || s.revisions[active.value] != c.inputs(w).scope)
        then Some(s.With(w, Finished(None)))
        else Some(s.With(w, HasVerified(s.WorkOf(w).current)))
    case WriteTemporary(w) =>
      if !Holds(c, s, w) || !s.WorkOf(w).HasVerified? then None
      else
        var next := NextSelection(c.inputs(w), s.WorkOf(w).current);
        Some(s.With(w, if ValidSelection(next) then HasWritten(next) else Finished(None)))
    case Rename(w) =>
      if !Holds(c, s, w) || !s.WorkOf(w).HasWritten? then None
      else
        var next := s.WorkOf(w).next;
        Some(s.With(w, Finished(Some(next))).(
          selection := Some(next), history := s.history + [next], writers := s.writers + [w]))
    case Fail(w) =>
      if !Holds(c, s, w) || s.WorkOf(w).Finished? then None else Some(s.With(w, Finished(None)))
  }

  /** The state after a run from the empty store, if the run can happen. */
  function Run(c: Config, steps: seq<Step>): Option<Store> {
    if steps == [] then Some(Initial)
    else
      match Run(c, steps[..|steps| - 1])
      case None => None
      case Some(s) => Apply(c, s, steps[|steps| - 1])
  }

  predicate CarefulStep(s: Store, step: Step) {
    step.Locking? ==> Lock.Careful(s.lock, step.step)
  }

  /** A run in which no stale lock is unlinked after somebody else has already replaced it. */
  predicate CarefulRun(c: Config, steps: seq<Step>) {
    steps == []
    || (&& CarefulRun(c, steps[..|steps| - 1])
        && (match Run(c, steps[..|steps| - 1])
            case None => true
            case Some(s) => CarefulStep(s, steps[|steps| - 1])))
  }

  // ---------------------------------------------------------------- invariants

  /** The selection that is visible after the first k publications. */
  function VisibleAfter(history: seq<Selection>, k: nat): Option<Selection>
    requires k <= |history|
  {
    if k == 0 then None else Some(history[k - 1])
  }

  /** Publication k follows on the ones before it. */
  ghost predicate Follows(history: seq<Selection>, k: nat)
    requires k < |history|
  {
    && history[k].generation == k + 1
    && history[k].previous == DigestOrNull(VisibleAfter(history, k))
  }

  /** The published selections form one chain that ends in the visible one. */
  ghost predicate Chain(s: Store) {
    && s.selection == VisibleAfter(s.history, |s.history|)
    && forall k :: 0 <= k < |s.history| ==> Follows(s.history, k)
  }

  /** Every active revision that was ever published exists and belongs to the slot. */
  ghost predicate ActiveExists(c: Config, s: Store) {
    forall k :: 0 <= k < |s.history| && s.history[k].active.Some? ==>
      s.history[k].active.value in s.revisions && PlanSlot(s.revisions[s.history[k].active.value]) == c.slot
  }

  /** What a live writer has in hand is still what is visible. */
  ghost predicate UpToDate(c: Config, s: Store) {
    forall w | Holds(c, s, w) ::
      match s.WorkOf(w)
      case HasRead(current) => current == s.selection && DigestOrNull(current) == c.inputs(w).expected
      case HasVerified(current) =>
        && current == s.selection && DigestOrNull(current) == c.inputs(w).expected
        && Usable(c, s, w)
      case HasWritten(next) =>
        && DigestOrNull(s.selection) == c.inputs(w).expected
        && next == NextSelection(c.inputs(w), s.selection) && ValidSelection(next)
        && Usable(c, s, w)
      case _ => true
  }

  /** The revision that the writer asks for exists with the writer's own scope, which is of the slot. */
  ghost predicate Usable(c: Config, s: Store, w: Writer) {
    var active := c.inputs(w).active;
    active.Some? ==>
      && active.value in s.revisions && s.revisions[active.value] == c.inputs(w).scope
      && PlanSlot(c.inputs(w).scope) == c.slot
  }

  /** The selection has what its writer asked for: the active revision, the reason and who made it. */
  predicate Answers(c: Config, selection: Selection, w: Writer) {
    var input := c.inputs(w);
    && selection.active == input.active && selection.why == input.why && selection.author == input.author
    && (input.why.Deactivate? <==> input.active.None?)
  }

  /** Each published selection answers the request of its writer, and a writer publishes once. */
  ghost predicate Credited(c: Config, s: Store) {
    && |s.writers| == |s.history|
    && (forall k :: 0 <= k < |s.history| ==>
          && s.WorkOf(s.writers[k]) == Finished(Some(s.history[k]))
          && s.history[k].previous == c.inputs(s.writers[k]).expected
          && Answers(c, s.history[k], s.writers[k]) && Usable(c, s, s.writers[k]))
    && (forall w :: s.WorkOf(w).Finished? && s.WorkOf(w).published.Some? ==> w in s.writers)
  }

  /** Only a writer that took the lock has done anything. */
  ghost predicate Staged(s: Store) {
    forall w :: s.WorkOf(w).NotStarted? || Lock.InSection(s.lock, w) || s.lock.PcOf(w).Left?
  }

  ghost predicate Inv(c: Config, s: Store) {
    && Lock.Inv(c.processes, s.lock) && Staged(s)
    && Chain(s) && ActiveExists(c, s) && UpToDate(c, s) && Credited(c, s)
  }

  lemma LockingKeepsInv(c: Config, s: Store, step: Lock.Step)
    requires Inv(c, s) && Apply(c, s, Locking(step)).Some? && Lock.Careful(s.lock, step)
    ensures Inv(c, Apply(c, s, Locking(step)).value)
  {
    hide Chain, ActiveExists, Credited;
    Lock.StepKeepsLockExactlyWhen(c.processes, s.lock, step);
    var t := Apply(c, s, Locking(step)).value;
    forall w ensures Holds(c, t, w) ==> Holds(c, s, w) || s.WorkOf(w).NotStarted? {
      Lock.StepFrame(c.processes, s.lock, step, w);
    }
    forall w ensures t.WorkOf(w).NotStarted? || Lock.InSection(t.lock, w) || t.lock.PcOf(w).Left? {
      Lock.StepFrame(c.processes, s.lock, step, w);
    }
    LockingKeepsData(c, s, t);
  }

  lemma LockingKeepsData(c: Config, s: Store, t: Store)
    requires Chain(s) && ActiveExists(c, s) && Credited(c, s) && t == s.(lock := t.lock)
    ensures Chain(t) && ActiveExists(c, t) && Credited(c, t)
  {
    assert forall w :: t.WorkOf(w) == s.WorkOf(w);
    assert forall k :: 0 <= k < |s.history| ==> t.WorkOf(s.writers[k]) == s.WorkOf(s.writers[k]);
  }

  lemma CreateRevisionKeepsInv(c: Config, s: Store, id: RevisionId, scope: Scope)
    requires Inv(c, s) && id !in s.revisions
    ensures Inv(c, s.(revisions := s.revisions[id := scope]))
  {
    var t := s.(revisions := s.revisions[id := scope]);
    assert forall w :: t.WorkOf(w) == s.WorkOf(w);
    assert forall k :: 0 <= k < |s.history| ==> t.WorkOf(s.writers[k]) == s.WorkOf(s.writers[k]);
    assert forall w :: Usable(c, s, w) ==> Usable(c, t, w);
    assert forall w :: Holds(c, t, w) == Holds(c, s, w);
  }

  /** The writer that a step of the section belongs to. */
  predicate IsStepOf(step: Step, w: Writer) {
    || step == ReadSelection(w) || step == VerifyRevision(w) || step == WriteTemporary(w)
    || step == Rename(w) || step == Fail(w)
  }

  lemma OnlyHolder(c: Config, s: Store, w: Writer, v: Writer)
    requires Inv(c, s) && Holds(c, s, w) && Holds(c, s, v)
    ensures v == w
  {
    Lock.LockedIsExclusive(c.processes, s.lock);
  }

  /** A step that does not publish: only the work of its writer changes. */
  lemma QuietStepKeepsInv(c: Config, s: Store, w: Writer, k: Work)
    requires Inv(c, s) && Holds(c, s, w) && !s.WorkOf(w).Finished? && (k.Finished? ==> k.published.None?)
    requires UpToDate(c, s.With(w, k))
    ensures Inv(c, s.With(w, k))
  {
    hide UpToDate;
    var t := s.With(w, k);
    forall v ensures t.WorkOf(v) == if v == w then k else s.WorkOf(v) {
    }
    assert t.lock == s.lock && t.history == s.history && t.writers == s.writers;
    forall i | 0 <= i < |s.history| ensures t.WorkOf(t.writers[i]) == Finished(Some(t.history[i])) {
      assert s.WorkOf(s.writers[i]) == Finished(Some(s.history[i]));
    }
    assert Chain(t) && ActiveExists(c, t) && Staged(t);
  }

  lemma QuietStepIsUpToDate(c: Config, s: Store, step: Step, w: Writer)
    requires ValidConfig(c) && Inv(c, s) && IsStepOf(step, w) && !step.Rename? && Apply(c, s, step).Some?
    ensures UpToDate(c, s.With(w, Apply(c, s, step).value.WorkOf(w)))
  {
    var t := Apply(c, s, step).value;
    forall v | Holds(c, t, v) && v != w ensures false {
      OnlyHolder(c, s, w, v);
    }
  }

  lemma RenameKeepsInv(c: Config, s: Store, w: Writer)
    requires Inv(c, s) && Apply(c, s, Rename(w)).Some?
    ensures Inv(c, Apply(c, s, Rename(w)).value)
  {
    var t := Apply(c, s, Rename(w)).value;
    var n := |s.history|;
    assert forall v :: t.WorkOf(v) == if v == w then Finished(Some(s.WorkOf(w).next)) else s.WorkOf(v);
    forall v | Holds(c, t, v) && v != w ensures false {
      OnlyHolder(c, s, w, v);
    }
    RenameExtendsChain(c, s, w);
    RenameCredits(c, s, w);
  }

  lemma RenameExtendsChain(c: Config, s: Store, w: Writer)
    requires Inv(c, s) && Apply(c, s, Rename(w)).Some?
    ensures Chain(Apply(c, s, Rename(w)).value) && ActiveExists(c, Apply(c, s, Rename(w)).value)
  {
    hide Credited, Staged;
    var t := Apply(c, s, Rename(w)).value;
    var next := s.WorkOf(w).next;
    assert Holds(c, s, w) && s.WorkOf(w).HasWritten?;
    assert DigestOrNull(s.selection) == c.inputs(w).expected && next == NextSelection(c.inputs(w), s.selection);
    assert Usable(c, s, w);
    if s.history != [] {
      assert Follows(s.history, |s.history| - 1);
    }
    forall k | 0 <= k < |t.history|
      ensures Follows(t.history, k)
      ensures t.history[k].active.Some? ==>
        t.history[k].active.value in t.revisions && PlanSlot(t.revisions[t.history[k].active.value]) == c.slot
    {
      assert VisibleAfter(t.history, k) == VisibleAfter(s.history, k);
      if k < |s.history| {
        assert Follows(s.history, k) && t.history[k] == s.history[k];
      }
    }
  }

  lemma RenameCredits(c: Config, s: Store, w: Writer)
    requires Inv(c, s) && Apply(c, s, Rename(w)).Some?
    ensures Credited(c, Apply(c, s, Rename(w)).value)
  {
    hide Chain, ActiveExists, Staged;
    var t := Apply(c, s, Rename(w)).value;
    assert Holds(c, s, w);
    forall k | 0 <= k < |t.history|
      ensures t.WorkOf(t.writers[k]) == Finished(Some(t.history[k]))
           && t.history[k].previous == c.inputs(t.writers[k]).expected
           && Answers(c, t.history[k], t.writers[k]) && Usable(c, t, t.writers[k])
    {
      if k < |s.history| {
        assert s.WorkOf(s.writers[k]) == Finished(Some(s.history[k]));
      }
    }
    forall v | t.WorkOf(v).Finished? && t.WorkOf(v).published.Some? ensures v in t.writers {
      assert v == w || v in s.writers;
    }
  }

  lemma StepKeepsInv(c: Config, s: Store, step: Step)
    requires ValidConfig(c) && Inv(c, s) && Apply(c, s, step).Some? && CarefulStep(s, step)
    ensures Inv(c, Apply(c, s, step).value)
  {
    hide Inv;
    match step
    case Locking(lockStep) => LockingKeepsInv(c, s, lockStep);
    case CreateRevision(id, scope) => CreateRevisionKeepsInv(c, s, id, scope);
    case Rename(w) => RenameKeepsInv(c, s, w);
    case ReadSelection(w) => QuietKeepsInv(c, s, step, w);
    case VerifyRevision(w) => QuietKeepsInv(c, s, step, w);
    case WriteTemporary(w) => QuietKeepsInv(c, s, step, w);
    case Fail(w) => QuietKeepsInv(c, s, step, w);
  }

  lemma QuietKeepsInv(c: Config, s: Store, step: Step, w: Writer)
    requires ValidConfig(c) && Inv(c, s) && IsStepOf(step, w) && !step.Rename? && Apply(c, s, step).Some?
    ensures Inv(c, Apply(c, s, step).value)
  {
    hide Inv, UpToDate;
    QuietStepIsUpToDate(c, s, step, w);
    QuietStepKeepsInv(c, s, w, Apply(c, s, step).value.WorkOf(w));
  }

  lemma {:induction false} RunKeepsInv(c: Config, steps: seq<Step>)
    requires ValidConfig(c) && CarefulRun(c, steps) && Run(c, steps).Some?
    ensures Inv(c, Run(c, steps).value)
  {
    if steps != [] {
      RunKeepsInv(c, steps[..|steps| - 1]);
      StepKeepsInv(c, Run(c, steps[..|steps| - 1]).value, steps[|steps| - 1]);
    }
  }

  // ---------------------------------------------------------------- which runs are careful

  /** After its first k steps a run has its lock: a live writer in the section finds its own record in the file. */
  ghost predicate LockedAfter(c: Config, steps: seq<Step>, k: nat)
    requires k <= |steps|
  {
    Run(c, steps[..k]).Some? && Lock.Locked(c.processes, Run(c, steps[..k]).value.lock)
  }

  ghost predicate AlwaysLocked(c: Config, steps: seq<Step>) {
    forall k: nat :: k <= |steps| ==> LockedAfter(c, steps, k)
  }

  lemma AlwaysLockedStep(c: Config, steps: seq<Step>)
    requires steps != []
    ensures AlwaysLocked(c, steps)
       <==> AlwaysLocked(c, steps[..|steps| - 1]) && LockedAfter(c, steps, |steps|)
  {
    var before := steps[..|steps| - 1];
    assert forall k: nat :: k <= |before| ==> steps[..k] == before[..k];
    assert forall k: nat :: k <= |before| ==> (LockedAfter(c, steps, k) <==> LockedAfter(c, before, k));
  }

  /** The runs that keep the lock at every moment are the careful ones, and no others. */
  lemma {:induction false} CarefulExactlyWhenLocked(c: Config, steps: seq<Step>)
    requires Run(c, steps).Some?
    ensures CarefulRun(c, steps) <==> AlwaysLocked(c, steps)
    ensures CarefulRun(c, steps) ==> Lock.Inv(c.processes, Run(c, steps).value.lock)
  {
    if steps == [] {
      assert LockedAfter(c, steps, 0);
    } else {
      var before, last := steps[..|steps| - 1], steps[|steps| - 1];
      CarefulExactlyWhenLocked(c, before);
      AlwaysLockedStep(c, steps);
      assert steps[..|steps|] == steps;
      hide AlwaysLocked, Lock.Inv;
      if CarefulRun(c, before) {
        StepKeepsLock(c, Run(c, before).value, last);
      }
    }
  }

  lemma StepKeepsLock(c: Config, s: Store, step: Step)
    requires Apply(c, s, step).Some? && Lock.Inv(c.processes, s.lock)
    ensures Lock.Locked(c.processes, Apply(c, s, step).value.lock) <==> CarefulStep(s, step)
    ensures CarefulStep(s, step) ==> Lock.Inv(c.processes, Apply(c, s, step).value.lock)
  {
    if step.Locking? {
      Lock.StepKeepsLockExactlyWhen(c.processes, s.lock, step.step);
    } else {
      assert Apply(c, s, step).value.lock == s.lock;
    }
  }

  // ---------------------------------------------------------------- what every careful run guarantees

  /** A writer was told that its selection was published. */
  predicate Succeeded(s: Store, w: Writer) {
    s.WorkOf(w).Finished? && s.WorkOf(w).published.Some?
  }

  /**
   Selection history is one chain: generations count up by one, each selection carries the
   digest of the one before it, no digest recurs, and the active revision of the visible
   selection exists and is one of this slot.
   */
  lemma HistoryIsOneChain(c: Config, steps: seq<Step>)
    requires ValidConfig(c) && CarefulRun(c, steps) && Run(c, steps).Some?
    ensures
      var s := Run(c, steps).value;
      && Chain(s) && ActiveExists(c, s)
      && (forall i, j :: 0 <= i < j < |s.history| ==> DigestOf(s.history[i]) != DigestOf(s.history[j]))
      && (s.selection.Some? && s.selection.value.active.Some? ==>
            && s.selection.value.active.value in s.revisions
            && PlanSlot(s.revisions[s.selection.value.active.value]) == c.slot)
  {
    RunKeepsInv(c, steps);
    var s := Run(c, steps).value;
    forall i, j | 0 <= i < j < |s.history| ensures DigestOf(s.history[i]) != DigestOf(s.history[j]) {
      assert Follows(s.history, i) && Follows(s.history, j);
    }
  }

  /**
   Publication k is what its writer asked for: its active revision, reason and author, on the digest
   it expected; an active revision was stored with exactly the writer's scope, and only a
   deactivation has none.
   */
  lemma PublishedAsAsked(c: Config, steps: seq<Step>, k: nat)
    requires ValidConfig(c) && CarefulRun(c, steps) && Run(c, steps).Some? && k < |Run(c, steps).value.history|
    ensures
      var s := Run(c, steps).value;
      && |s.writers| == |s.history| && s.WorkOf(s.writers[k]) == Finished(Some(s.history[k]))
      && var selection, input := s.history[k], c.inputs(s.writers[k]);
         && selection.active == input.active && selection.why == input.why && selection.author == input.author
         && selection.previous == input.expected
         && (input.why.Deactivate? <==> input.active.None?)
         && (input.active.Some? ==>
               input.active.value in s.revisions && s.revisions[input.active.value] == input.scope)
  {
    RunKeepsInv(c, steps);
    var s := Run(c, steps).value;
    hide Run, CarefulRun, UpToDate, ActiveExists, Staged, Chain, Lock.Inv;
    assert Answers(c, s.history[k], s.writers[k]) && Usable(c, s, s.writers[k]);
  }

  // ---------------------------------------------------------------- when a writer is refused

  /** At this moment nothing stands against what the writer is asked to publish. */
  ghost predicate MayPublish(c: Config, s: Store, w: Writer) {
    var input := c.inputs(w);
    && (if s.selection.Some? then input.expected == Some(DigestOf(s.selection.value)) else input.expected.None?)
    && (input.active.Some? ==>
          input.active.value in s.revisions && s.revisions[input.active.value] == input.scope)
    && (input.why.Deactivate? <==> input.active.None?)
  }

  /** After its first k steps the run has the writer under the lock, with something against it. */
  ghost predicate RefusedAfter(c: Config, steps: seq<Step>, w: Writer, k: nat)
    requires k <= |steps|
  {
    && Run(c, steps[..k]).Some?
    && Holds(c, Run(c, steps[..k]).value, w) && !MayPublish(c, Run(c, steps[..k]).value, w)
  }

  /**
   In any run, careful or not: a writer that ends without publishing, and not because one of its file
   operations failed, held the lock at a moment when something stood against its request.
   */
  lemma {:induction false} RefusedForAReason(c: Config, steps: seq<Step>, w: Writer)
    requires Run(c, steps).Some? && Run(c, steps).value.WorkOf(w) == Finished(None) && Fail(w) !in steps
    ensures exists k: nat :: k <= |steps| && RefusedAfter(c, steps, w, k)
  {
    var n := |steps| - 1;
    var before, last := steps[..n], steps[n];
    if Run(c, before).value.WorkOf(w) == Finished(None) {
      RefusedForAReason(c, before, w);
      var k: nat :| k <= |before| && RefusedAfter(c, before, w, k);
      assert steps[..k] == before[..k];
      assert RefusedAfter(c, steps, w, k);
    } else {
      assert last.ReadSelection? || last.VerifyRevision? || last.WriteTemporary?;
      assert RefusedAfter(c, steps, w, n);
    }
  }

  /** How many of its four steps a writer has behind it. */
  function Stage(work: Work): nat {
    match work
    case NotStarted => 0
    case HasRead(_) => 1
    case HasVerified(_) => 2
    case HasWritten(_) => 3
    case Finished(_) => 4
  }

  /** A step that takes the writer on. */
  ghost predicate TakesOn(c: Config, s: Store, step: Step, w: Writer) {
    && IsStepOf(step, w) && !step.Fail? && Apply(c, s, step).Some?
    && Stage(Apply(c, s, step).value.WorkOf(w)) > Stage(s.WorkOf(w))
  }

  /** A live lock holder is never stuck: it can go on, or it has finished and can release the lock. */
  lemma HolderGoesOn(c: Config, s: Store, w: Writer)
    requires Holds(c, s, w)
    ensures if s.WorkOf(w).Finished? then Apply(c, s, Locking(Lock.CheckToken(w))).Some?
            else exists step :: TakesOn(c, s, step, w)
  {
    match s.WorkOf(w)
    case NotStarted => assert TakesOn(c, s, ReadSelection(w), w);
    case HasRead(_) => assert TakesOn(c, s, VerifyRevision(w), w);
    case HasVerified(_) => assert TakesOn(c, s, WriteTemporary(w), w);
    case HasWritten(_) => assert TakesOn(c, s, Rename(w), w);
    case Finished(_) =>
  }

  /** A writer works under the lock only, and gives it back only when it has finished. */
  ghost predicate ReleasedDone(s: Store) {
    forall w ::
      && (s.lock.PcOf(w).Releasing? ==> s.WorkOf(w).Finished?)
      && (s.lock.PcOf(w).Left? ==> s.WorkOf(w).NotStarted? || s.WorkOf(w).Finished?)
      && (!Lock.InSection(s.lock, w) && !s.lock.PcOf(w).Left? ==> s.WorkOf(w).NotStarted?)
  }

  lemma StepReleasesDone(c: Config, s: Store, step: Step)
    requires ReleasedDone(s) && Apply(c, s, step).Some?
    ensures ReleasedDone(Apply(c, s, step).value)
  {
    if step.Locking? {
      forall w {
        Lock.StepFrame(c.processes, s.lock, step.step, w);
      }
    }
  }

  lemma {:induction false} ReleasesWhenFinished(c: Config, steps: seq<Step>)
    requires Run(c, steps).Some?
    ensures ReleasedDone(Run(c, steps).value)
  {
    if steps != [] {
      hide Apply, ReleasedDone;
      ReleasesWhenFinished(c, steps[..|steps| - 1]);
      StepReleasesDone(c, Run(c, steps[..|steps| - 1]).value, steps[|steps| - 1]);
    }
  }

  /** At most one writer succeeds for each expected digest. */
  lemma OneSuccessPerExpectedDigest(c: Config, steps: seq<Step>, v: Writer, w: Writer)
    requires ValidConfig(c) && CarefulRun(c, steps) && Run(c, steps).Some?
    requires Succeeded(Run(c, steps).value, v) && Succeeded(Run(c, steps).value, w)
    requires c.inputs(v).expected == c.inputs(w).expected
    ensures v == w
  {
    RunKeepsInv(c, steps);
    var s := Run(c, steps).value;
    hide Run, CarefulRun, UpToDate, ActiveExists, Staged, Lock.Inv;
    var i :| 0 <= i < |s.writers| && s.writers[i] == v;
    var j :| 0 <= j < |s.writers| && s.writers[j] == w;
    assert s.history[i].previous == s.history[j].previous;
    SamePreviousSamePlace(s, i, j);
  }

  /** Two places in the chain with the same predecessor are one place. */
  lemma SamePreviousSamePlace(s: Store, i: nat, j: nat)
    requires Chain(s) && i < |s.history| && j < |s.history| && s.history[i].previous == s.history[j].previous
    ensures i == j
  {
    assert Follows(s.history, i) && Follows(s.history, j);
    if i > 0 && j > 0 {
      assert Follows(s.history, i - 1) && Follows(s.history, j - 1);
    }
  }

  /** A run in which no process exits while the lock file holds its record. */
  predicate NoExitInSection(c: Config, steps: seq<Step>) {
    steps == []
    || (&& NoExitInSection(c, steps[..|steps| - 1])
        && (match (Run(c, steps[..|steps| - 1]), steps[|steps| - 1])
            case (Some(s), Locking(Exit(pid))) => s.lock.file.Some? ==> s.lock.file.value.pid != pid
            case _ => true))
  }

  /** As long as no lock holder stops, every interleaving is careful. */
  lemma {:induction false} NoExitInSectionIsCareful(c: Config, steps: seq<Step>)
    requires NoExitInSection(c, steps)
    ensures CarefulRun(c, steps)
    ensures Run(c, steps).Some? ==> Lock.NeverStale(Run(c, steps).value.lock)
  {
    if steps != [] {
      var before, last := steps[..|steps| - 1], steps[|steps| - 1];
      NoExitInSectionIsCareful(c, before);
      if Run(c, before).Some? {
        var s := Run(c, before).value;
        if last.Locking? && Lock.Apply(c.processes, s.lock, last.step).Some? {
          Lock.NoExitInSectionIsCareful(c.processes, s.lock, last.step);
        } else if last.Locking? {
          StaleNeverRemoved(s.lock, last.step);
        }
      }
    }
  }

  lemma StaleNeverRemoved(s: Lock.LockState, step: Lock.Step)
    requires Lock.NeverStale(s)
    ensures Lock.Careful(s, step)
  {
  }

  // ---------------------------------------------------------------- a run that is not careful

  // Writer 0 stops while it holds the lock.  Writers 1 and 2 both read its record twice; then 1
  // removes it, takes the lock and gets ready to publish, and 2 unlinks the lock of 1.
  const RACE: Config := Config(
    SlotOf("s", "p", "web"),
    (w: Writer) => Input(Scope("s", "r", "p", "f", "a", "web", "1"), None, None, Deactivate, w),
    (w: Writer) => w)

  lemma Extend(c: Config, steps: seq<Step>, step: Step) returns (more: seq<Step>)
    requires Run(c, steps).Some? && Apply(c, Run(c, steps).value, step).Some?
    ensures Run(c, more) == Apply(c, Run(c, steps).value, step)
  {
    more := steps + [step];
    assert more[..|steps|] == steps;
  }

  /** Nothing is published, process 0 has stopped, and a writer may be in the middle of its turn. */
  ghost predicate RaceState(s: Store, file: Option<Lock.LockRecord>, pc1: Lock.Pc, work1: Work, pc2: Lock.Pc,
          work2: Work) {
    && s.lock.file == file && s.lock.exited == {0} && s.selection == None && s.history == []
    && s.lock.PcOf(1) == pc1 && s.WorkOf(1) == work1 && s.lock.PcOf(2) == pc2 && s.WorkOf(2) == work2
  }

  lemma OwnerStops() returns (steps: seq<Step>)
    ensures Run(RACE, steps).Some?
    ensures RaceState(Run(RACE, steps).value, Some(Lock.LockRecord(0, 0)), Lock.Waiting, NotStarted, Lock.Waiting,
        NotStarted)
  {
    assert Run(RACE, []) == Some(Initial);
    hide Run;
    steps := Extend(RACE, [], Locking(Lock.Create(0)));
    steps := Extend(RACE, steps, Locking(Lock.Exit(0)));
  }

  lemma BothConfirmStale() returns (steps: seq<Step>)
    ensures Run(RACE, steps).Some?
    ensures
      var record := Lock.LockRecord(0, 0);
      RaceState(Run(RACE, steps).value, Some(record), Lock.Removing(record), NotStarted, Lock.Removing(record),
          NotStarted)
  {
    steps := OwnerStops();
    hide Run;
    steps := Extend(RACE, steps, Locking(Lock.Inspect(1)));
    steps := Extend(RACE, steps, Locking(Lock.InspectAgain(1)));
    steps := Extend(RACE, steps, Locking(Lock.Inspect(2)));
    steps := Extend(RACE, steps, Locking(Lock.InspectAgain(2)));
  }

  lemma FirstPrepares() returns (steps: seq<Step>)
    ensures Run(RACE, steps).Some?
    ensures RaceState(Run(RACE, steps).value, Some(Lock.LockRecord(1, 1)),
                      Lock.Holding, HasWritten(NextSelection(RACE.inputs(1), None)),
                      Lock.Removing(Lock.LockRecord(0, 0)), NotStarted)
  {
    steps := BothConfirmStale();
    hide Run;
    steps := Extend(RACE, steps, Locking(Lock.RemoveStale(1)));
    steps := Extend(RACE, steps, Locking(Lock.Create(1)));
    steps := Extend(RACE, steps, ReadSelection(1));
    steps := Extend(RACE, steps, VerifyRevision(1));
    steps := Extend(RACE, steps, WriteTemporary(1));
  }

  lemma SecondPrepares() returns (steps: seq<Step>)
    ensures Run(RACE, steps).Some?
    ensures RaceState(Run(RACE, steps).value, Some(Lock.LockRecord(2, 2)),
                      Lock.Holding, HasWritten(NextSelection(RACE.inputs(1), None)),
                      Lock.Holding, HasWritten(NextSelection(RACE.inputs(2), None)))
  {
    steps := FirstPrepares();
    hide Run;
    steps := Extend(RACE, steps, Locking(Lock.RemoveStale(2)));
    steps := Extend(RACE, steps, Locking(Lock.Create(2)));
    steps := Extend(RACE, steps, ReadSelection(2));
    steps := Extend(RACE, steps, VerifyRevision(2));
    steps := Extend(RACE, steps, WriteTemporary(2));
  }

  /**
   Without care the promise fails: after a lock owner stops, two writers can both publish on the
   same expected digest, and the history is no chain.
   */
  lemma StaleLockRace() returns (steps: seq<Step>)
    ensures ValidConfig(RACE) && Run(RACE, steps).Some? && !CarefulRun(RACE, steps)
    ensures RACE.inputs(1).expected == RACE.inputs(2).expected
    ensures Succeeded(Run(RACE, steps).value, 1) && Succeeded(Run(RACE, steps).value, 2)
    ensures !Chain(Run(RACE, steps).value)
  {
    steps := SecondPrepares();
    var s := Run(RACE, steps).value;
    steps := Extend(RACE, steps, Rename(1));
    steps := Extend(RACE, steps, Rename(2));
    hide Run;
    var t := Run(RACE, steps).value;
    assert t.history == [NextSelection(RACE.inputs(1), None), NextSelection(RACE.inputs(2), None)];
    assert !Follows(t.history, 1);
    if CarefulRun(RACE, steps) {
      OneSuccessPerExpectedDigest(RACE, steps, 1, 2);
    }
  }
}
