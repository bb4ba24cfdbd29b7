/**
 Publishing of validation results
 (packages/runner/src/execution-plans/local-plan-validation-store.ts), by any number of writers of
 one plan slot, stopped between any two file operations.

 A basis digest is published under one slot only, so all writers of a head share the lock.
 */
module ValidationStore {
  import opened Wrappers
  import Lock = PlanLock

  type Writer = Lock.Writer

  // ---------------------------------------------------------------- documents

  // The plan slot's scope, and the rest of an execution cache key.
  type Scope = nat
  type ProjectKey = nat

  // The fields that validationBasisDigest hashes; `evidence` stands for the other digests in it.
  datatype Basis = Basis(revisionId: nat, scope: Scope, project: ProjectKey, evidence: nat)

  datatype BasisDigest = BasisDigestOf(basis: Basis)

  datatype RunReference = RunReference(projectKey: ProjectKey, runId: nat, resultDigest: nat)

  datatype Outcome = Passed | Failed | Cancelled

  datatype Receipt = Receipt(basis: Basis, run: RunReference, validatedAt: nat)

  // planDigest of a receipt without its id.
  datatype ReceiptId = ReceiptIdOf(receipt: Receipt)

  datatype Head = Head(basis: BasisDigest, generation: nat, run: RunReference, outcome: Outcome,
      receiptId: Option<ReceiptId>)

  datatype Input = Input(scope: Scope, basis: BasisDigest, run: RunReference, outcome: Outcome,
      receipt: Option<Receipt>)

  /** The receipt an input may issue, after the checks of prepareReceipt; Err refuses the input. */
  function IssuedReceipt(input: Input): Result<Option<Receipt>, ()> {
    if !input.outcome.Passed? then (if input.receipt.Some? then Err(()) else Ok(None))
    else
      match input.receipt
      case None => Err(())
      case Some(receipt) =>
        if receipt.run != input.run || BasisDigestOf(receipt.basis) != input.basis then Err(())
        else if receipt.basis.scope != input.scope then Err(())
        else Ok(Some(receipt))
  }

  function IdOf(receipt: Option<Receipt>): Option<ReceiptId> {
    match receipt
    case None => None
    case Some(r) => Some(ReceiptIdOf(r))
  }

  /** The result that a head records, without its generation. */
  predicate Repeats(head: Head, input: Input, receiptId: Option<ReceiptId>) {
    head.run == input.run && head.outcome == input.outcome && head.receiptId == receiptId
  }

  function NextHead(input: Input, current: Option<Head>, receiptId: Option<ReceiptId>): Head {
    Head(input.basis, (if current.Some? then current.value.generation else 0) + 1, input.run, input.outcome, receiptId)
  }

  // ---------------------------------------------------------------- the store

  datatype Work =
    | NotStarted
    | HasRead(current: Option<Head>)
    | HasReceipt(current: Option<Head>, receipt: Option<Receipt>)   // published the receipt file
    | HasWritten(next: Head)                                        // to the temporary file
    | Finished(result: Option<Head>)

  datatype Store = Store(
    lock: Lock.LockState,
    receipts: map<ReceiptId, Receipt>,
    heads: map<BasisDigest, Head>,
    work: map<Writer, Work>)
  {
    function WorkOf(w: Writer): Work {
      if w in work then work[w] else NotStarted
    }

    function With(w: Writer, k: Work): Store {
      this.(work := work[w := k])
    }

    function HeadOf(basis: BasisDigest): Option<Head> {
      if basis in heads then Some(heads[basis]) else None
    }
  }

  datatype Config = Config(inputs: Writer -> Input, processes: Lock.Processes)

  datatype Step =
    | Locking(step: Lock.Step)
    | ReadHead(w: Writer)
    | LinkReceipt(w: Writer)
    | Decide(w: Writer)
    | Rename(w: Writer)
    | Fail(w: Writer)

  const Initial := Store(Lock.Initial, map[], map[], map[])

  predicate Holds(c: Config, s: Store, w: Writer) {
    s.lock.PcOf(w).Holding? && Lock.Alive(c.processes, s.lock, w)
  }

  /** publishImmutableFile: a file that exists must hold the same bytes. */
  predicate CanLink(s: Store, receipt: Receipt) {
    ReceiptIdOf(receipt) in s.receipts ==> s.receipts[ReceiptIdOf(receipt)] == receipt
  }

  /** The state after a step, if the step can happen. */
  function Apply(c: Config, s: Store, step: Step): Option<Store> {
    match step
    case Locking(lockStep) =>
      if lockStep.CheckToken? && !s.WorkOf(lockStep.w).Finished? then None
      else
        (match Lock.Apply(c.processes, s.lock, lockStep)
         case None => None
         case Some(lock) => Some(s.(lock := lock)))
    case ReadHead(w) =>
      if !Holds(c, s, w) || !s.WorkOf(w).NotStarted? then None
      else Some(s.With(w, HasRead(s.HeadOf(c.inputs(w).basis))))
    case LinkReceipt(w) =>
      if !Holds(c, s, w) || !s.WorkOf(w).HasRead? then None
      else
        (match IssuedReceipt(c.inputs(w))
         case Err(_) => Some(s.With(w, Finished(None)))
         case Ok(None) => Some(s.With(w, HasReceipt(s.WorkOf(w).current, None)))
         case Ok(Some(receipt)) =>
           if !CanLink(s, receipt) then Some(s.With(w, Finished(None)))
           else Some(s.With(w, HasReceipt(s.WorkOf(w).current, Some(receipt))).(
                       receipts := s.receipts[ReceiptIdOf(receipt) := receipt])))
    case Decide(w) =>
      if !Holds(c, s, w) || !s.WorkOf(w).HasReceipt? then None
      else
        var current, id := s.WorkOf(w).current, IdOf(s.WorkOf(w).receipt);
        if current.Some? && Repeats(current.value, c.inputs(w), id) then Some(s.With(w, Finished(current)))
        else Some(s.With(w, HasWritten(NextHead(c.inputs(w), current, id))))
    case Rename(w) =>
      if !Holds(c, s, w) || !s.WorkOf(w).HasWritten? then None
      else
        var next := s.WorkOf(w).next;
        Some(s.With(w, Finished(Some(next))).(heads := s.heads[next.basis := next]))
    case Fail(w) =>
      if !Holds(c, s, w) || s.WorkOf(w).Finished? then None else Some(s.With(w, Finished(None)))
  }

  function Run(c: Config, steps: seq<Step>): Option<Store> {
    if steps == [] then Some(Initial)
    else
      match Run(c, steps[..|steps| - 1])
      case None => None
      case Some(s) => Apply(c, s, steps[|steps| - 1])
  }

  predicate CarefulStep(s: Store, step: Step) {
    step.Locking? ==> Lock.Careful(s.lock, step.step)
  }

  /** A run in which no stale lock is unlinked after somebody else has already replaced it. */
  predicate CarefulRun(c: Config, steps: seq<Step>) {
    steps == []
    || (&& CarefulRun(c, steps[..|steps| - 1])
        && (match Run(c, steps[..|steps| - 1])
            case None => true
            case Some(s) => CarefulStep(s, steps[|steps| - 1])))
  }

  // ---------------------------------------------------------------- invariants

  /** A head is backed: it has a receipt exactly when it passed, stored, for its basis and its run. */
  ghost predicate Backed(s: Store, head: Head) {
    && (head.receiptId.Some? <==> head.outcome.Passed?)
    && (head.receiptId.Some? ==>
          && head.receiptId.value in s.receipts
          && s.receipts[head.receiptId.value] == head.receiptId.value.receipt
          && BasisDigestOf(s.receipts[head.receiptId.value].basis) == head.basis
          && s.receipts[head.receiptId.value].run == head.run)
  }

  ghost predicate HeadsBacked(s: Store) {
    forall b :: b in s.heads ==> s.heads[b].basis == b && s.heads[b].generation > 0 && Backed(s, s.heads[b])
  }

  ghost predicate ReceiptsNamed(s: Store) {
    forall id :: id in s.receipts ==> s.receipts[id] == id.receipt
  }

  /** What a live writer has in hand is still what is visible, and its receipt is stored. */
  ghost predicate UpToDate(c: Config, s: Store) {
    forall w | Holds(c, s, w) ::
      match s.WorkOf(w)
      case HasRead(current) => current == s.HeadOf(c.inputs(w).basis)
      case HasReceipt(current, receipt) =>
        && current == s.HeadOf(c.inputs(w).basis)
        && Backed(s, NextHead(c.inputs(w), current, IdOf(receipt)))
      case HasWritten(next) =>
        var id := next.receiptId;
        && next == NextHead(c.inputs(w), s.HeadOf(c.inputs(w).basis), id)
        && Backed(s, next)
        && !(s.HeadOf(next.basis).Some? && Repeats(s.HeadOf(next.basis).value, c.inputs(w), id))
      case _ => true
  }

  /** Only a writer that took the lock has done anything. */
  ghost predicate Staged(s: Store) {
    forall w :: s.WorkOf(w).NotStarted? || Lock.InSection(s.lock, w) || s.lock.PcOf(w).Left?
  }

  ghost predicate Inv(c: Config, s: Store) {
    Lock.Inv(c.processes, s.lock) && Staged(s) && HeadsBacked(s) && ReceiptsNamed(s) && UpToDate(c, s)
  }

  lemma LockingKeepsInv(c: Config, s: Store, step: Lock.Step)
    requires Inv(c, s) && Apply(c, s, Locking(step)).Some? && Lock.Careful(s.lock, step)
    ensures Inv(c, Apply(c, s, Locking(step)).value)
  {
    Lock.StepKeepsLockExactlyWhen(c.processes, s.lock, step);
    var t := Apply(c, s, Locking(step)).value;
    forall w ensures Holds(c, t, w) ==> Holds(c, s, w) || s.WorkOf(w).NotStarted? {
      Lock.StepFrame(c.processes, s.lock, step, w);
    }
    forall w ensures t.WorkOf(w).NotStarted? || Lock.InSection(t.lock, w) || t.lock.PcOf(w).Left? {
      Lock.StepFrame(c.processes, s.lock, step, w);
    }
    assert forall head :: Backed(t, head) == Backed(s, head);
    assert forall b :: t.HeadOf(b) == s.HeadOf(b);
  }

  lemma OnlyHolder(c: Config, s: Store, w: Writer, v: Writer)
    requires Inv(c, s) && Holds(c, s, w) && Holds(c, s, v)
    ensures v == w
  {
    Lock.LockedIsExclusive(c.processes, s.lock);
  }

  predicate IsStepOf(step: Step, w: Writer) {
    step == ReadHead(w) || step == LinkReceipt(w) || step == Decide(w) || step == Rename(w) || step == Fail(w)
  }

  lemma WorkingKeepsStage(c: Config, s: Store, step: Step, w: Writer)
    requires Inv(c, s) && IsStepOf(step, w) && Apply(c, s, step).Some?
    ensures Staged(Apply(c, s, step).value)
    ensures forall v :: Holds(c, Apply(c, s, step).value, v) ==> v == w
  {
    hide HeadsBacked, ReceiptsNamed, UpToDate;
    var t := Apply(c, s, step).value;
    forall v | Holds(c, t, v) ensures v == w {
      OnlyHolder(c, s, w, v);
    }
    assert forall v :: v != w ==> t.WorkOf(v) == s.WorkOf(v);
  }

  /** More receipts back no fewer heads: a receipt file is never replaced by another. */
  lemma StoredStaysBacked(s: Store, receipt: Receipt)
    requires HeadsBacked(s)
    ensures HeadsBacked(s.(receipts := s.receipts[ReceiptIdOf(receipt) := receipt]))
  {
    var t := s.(receipts := s.receipts[ReceiptIdOf(receipt) := receipt]);
    forall b | b in t.heads ensures t.heads[b].basis == b && t.heads[b].generation > 0 && Backed(t, t.heads[b]) {
      assert Backed(s, s.heads[b]);
    }
  }

  lemma QuietKeepsInv(c: Config, s: Store, step: Step, w: Writer)
    requires Inv(c, s) && IsStepOf(step, w) && Apply(c, s, step).Some? && (step.ReadHead? || step.Decide? || step.Fail?)
    ensures Inv(c, Apply(c, s, step).value)
  {
    WorkingKeepsStage(c, s, step, w);
    var t := Apply(c, s, step).value;
    assert Holds(c, s, w);
    assert t.lock == s.lock && t.heads == s.heads && t.receipts == s.receipts;
    assert forall head :: Backed(t, head) == Backed(s, head);
  }

  lemma LinkKeepsInv(c: Config, s: Store, w: Writer)
    requires Inv(c, s) && Apply(c, s, LinkReceipt(w)).Some?
    ensures Inv(c, Apply(c, s, LinkReceipt(w)).value)
  {
    WorkingKeepsStage(c, s, LinkReceipt(w), w);
    var t := Apply(c, s, LinkReceipt(w)).value;
    assert Holds(c, s, w);
    var issued := IssuedReceipt(c.inputs(w));
    if issued.Ok? && issued.value.Some? {
      StoredStaysBacked(s, issued.value.value);
    }
    assert HeadsBacked(t);
    hide HeadsBacked;
  }

  lemma RenameKeepsInv(c: Config, s: Store, w: Writer)
    requires Inv(c, s) && Apply(c, s, Rename(w)).Some?
    ensures Inv(c, Apply(c, s, Rename(w)).value)
  {
    WorkingKeepsStage(c, s, Rename(w), w);
    var t := Apply(c, s, Rename(w)).value;
    assert Holds(c, s, w);
    forall b | b in t.heads ensures t.heads[b].basis == b && t.heads[b].generation > 0 && Backed(t, t.heads[b]) {
      assert Backed(s, t.heads[b]);
    }
    hide HeadsBacked;
  }

  /** Every careful run keeps the invariant, wherever it stops. */
  lemma {:induction false} RunKeepsInv(c: Config, steps: seq<Step>)
    requires CarefulRun(c, steps) && Run(c, steps).Some?
    ensures Inv(c, Run(c, steps).value)
  {
    if steps != [] {
      hide Inv, Apply, CarefulStep;
      var s, step := Run(c, steps[..|steps| - 1]).value, steps[|steps| - 1];
      RunKeepsInv(c, steps[..|steps| - 1]);
      StepKeepsInv(c, s, step);
    } else {
      assert forall head :: Backed(Initial, head) ==> head.receiptId.None?;
    }
  }

  lemma StepKeepsInv(c: Config, s: Store, step: Step)
    requires Inv(c, s) && Apply(c, s, step).Some? && CarefulStep(s, step)
    ensures Inv(c, Apply(c, s, step).value)
  {
    hide Inv;
    match step
    case Locking(lockStep) => LockingKeepsInv(c, s, lockStep);
    case ReadHead(w) => QuietKeepsInv(c, s, step, w);
    case LinkReceipt(w) => LinkKeepsInv(c, s, w);
    case Decide(w) => QuietKeepsInv(c, s, step, w);
    case Rename(w) => RenameKeepsInv(c, s, w);
    case Fail(w) => QuietKeepsInv(c, s, step, w);
  }

  // ---------------------------------------------------------------- which runs are careful

  /** After its first k steps a run has its lock: a live writer in the section finds its own record in the file. */
  ghost predicate LockedAfter(c: Config, steps: seq<Step>, k: nat)
    requires k <= |steps|
  {
    Run(c, steps[..k]).Some? && Lock.Locked(c.processes, Run(c, steps[..k]).value.lock)
  }

  ghost predicate AlwaysLocked(c: Config, steps: seq<Step>) {
    forall k: nat :: k <= |steps| ==> LockedAfter(c, steps, k)
  }

  lemma AlwaysLockedStep(c: Config, steps: seq<Step>)
    requires steps != []
    ensures AlwaysLocked(c, steps)
       <==> AlwaysLocked(c, steps[..|steps| - 1]) && LockedAfter(c, steps, |steps|)
  {
    var before := steps[..|steps| - 1];
    assert forall k: nat :: k <= |before| ==> steps[..k] == before[..k];
    assert forall k: nat :: k <= |before| ==> (LockedAfter(c, steps, k) <==> LockedAfter(c, before, k));
  }

  /** The runs that keep the lock at every moment are the careful ones, and no others. */
  lemma {:induction false} CarefulExactlyWhenLocked(c: Config, steps: seq<Step>)
    requires Run(c, steps).Some?
    ensures CarefulRun(c, steps) <==> AlwaysLocked(c, steps)
    ensures CarefulRun(c, steps) ==> Lock.Inv(c.processes, Run(c, steps).value.lock)
  {
    if steps == [] {
      assert LockedAfter(c, steps, 0);
    } else {
      var before, last := steps[..|steps| - 1], steps[|steps| - 1];
      CarefulExactlyWhenLocked(c, before);
      AlwaysLockedStep(c, steps);
      assert steps[..|steps|] == steps;
      hide AlwaysLocked, Lock.Inv;
      if CarefulRun(c, before) {
        StepKeepsLock(c, Run(c, before).value, last);
      }
    }
  }

  lemma StepKeepsLock(c: Config, s: Store, step: Step)
    requires Apply(c, s, step).Some? && Lock.Inv(c.processes, s.lock)
    ensures Lock.Locked(c.processes, Apply(c, s, step).value.lock) <==> CarefulStep(s, step)
    ensures CarefulStep(s, step) ==> Lock.Inv(c.processes, Apply(c, s, step).value.lock)
  {
    if step.Locking? {
      Lock.StepKeepsLockExactlyWhen(c.processes, s.lock, step.step);
    } else {
      assert Apply(c, s, step).value.lock == s.lock;
    }
  }

  // ---------------------------------------------------------------- what every careful run guarantees

  /**
   Wherever the writers stop, a visible head has a receipt exactly when it passed, and that
   receipt is stored and is for the head's basis and run.
   */
  lemma VisibleHeadsAreBacked(c: Config, steps: seq<Step>, b: BasisDigest)
    requires CarefulRun(c, steps) && Run(c, steps).Some? && b in Run(c, steps).value.heads
    ensures
      var s := Run(c, steps).value;
      s.heads[b].basis == b && Backed(s, s.heads[b])
  {
    RunKeepsInv(c, steps);
  }

  /**
   A step changes at most one head, and then raises its generation by one and records a result
   that the head did not hold yet: repeating a result leaves it unchanged.  Receipts only accrue.
   */
  lemma GenerationsCountChanges(c: Config, steps: seq<Step>, step: Step, b: BasisDigest)
    requires CarefulRun(c, steps) && Run(c, steps).Some?
    requires Apply(c, Run(c, steps).value, step).Some?
    ensures
      var s, t := Run(c, steps).value, Apply(c, Run(c, steps).value, step).value;
      && (forall id :: id in s.receipts ==> id in t.receipts && t.receipts[id] == s.receipts[id])
      && (b in s.heads ==> b in t.heads)
      && (b in t.heads ==>
          || (b in s.heads && t.heads[b] == s.heads[b])
          || (&& t.heads[b].generation == (if b in s.heads then s.heads[b].generation else 0) + 1
              && (b in s.heads ==>
                    || t.heads[b].run != s.heads[b].run || t.heads[b].outcome != s.heads[b].outcome
                    || t.heads[b].receiptId != s.heads[b].receiptId)))
  {
    RunKeepsInv(c, steps);
    var s := Run(c, steps).value;
    if step.Rename? {
      assert Holds(c, s, step.w);
    }
  }

  // ---------------------------------------------------------------- heads are what writers asked for

  /**
   The head has the basis, run and outcome of the writer's input; and for an outcome that passed the
   digest of the input's receipt, which is of that run, basis and scope.
   */
  predicate Asks(c: Config, w: Writer, head: Head) {
    var input := c.inputs(w);
    && head.basis == input.basis && head.run == input.run && head.outcome == input.outcome
    && if input.outcome.Passed? then
         && input.receipt.Some? && head.receiptId == Some(ReceiptIdOf(input.receipt.value))
         && input.receipt.value.run == input.run && BasisDigestOf(input.receipt.value.basis) == input.basis
         && input.receipt.value.basis.scope == input.scope
       else input.receipt.None? && head.receiptId.None?
  }

  ghost predicate IsAsked(c: Config, head: Head) {
    exists w :: Asks(c, w, head)
  }

  predicate OfBasis(c: Config, w: Writer, current: Option<Head>) {
    current.Some? ==> current.value.basis == c.inputs(w).basis
  }

  predicate WorksAsAsked(c: Config, w: Writer, k: Work) {
    match k
    case NotStarted => true
    case HasRead(current) => OfBasis(c, w, current)
    case HasReceipt(current, receipt) =>
      OfBasis(c, w, current) && Asks(c, w, NextHead(c.inputs(w), current, IdOf(receipt)))
    case HasWritten(next) => Asks(c, w, next)
    case Finished(result) => result.Some? ==> Asks(c, w, result.value)
  }

  ghost predicate AllAsAsked(c: Config, s: Store) {
    && (forall b :: b in s.heads ==> s.heads[b].basis == b && IsAsked(c, s.heads[b]))
    && (forall w :: WorksAsAsked(c, w, s.WorkOf(w)))
  }

  lemma StepKeepsAsked(c: Config, s: Store, step: Step)
    requires AllAsAsked(c, s) && Apply(c, s, step).Some?
    ensures AllAsAsked(c, Apply(c, s, step).value)
  {
    var t := Apply(c, s, step).value;
    forall v ensures WorksAsAsked(c, v, t.WorkOf(v)) {
      assert WorksAsAsked(c, v, s.WorkOf(v));
    }
    forall b | b in t.heads ensures t.heads[b].basis == b && IsAsked(c, t.heads[b]) {
      if !(b in s.heads && t.heads[b] == s.heads[b]) {
        assert WorksAsAsked(c, step.w, s.WorkOf(step.w));
        assert Asks(c, step.w, t.heads[b]);
      }
    }
  }

  /**
   In every run, careful or not, a visible head is what some writer asked for, and a writer that is
   told of a head is told of one that has what it asked for.
   */
  lemma {:induction false} HeadsAreAsked(c: Config, steps: seq<Step>)
    requires Run(c, steps).Some?
    ensures AllAsAsked(c, Run(c, steps).value)
  {
    if steps != [] {
      hide AllAsAsked, Apply;
      HeadsAreAsked(c, steps[..|steps| - 1]);
      StepKeepsAsked(c, Run(c, steps[..|steps| - 1]).value, steps[|steps| - 1]);
    }
  }

  /** Exactly when the visible head has what a writer asks for, the writer is told of it as it is. */
  lemma RepeatReturnsTheHead(c: Config, steps: seq<Step>, w: Writer)
    requires CarefulRun(c, steps) && Run(c, steps).Some? && Apply(c, Run(c, steps).value, Decide(w)).Some?
    ensures
      var s, t := Run(c, steps).value, Apply(c, Run(c, steps).value, Decide(w)).value;
      var b := c.inputs(w).basis;
      b in s.heads && Asks(c, w, s.heads[b]) <==> b in s.heads && t.WorkOf(w) == Finished(Some(s.heads[b]))
  {
    RunKeepsInv(c, steps);
    HeadsAreAsked(c, steps);
    var s := Run(c, steps).value;
    assert Holds(c, s, w) && WorksAsAsked(c, w, s.WorkOf(w));
  }

  // ---------------------------------------------------------------- when a writer is refused

  /** A passed outcome comes with a receipt for the run, basis and scope; another comes with none. */
  predicate IsAcceptable(input: Input) {
    if input.outcome.Passed? then
      && input.receipt.Some? && input.receipt.value.run == input.run
      && BasisDigestOf(input.receipt.value.basis) == input.basis && input.receipt.value.basis.scope == input.scope
    else input.receipt.None?
  }

  /** A stored receipt is the one that its file is named after, and a refused writer had no acceptable input. */
  ghost predicate RefusedRightly(c: Config, s: Store, failed: set<Writer>) {
    && (forall id :: id in s.receipts ==> id == ReceiptIdOf(s.receipts[id]))
    && (forall w :: s.WorkOf(w) == Finished(None) && w !in failed ==> !IsAcceptable(c.inputs(w)))
  }

  function FailedIn(steps: seq<Step>): set<Writer> {
    set step | step in steps && step.Fail? :: step.w
  }

  lemma StepRefusesRightly(c: Config, s: Store, step: Step, failed: set<Writer>)
    requires RefusedRightly(c, s, failed) && Apply(c, s, step).Some?
    ensures RefusedRightly(c, Apply(c, s, step).value, if step.Fail? then failed + {step.w} else failed)
  {
    var t := Apply(c, s, step).value;
    forall w | t.WorkOf(w) == Finished(None) && s.WorkOf(w) != Finished(None) && !step.Fail?
      ensures !IsAcceptable(c.inputs(w))
    {
      assert step == LinkReceipt(w);
    }
  }

  /**
   In every run, careful or not: a writer that ends without a head, and not because one of its file
   operations failed, was given no acceptable input.  A stored receipt never stands in the way.
   */
  lemma {:induction false} RefusedForAReason(c: Config, steps: seq<Step>)
    requires Run(c, steps).Some?
    ensures RefusedRightly(c, Run(c, steps).value, FailedIn(steps))
  {
    if steps != [] {
      var before, last := steps[..|steps| - 1], steps[|steps| - 1];
      RefusedForAReason(c, before);
      assert FailedIn(steps) == if last.Fail? then FailedIn(before) + {last.w} else FailedIn(before);
      hide RefusedRightly, Apply;
      StepRefusesRightly(c, Run(c, before).value, last, FailedIn(before));
    }
  }

  /** How many of its steps a writer has behind it. */
  function Stage(work: Work): nat {
    match work
    case NotStarted => 0
    case HasRead(_) => 1
    case HasReceipt(_, _) => 2
    case HasWritten(_) => 3
    case Finished(_) => 4
  }

  /** A step that takes the writer on. */
  ghost predicate TakesOn(c: Config, s: Store, step: Step, w: Writer) {
    && IsStepOf(step, w) && !step.Fail? && Apply(c, s, step).Some?
    && Stage(Apply(c, s, step).value.WorkOf(w)) > Stage(s.WorkOf(w))
  }

  /** A live lock holder is never stuck: it can go on, or it has finished and can release the lock. */
  lemma HolderGoesOn(c: Config, s: Store, w: Writer)
    requires Holds(c, s, w)
    ensures if s.WorkOf(w).Finished? then Apply(c, s, Locking(Lock.CheckToken(w))).Some?
            else exists step :: TakesOn(c, s, step, w)
  {
    match s.WorkOf(w)
    case NotStarted => assert TakesOn(c, s, ReadHead(w), w);
    case HasRead(_) => assert TakesOn(c, s, LinkReceipt(w), w);
    case HasReceipt(_, _) => assert TakesOn(c, s, Decide(w), w);
    case HasWritten(_) => assert TakesOn(c, s, Rename(w), w);
    case Finished(_) =>
  }

  /** A writer works under the lock only, and gives it back only when it has finished. */
  ghost predicate ReleasedDone(s: Store) {
    forall w ::
      && (s.lock.PcOf(w).Releasing? ==> s.WorkOf(w).Finished?)
      && (s.lock.PcOf(w).Left? ==> s.WorkOf(w).NotStarted? || s.WorkOf(w).Finished?)
      && (!Lock.InSection(s.lock, w) && !s.lock.PcOf(w).Left? ==> s.WorkOf(w).NotStarted?)
  }

  lemma StepReleasesDone(c: Config, s: Store, step: Step)
    requires ReleasedDone(s) && Apply(c, s, step).Some?
    ensures ReleasedDone(Apply(c, s, step).value)
  {
    if step.Locking? {
      forall w {
        Lock.StepFrame(c.processes, s.lock, step.step, w);
      }
    }
  }

  lemma {:induction false} ReleasesWhenFinished(c: Config, steps: seq<Step>)
    requires Run(c, steps).Some?
    ensures ReleasedDone(Run(c, steps).value)
  {
    if steps != [] {
      hide Apply, ReleasedDone;
      ReleasesWhenFinished(c, steps[..|steps| - 1]);
      StepReleasesDone(c, Run(c, steps[..|steps| - 1]).value, steps[|steps| - 1]);
    }
  }
}
