/**
 The validator of packages/web/src/execution-cache/web-plan-validator.ts: it accepts a candidate
 plan by replaying, on the baseline, the locator edits that would explain it.
 */
module WebPlanValidator {
  import opened Wrappers
  import opened WebPlan

  // ---------------------------------------------------------------- reconstruction

  /** Replays on `reconstructed` the change, if any, of one instruction. */
  function ReplayInstruction(baseline: Payload, candidate: Payload, steps: seq<StepIdentity>, required: set<string>,
                             reconstructed: Payload, i: nat, j: nat): Result<Payload, Reason>
    requires HasInstruction(baseline, i, j) && HasInstruction(candidate, i, j)
  {
    var before, after := baseline.steps[i].instructions[j], candidate.steps[i].instructions[j];
    if DigestOf(before) == DigestOf(after) then Ok(reconstructed)
    else if !IsEditable(before) || !IsEditable(after) then Err(AssertionChange)
    else if !SameKind(before, after) then Err(AssertionChange)
    else if i >= |steps| || !HasInstruction(reconstructed, i, j) then Err(InvalidPayload)
    else
      var current := reconstructed.steps[i].instructions[j];
      ReplaceTarget(reconstructed, steps, required, Edit(steps[i], j, DigestOf(current), after.locator))
  }

  predicate SameKind(a: Instruction, b: Instruction) {
    a.Click? == b.Click? && a.Fill? == b.Fill? && a.TypeText? == b.TypeText? && a.Hover? == b.Hover?
    && a.SelectOption? == b.SelectOption?
  }

  /** The instructions of step i from j on. */
  function ReplayStep(baseline: Payload, candidate: Payload, steps: seq<StepIdentity>, required: set<string>,
                      reconstructed: Payload, i: nat, j: nat): Result<Payload, Reason>
    requires i < |baseline.steps| && i < |candidate.steps| && j <= |baseline.steps[i].instructions|
    requires |candidate.steps[i].instructions| == |baseline.steps[i].instructions|
    decreases |baseline.steps[i].instructions| - j
  {
    if j == |baseline.steps[i].instructions| then Ok(reconstructed)
    else
      var next :- ReplayInstruction(baseline, candidate, steps, required, reconstructed, i, j);
      ReplayStep(baseline, candidate, steps, required, next, i, j + 1)
  }

  /** The steps from i on. */
  function ReplaySteps(baseline: Payload, candidate: Payload, steps: seq<StepIdentity>, required: set<string>,
                       reconstructed: Payload, i: nat): Result<Payload, Reason>
    requires i <= |baseline.steps|
    decreases |baseline.steps| - i
  {
    if i == |baseline.steps| then Ok(reconstructed)
    else if i >= |candidate.steps| || |candidate.steps[i].instructions| != |baseline.steps[i].instructions| then
      Err(AssertionChange)
    else
      var next :- ReplayStep(baseline, candidate, steps, required, reconstructed, i, 0);
      ReplaySteps(baseline, candidate, steps, required, next, i + 1)
  }

  function Reconstructed(baseline: Payload, candidate: Payload, steps: seq<StepIdentity>,
          required: set<string>): Result<Payload, Reason> {
    var reconstructed :- ReplaySteps(baseline, candidate, steps, required, baseline, 0);
    if DigestOf(reconstructed) == DigestOf(candidate) then Ok(reconstructed) else Err(AssertionChange)
  }

  method ReconstructCandidate(baseline: Payload, candidate: Payload, steps: seq<StepIdentity>, required: set<string>)
    returns (result: Result<Payload, Reason>)
    ensures result == Reconstructed(baseline, candidate, steps, required)
  {
    var reconstructed := baseline;
    for i := 0 to |baseline.steps|
      invariant ReplaySteps(baseline, candidate, steps, required, baseline, 0)
             == ReplaySteps(baseline, candidate, steps, required, reconstructed, i)
    {
      if i >= |candidate.steps| || |candidate.steps[i].instructions| != |baseline.steps[i].instructions| {
        return Err(AssertionChange);
      }
      ghost var atStart := reconstructed;
      for j := 0 to |baseline.steps[i].instructions|
        invariant ReplayStep(baseline, candidate, steps, required, atStart, i, 0)
               == ReplayStep(baseline, candidate, steps, required, reconstructed, i, j)
      {
        reconstructed :- ReplayInstruction(baseline, candidate, steps, required, reconstructed, i, j);
      }
    }
    return if DigestOf(reconstructed) == DigestOf(candidate) then Ok(reconstructed) else Err(AssertionChange);
  }

  // ---------------------------------------------------------------- validation

  datatype Input = Input(
    baseline: Payload, candidate: Payload, steps: seq<StepIdentity>, scenarioRevision: string,
    scenarioSteps: seq<StepType>, required: set<string>)

  datatype Check = Check(stepIndex: nat, instructionIndex: nat, instruction: Instruction)

  datatype AssertionBasis = AssertionBasis(scenarioSteps: seq<StepType>, checks: seq<Check>)

  datatype Validated = Validated(baseline: Payload, payload: Payload, assertionDigest: Digest<AssertionBasis>)

  function StepChecks(instructions: seq<Instruction>, i: nat, j: nat): seq<Check> {
    if instructions == [] then []
    else
      (if IsEditable(instructions[0]) then [] else [Check(i, j, instructions[0])])
      + StepChecks(instructions[1..], i, j + 1)
  }

  function PlanChecks(steps: seq<Step>, i: nat): seq<Check> {
    if steps == [] then [] else StepChecks(steps[0].instructions, i, 0) + PlanChecks(steps[1..], i + 1)
  }

  /** assertionBasis: the scenario steps and every protected instruction with its place. */
  function BasisOf(p: Payload, scenarioSteps: seq<StepType>): AssertionBasis {
    AssertionBasis(scenarioSteps, PlanChecks(p.steps, 0))
  }

  predicate WellPlaced(input: Input) {
    && |input.candidate.steps| == |input.scenarioSteps|
    && |input.steps| == |input.scenarioSteps|
    && forall i | 0 <= i < |input.steps| :: input.steps[i] == StepIdentity(input.scenarioRevision, i)
  }

  /** The checks that come before the reconstruction. */
  predicate WellShaped(input: Input) {
    && ValidPayload(input.baseline) && ValidPayload(input.candidate)
    && KnownVariables(input.baseline, input.required) && KnownVariables(input.candidate, input.required)
    && WellPlaced(input)
    && Projects(input.baseline, input.scenarioSteps) && Projects(input.candidate, input.scenarioSteps)
  }

  method ValidateCandidate(input: Input) returns (result: Result<Validated, Reason>)
    ensures result == Validation(input)
  {
    if !ValidPayload(input.baseline) || !ValidPayload(input.candidate) {
      return Err(InvalidPayload);
    }
    if !KnownVariables(input.baseline, input.required) || !KnownVariables(input.candidate, input.required) {
      return Err(InvalidPayload);
    }
    if !WellPlaced(input) {
      return Err(IncompletePlan);
    }
    if !Projects(input.baseline, input.scenarioSteps) || !Projects(input.candidate, input.scenarioSteps) {
      return Err(InvalidPayload);
    }
    var reconstructed :- ReconstructCandidate(input.baseline, input.candidate, input.steps, input.required);
    return Ok(Validated(input.baseline, reconstructed, DigestOf(BasisOf(input.baseline, input.scenarioSteps))));
  }

  function Validation(input: Input): Result<Validated, Reason> {
    if !ValidPayload(input.baseline) || !ValidPayload(input.candidate) then Err(InvalidPayload)
    else if !KnownVariables(input.baseline, input.required) || !KnownVariables(input.candidate, input.required) then
      Err(InvalidPayload)
    else if !WellPlaced(input) then Err(IncompletePlan)
    else if !Projects(input.baseline, input.scenarioSteps) || !Projects(input.candidate, input.scenarioSteps) then
      Err(InvalidPayload)
    else
      var reconstructed :- Reconstructed(input.baseline, input.candidate, input.steps, input.required);
      Ok(Validated(input.baseline, reconstructed, DigestOf(BasisOf(input.baseline, input.scenarioSteps))))
  }

  // ---------------------------------------------------------------- the replay, instruction by instruction

  /** What the earlier checks of the validator establish for the reconstruction. */
  ghost predicate Ready(baseline: Payload, candidate: Payload, steps: seq<StepIdentity>, required: set<string>) {
    && ValidPayload(baseline) && ValidPayload(candidate) && KnownVariables(candidate, required)
    && |baseline.steps| <= |steps|
    && forall i | 0 <= i < |steps| :: steps[i].index == i
  }

  lemma PutKeepsValid(p: Payload, i: nat, j: nat, instruction: Instruction)
    requires HasInstruction(p, i, j) && ValidPayload(p) && ValidInstruction(instruction)
    ensures ValidPayload(Put(p, i, j, instruction))
  {
  }

  /** What the replay makes of one instruction, if it does not refuse. */
  function Replayed(before: Instruction, after: Instruction): Option<Instruction> {
    if before == after then Some(before)
    else if IsEditable(before) && IsEditable(after) && SameKind(before, after) && !HasSensitiveInput(before)
    then Some(WithLocator(before, after.locator))
    else None
  }

  lemma AllowedExactlyWhenReplayed(before: Instruction, after: Instruction)
    ensures AllowedChange(before, after) <==> Replayed(before, after) == Some(after)
  {
  }

  lemma ReplacedLocatorIsValid(before: Instruction, after: Instruction)
    requires ValidInstruction(before) && ValidInstruction(after)
    requires IsEditable(before) && IsEditable(after)
    ensures ValidInstruction(WithLocator(before, after.locator))
    ensures LocatorVariables(after.locator) <= InstructionVariables(after)
  {
  }

  lemma ReplayInstructionExact(baseline: Payload, candidate: Payload, steps: seq<StepIdentity>, required: set<string>,
                               r: Payload, i: nat, j: nat)
    requires Ready(baseline, candidate, steps, required) && ValidPayload(r)
    requires HasInstruction(baseline, i, j) && HasInstruction(candidate, i, j) && HasInstruction(r, i, j)
    requires r.steps[i].instructions[j] == baseline.steps[i].instructions[j]
    ensures
      var replayed := Replayed(baseline.steps[i].instructions[j], candidate.steps[i].instructions[j]);
      var result := ReplayInstruction(baseline, candidate, steps, required, r, i, j);
      && (result.Ok? <==> replayed.Some?) && (result.Err? ==> result.error.AssertionChange?)
      && (result.Ok? ==> result.value == Put(r, i, j, replayed.value) && ValidPayload(result.value))
  {
    var before, after := baseline.steps[i].instructions[j], candidate.steps[i].instructions[j];
    assert candidate.steps[i] in candidate.steps && after in candidate.steps[i].instructions;
    assert baseline.steps[i] in baseline.steps && before in baseline.steps[i].instructions;
    if before == after {
      assert Put(r, i, j, before) == r by {
        assert r.steps[i].instructions[j := before] == r.steps[i].instructions;
        assert r.steps[i := r.steps[i]] == r.steps;
      }
    } else if IsEditable(before) && IsEditable(after) {
      ReplacedLocatorIsValid(before, after);
      PutKeepsValid(r, i, j, WithLocator(before, after.locator));
    }
  }

  ghost predicate InstructionsReplayed(before: seq<Instruction>, after: seq<Instruction>, made: seq<Instruction>,
          j: nat) {
    && |before| == |after| == |made|
    && forall b | j <= b < |before| :: Replayed(before[b], after[b]) == Some(made[b])
  }

  /** `v` is `r` with the instructions of step i replayed from j on. */
  ghost predicate StepReplayed(baseline: Payload, candidate: Payload, r: Payload, v: Payload, i: nat, j: nat)
    requires i < |baseline.steps| && i < |candidate.steps| && |r.steps| == |baseline.steps|
    requires |baseline.steps[i].instructions| == |candidate.steps[i].instructions| == |r.steps[i].instructions|
  {
    && ValidPayload(v) && |v.steps| == |r.steps|
    && (forall a | 0 <= a < |r.steps| && a != i :: v.steps[a] == r.steps[a])
    && InstructionsReplayed(baseline.steps[i].instructions, candidate.steps[i].instructions, v.steps[i].instructions, j)
    && (forall b | 0 <= b < j && b < |r.steps[i].instructions| ::
          v.steps[i].instructions[b] == r.steps[i].instructions[b])
  }

  ghost predicate RefusesStep(before: seq<Instruction>, after: seq<Instruction>)
    requires |before| == |after|
  {
    exists b :: 0 <= b < |before| && Replayed(before[b], after[b]).None?
  }

  lemma {:induction false} ReplayStepExact(baseline: Payload, candidate: Payload, steps: seq<StepIdentity>,
          required: set<string>,
                                           r: Payload, i: nat, j: nat)
    requires Ready(baseline, candidate, steps, required) && ValidPayload(r) && |r.steps| == |baseline.steps|
    requires i < |baseline.steps| && i < |candidate.steps| && j <= |baseline.steps[i].instructions|
    requires |baseline.steps[i].instructions| == |candidate.steps[i].instructions| == |r.steps[i].instructions|
    requires forall b | j <= b < |r.steps[i].instructions| ::
      r.steps[i].instructions[b] == baseline.steps[i].instructions[b]
    ensures
      var result := ReplayStep(baseline, candidate, steps, required, r, i, j);
      && (result.Ok? ==> StepReplayed(baseline, candidate, r, result.value, i, j))
      && (result.Err? ==>
            && result.error.AssertionChange?
            && RefusesStep(baseline.steps[i].instructions, candidate.steps[i].instructions))
    decreases |baseline.steps[i].instructions| - j
  {
    if j < |baseline.steps[i].instructions| {
      hide ReplayInstruction, Replayed, Ready, ValidPayload;
      ReplayInstructionExact(baseline, candidate, steps, required, r, i, j);
      var first := ReplayInstruction(baseline, candidate, steps, required, r, i, j);
      if first.Ok? {
        ReplayStepExact(baseline, candidate, steps, required, first.value, i, j + 1);
      }
    }
  }

  ghost predicate ReplayedAt(baseline: Payload, candidate: Payload, v: Payload, a: nat)
    requires a < |baseline.steps| && a < |v.steps|
  {
    && a < |candidate.steps|
    && InstructionsReplayed(baseline.steps[a].instructions, candidate.steps[a].instructions, v.steps[a].instructions, 0)
  }

  /** `v` is `r` with every step replayed from i on. */
  ghost predicate StepsReplayed(baseline: Payload, candidate: Payload, r: Payload, v: Payload, i: nat)
    requires |r.steps| == |baseline.steps|
  {
    && |v.steps| == |r.steps|
    && (forall a | 0 <= a < i && a < |r.steps| :: v.steps[a] == r.steps[a])
    && (forall a | i <= a < |r.steps| :: ReplayedAt(baseline, candidate, v, a))
  }

  lemma JoinReplayed(baseline: Payload, candidate: Payload, r: Payload, v: Payload, w: Payload, i: nat)
    requires |r.steps| == |baseline.steps| && i < |baseline.steps| && i < |candidate.steps|
    requires |baseline.steps[i].instructions| == |candidate.steps[i].instructions| == |r.steps[i].instructions|
    requires StepReplayed(baseline, candidate, r, v, i, 0) && StepsReplayed(baseline, candidate, v, w, i + 1)
    ensures StepsReplayed(baseline, candidate, r, w, i)
  {
    hide InstructionsReplayed, ValidPayload;
    assert w.steps[i] == v.steps[i];
    assert ReplayedAt(baseline, candidate, w, i);
    forall a | 0 <= a < i && a < |r.steps| ensures w.steps[a] == r.steps[a] {
      assert w.steps[a] == v.steps[a];
    }
  }

  lemma {:induction false} ReplayStepsExact(baseline: Payload, candidate: Payload, steps: seq<StepIdentity>,
          required: set<string>,
                                            r: Payload, i: nat)
    requires Ready(baseline, candidate, steps, required) && ValidPayload(r) && |r.steps| == |baseline.steps|
    requires i <= |baseline.steps| && forall a | i <= a < |r.steps| :: r.steps[a] == baseline.steps[a]
    ensures
      var result := ReplaySteps(baseline, candidate, steps, required, r, i);
      && (result.Ok? ==> StepsReplayed(baseline, candidate, r, result.value, i))
      && (result.Err? ==> result.error.AssertionChange? && !OnlyLocatorEdits(baseline, candidate))
    decreases |baseline.steps| - i
  {
    if i < |baseline.steps| {
      hide ReplayStep, Ready, ValidPayload, Replayed, AllowedChange, StepsReplayed;
      if i < |candidate.steps| && |candidate.steps[i].instructions| == |baseline.steps[i].instructions| {
        ReplayStepExact(baseline, candidate, steps, required, r, i, 0);
        var first := ReplayStep(baseline, candidate, steps, required, r, i, 0);
        if first.Ok? {
          ReplayStepsExact(baseline, candidate, steps, required, first.value, i + 1);
          var rest := ReplaySteps(baseline, candidate, steps, required, first.value, i + 1);
          if rest.Ok? {
            JoinReplayed(baseline, candidate, r, first.value, rest.value, i);
          }
        } else {
          RefusedStepIsNoEdit(baseline, candidate, i);
        }
      } else {
        assert baseline.steps[i] == baseline.steps[i];
        assert !OnlyLocatorEdits(baseline, candidate);
      }
    }
  }

  lemma RefusedStepIsNoEdit(baseline: Payload, candidate: Payload, i: nat)
    requires i < |baseline.steps| && i < |candidate.steps|
    requires |candidate.steps[i].instructions| == |baseline.steps[i].instructions|
    requires RefusesStep(baseline.steps[i].instructions, candidate.steps[i].instructions)
    ensures !OnlyLocatorEdits(baseline, candidate)
  {
    hide Replayed, AllowedChange;
    var b :| 0 <= b < |baseline.steps[i].instructions|
          && Replayed(baseline.steps[i].instructions[b], candidate.steps[i].instructions[b]).None?;
    AllowedExactlyWhenReplayed(baseline.steps[i].instructions[b], candidate.steps[i].instructions[b]);
  }

  /** The reconstruction succeeds exactly on the candidates that editing could have made. */
  lemma ReconstructionExact(baseline: Payload, candidate: Payload, steps: seq<StepIdentity>, required: set<string>)
    requires Ready(baseline, candidate, steps, required)
    ensures Reconstructed(baseline, candidate, steps, required).Ok? <==> OnlyLocatorEdits(baseline, candidate)
    ensures OnlyLocatorEdits(baseline, candidate) ==>
      Reconstructed(baseline, candidate, steps, required) == Ok(candidate)
    ensures !OnlyLocatorEdits(baseline, candidate) ==>
      Reconstructed(baseline, candidate, steps, required) == Err(AssertionChange)
  {
    hide Ready, ReplaySteps, Replayed, AllowedChange;
    ReplayStepsExact(baseline, candidate, steps, required, baseline, 0) by {
      ReadyIsValid(baseline, candidate, steps, required);
    }
    forall before, after ensures AllowedChange(before, after) <==> Replayed(before, after) == Some(after) {
      AllowedExactlyWhenReplayed(before, after);
    }
    var replay := ReplaySteps(baseline, candidate, steps, required, baseline, 0);
    if replay == Ok(candidate) {
      forall a | 0 <= a < |baseline.steps|
        ensures a < |candidate.steps| && |candidate.steps[a].instructions| == |baseline.steps[a].instructions|
        ensures forall j | 0 <= j < |baseline.steps[a].instructions| ::
          AllowedChange(baseline.steps[a].instructions[j], candidate.steps[a].instructions[j])
      {
        assert ReplayedAt(baseline, candidate, replay.value, a);
      }
    }
    if replay.Ok? && OnlyLocatorEdits(baseline, candidate) {
      forall a | 0 <= a < |baseline.steps| ensures replay.value.steps[a] == candidate.steps[a] {
        assert ReplayedAt(baseline, candidate, replay.value, a);
        assert replay.value.steps[a].instructions == candidate.steps[a].instructions;
      }
      assert replay.value.steps == candidate.steps;
    }
  }

  lemma ReadyIsValid(baseline: Payload, candidate: Payload, steps: seq<StepIdentity>, required: set<string>)
    requires Ready(baseline, candidate, steps, required)
    ensures ValidPayload(baseline)
  {
  }

  // ---------------------------------------------------------------- the validator is exact

  lemma ProjectedIsShort(p: Payload, scenarioSteps: seq<StepType>)
    requires Projects(p, scenarioSteps)
    ensures |p.steps| <= |scenarioSteps|
  {
    if p.steps != [] {
      var last := p.steps[|p.steps| - 1].instructions;
    }
  }

  lemma {:induction false} SameStepChecks(xs: seq<Instruction>, ys: seq<Instruction>, i: nat, j: nat)
    requires |xs| == |ys| && forall k :: 0 <= k < |xs| ==> AllowedChange(xs[k], ys[k])
    ensures StepChecks(xs, i, j) == StepChecks(ys, i, j)
    decreases xs
  {
    if xs != [] {
      AllowedChangeKeepsKind(xs[0], ys[0]);
      SameStepChecks(xs[1..], ys[1..], i, j + 1);
    }
  }

  lemma {:induction false} SamePlanChecks(xs: seq<Step>, ys: seq<Step>, i: nat)
    requires OnlyLocatorEdits(Payload(xs), Payload(ys))
    ensures PlanChecks(xs, i) == PlanChecks(ys, i)
    decreases xs
  {
    if xs != [] {
      SameStepChecks(xs[0].instructions, ys[0].instructions, i, 0);
      assert OnlyLocatorEdits(Payload(xs[1..]), Payload(ys[1..]));
      SamePlanChecks(xs[1..], ys[1..], i + 1);
    }
  }

  /**
   Sound and complete: a candidate is accepted exactly when it is well shaped and differs from
   the baseline in nothing but locators of actions without sensitive input.  What is accepted is
   the candidate itself, and its assertion basis is the baseline's.
   */
  lemma ValidationExact(input: Input)
    ensures Validation(input).Ok? <==> WellShaped(input) && OnlyLocatorEdits(input.baseline, input.candidate)
    ensures Validation(input).Ok? ==>
      && Validation(input).value.baseline == input.baseline
      && Validation(input).value.payload == input.candidate
      && Validation(input).value.assertionDigest == DigestOf(BasisOf(input.candidate, input.scenarioSteps))
    ensures WellShaped(input) && Validation(input).Err? ==> Validation(input).error.AssertionChange?
  {
    if WellShaped(input) {
      ProjectedIsShort(input.baseline, input.scenarioSteps);
      assert Ready(input.baseline, input.candidate, input.steps, input.required);
      ReconstructionExact(input.baseline, input.candidate, input.steps, input.required);
      if OnlyLocatorEdits(input.baseline, input.candidate) {
        SamePlanChecks(input.baseline.steps, input.candidate.steps, 0);
      }
    }
  }

  /** The baseline is complete and role-valid: the validator accepts it against itself. */
  predicate Acceptable(input: Input) {
    WellShaped(input.(candidate := input.baseline))
  }

  /** Whatever a chain of successful edits makes of an acceptable baseline is accepted, unaltered. */
  lemma EditedPlanIsAccepted(input: Input, edits: seq<Edit>)
    requires Acceptable(input)
    requires ApplyEdits(input.baseline, input.steps, input.required, edits) == Ok(input.candidate)
    ensures Validation(input).Ok? && Validation(input).value.payload == input.candidate
  {
    EditChain(input.baseline, input.steps, input.required, edits);
    OnlyLocatorEditsKeepRoles(input.baseline, input.candidate, input.scenarioSteps);
    ValidationExact(input);
  }

  // ---------------------------------------------------------------- the validator accepts nothing else

  lemma {:induction false} ApplyMoreEdits(p: Payload, steps: seq<StepIdentity>, required: set<string>,
          first: seq<Edit>, more: seq<Edit>)
    requires ApplyEdits(p, steps, required, first).Ok?
    ensures ApplyEdits(p, steps, required, first + more)
         == ApplyEdits(ApplyEdits(p, steps, required, first).value, steps, required, more)
    decreases first
  {
    if first == [] {
      assert first + more == more;
    } else {
      hide ReplaceTarget;
      assert (first + more)[1..] == first[1..] + more;
      ApplyMoreEdits(ReplaceTarget(p, steps, required, first[0]).value, steps, required, first[1..], more);
    }
  }

  lemma ReplayInstructionIsEdits(baseline: Payload, candidate: Payload, steps: seq<StepIdentity>, required: set<string>,
                                 r: Payload, i: nat, j: nat) returns (edits: seq<Edit>)
    requires HasInstruction(baseline, i, j) && HasInstruction(candidate, i, j)
    requires ReplayInstruction(baseline, candidate, steps, required, r, i, j).Ok?
    ensures ApplyEdits(r, steps, required, edits) == ReplayInstruction(baseline, candidate, steps, required, r, i, j)
  {
    hide ReplaceTarget;
    var before, after := baseline.steps[i].instructions[j], candidate.steps[i].instructions[j];
    if before == after {
      edits := [];
    } else {
      edits := [Edit(steps[i], j, DigestOf(r.steps[i].instructions[j]), after.locator)];
      assert edits[1..] == [];
    }
  }

  lemma {:induction false} ReplayStepIsEdits(baseline: Payload, candidate: Payload, steps: seq<StepIdentity>,
          required: set<string>,
                                             r: Payload, i: nat, j: nat) returns (edits: seq<Edit>)
    requires i < |baseline.steps| && i < |candidate.steps| && j <= |baseline.steps[i].instructions|
    requires |candidate.steps[i].instructions| == |baseline.steps[i].instructions|
    requires ReplayStep(baseline, candidate, steps, required, r, i, j).Ok?
    ensures ApplyEdits(r, steps, required, edits) == ReplayStep(baseline, candidate, steps, required, r, i, j)
    decreases |baseline.steps[i].instructions| - j
  {
    if j == |baseline.steps[i].instructions| {
      edits := [];
    } else {
      hide ReplayInstruction;
      var first := ReplayInstructionIsEdits(baseline, candidate, steps, required, r, i, j);
      var next := ReplayInstruction(baseline, candidate, steps, required, r, i, j).value;
      var more := ReplayStepIsEdits(baseline, candidate, steps, required, next, i, j + 1);
      ApplyMoreEdits(r, steps, required, first, more);
      edits := first + more;
    }
  }

  lemma {:induction false} ReplayStepsIsEdits(baseline: Payload, candidate: Payload, steps: seq<StepIdentity>,
          required: set<string>,
                                              r: Payload, i: nat) returns (edits: seq<Edit>)
    requires i <= |baseline.steps| && ReplaySteps(baseline, candidate, steps, required, r, i).Ok?
    ensures ApplyEdits(r, steps, required, edits) == ReplaySteps(baseline, candidate, steps, required, r, i)
    decreases |baseline.steps| - i
  {
    if i == |baseline.steps| {
      edits := [];
    } else {
      hide ReplayStep;
      var first := ReplayStepIsEdits(baseline, candidate, steps, required, r, i, 0);
      var next := ReplayStep(baseline, candidate, steps, required, r, i, 0).value;
      var more := ReplayStepsIsEdits(baseline, candidate, steps, required, next, i + 1);
      ApplyMoreEdits(r, steps, required, first, more);
      edits := first + more;
    }
  }

  /** Editor and validator agree: a plan is accepted exactly when a chain of edits leads to it. */
  lemma AcceptedExactlyWhenEdited(input: Input)
    requires Acceptable(input)
    ensures Validation(input).Ok?
       <==> exists edits :: ApplyEdits(input.baseline, input.steps, input.required, edits) == Ok(input.candidate)
  {
    if Validation(input).Ok? {
      ValidationExact(input);
      var edits := ReplayStepsIsEdits(input.baseline, input.candidate, input.steps, input.required, input.baseline, 0);
      assert ApplyEdits(input.baseline, input.steps, input.required, edits) == Ok(input.candidate);
    }
    if edits :| ApplyEdits(input.baseline, input.steps, input.required, edits) == Ok(input.candidate) {
      EditedPlanIsAccepted(input, edits);
    }
  }
}
