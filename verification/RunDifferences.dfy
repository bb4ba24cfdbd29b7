/**
 What the comparison of two runs looks at (packages/runner/src/results/compare.ts): which results can
 be compared at all, and what of them is compared.
 */
module RunDifferences {
  import opened Wrappers
  import opened RunComparison

  /** The id of a result, if it has one that is not empty. */
  predicate Knows(r: TestResult, id: string) {
    r.id == Some(id) && |id| > 0
  }

  ghost predicate SameId(b: TestResult, c: TestResult) {
    exists id :: Knows(b, id) && Knows(c, id)
  }

  ghost predicate OneWithoutId(b: TestResult, c: TestResult) {
    (forall id :: !Knows(b, id)) || (forall id :: !Knows(c, id))
  }

  /** Results of one profile: with one id, or, when an id is missing, with one scenario name. */
  lemma CompatibleExactlyWhen(b: TestResult, c: TestResult)
    ensures Compatible(b, c)
       <==> b.profile == c.profile && (SameId(b, c) || (OneWithoutId(b, c) && b.scenario == c.scenario))
  {
    assert HasId(b) ==> Knows(b, b.id.value);
    assert HasId(c) ==> Knows(c, c.id.value);
  }

  /** The attempt that came last. */
  ghost predicate IsLast(r: TestResult, attempt: Attempt) {
    exists before :: r.attempts == before + [attempt]
  }

  lemma LastAttempt(r: TestResult, attempt: Attempt)
    requires IsLast(r, attempt)
    ensures r.attempts != [] && FinalAttempt(r) == attempt
  {
    var before :| r.attempts == before + [attempt];
  }

  /** Kind and path of each artifact, step by step. */
  function ArtifactsOf(steps: seq<Step>): seq<(string, string)> {
    if steps == [] then [] else ArtifactsOf(steps[..|steps| - 1]) + KindsAndPaths(steps[|steps| - 1].artifacts)
  }

  function KindsAndPaths(artifacts: seq<Artifact>): seq<(string, string)> {
    if artifacts == [] then []
    else
      var last := artifacts[|artifacts| - 1];
      KindsAndPaths(artifacts[..|artifacts| - 1]) + [(last.kind, last.path)]
  }

  lemma {:induction false} SignatureOfStep(artifacts: seq<Artifact>)
    ensures KindsAndPaths(artifacts)
         == seq(|artifacts|, i requires 0 <= i < |artifacts| => (artifacts[i].kind, artifacts[i].path))
  {
    if artifacts != [] {
      SignatureOfStep(artifacts[..|artifacts| - 1]);
    }
  }

  lemma {:induction false} SignatureSum(xs: seq<Step>, ys: seq<Step>)
    ensures ArtifactSignature(xs + ys) == ArtifactSignature(xs) + ArtifactSignature(ys)
  {
    if xs == [] {
      assert xs + ys == ys;
    } else {
      assert (xs + ys)[1..] == xs[1..] + ys && (xs + ys)[0] == xs[0];
      SignatureSum(xs[1..], ys);
    }
  }

  lemma {:induction false} SignatureIsArtifacts(steps: seq<Step>)
    ensures ArtifactSignature(steps) == ArtifactsOf(steps)
  {
    if steps != [] {
      var before, last := steps[..|steps| - 1], steps[|steps| - 1];
      SignatureIsArtifacts(before);
      SignatureSum(before, [last]);
      SignatureOfStep(last.artifacts);
      assert steps == before + [last] && [last][1..] == [];
      assert ArtifactSignature([last]) == KindsAndPaths(last.artifacts) + [];
    }
  }

  /** Step by step, the two attempts resolved the same actions. */
  predicate SameActions(xs: seq<Step>, ys: seq<Step>) {
    |xs| == |ys| && forall i :: 0 <= i < |xs| ==> xs[i].actions == ys[i].actions
  }

  predicate IsFlaky(r: TestResult) {
    r.flaky.Some? && r.flaky.value
  }

  /**
   What counts as a change: state, duration and flakiness of the results, where no flag counts as not
   flaky; and of their last attempts the mode, the outcome of the cache, the number of inferences, the
   actions of each step, and the kinds and paths of all artifacts.
   */
  lemma ChangesExactly(b: TestResult, c: TestResult, x: Attempt, y: Attempt, kind: ChangeKind)
    requires IsLast(b, x) && IsLast(c, y)
    ensures b.attempts != [] && c.attempts != []
    ensures kind in Differences(KINDS, b, c)
       <==> match kind
            case State => b.state != c.state
            case Duration => b.durationMs != c.durationMs
            case Flaky => IsFlaky(b) != IsFlaky(c)
            case ExecutionMode => x.executionMode != y.executionMode
            case CacheOutcome => x.cacheOutcome != y.cacheOutcome
            case InferenceCount => x.inferenceCount != y.inferenceCount
            case ResolvedActions => !SameActions(x.steps, y.steps)
            case Artifacts => ArtifactsOf(x.steps) != ArtifactsOf(y.steps)
  {
    LastAttempt(b, x);
    LastAttempt(c, y);
    SignatureIsArtifacts(x.steps);
    SignatureIsArtifacts(y.steps);
    ActionsAlike(x.steps, y.steps);
    EveryKind(kind);
    hide ArtifactSignature, ArtifactsOf, ActionsSignature, SameActions, Differences, IsLast;
  }

  lemma EveryKind(kind: ChangeKind)
    ensures kind in KINDS
  {
    assert KINDS[0] == State && KINDS[1] == Duration && KINDS[2] == Flaky && KINDS[3] == ExecutionMode;
    assert KINDS[4] == CacheOutcome && KINDS[5] == InferenceCount && KINDS[6] == ResolvedActions;
    assert KINDS[7] == Artifacts;
  }

  lemma ActionsAlike(xs: seq<Step>, ys: seq<Step>)
    ensures ActionsSignature(xs) == ActionsSignature(ys) <==> SameActions(xs, ys)
  {
    var s, t := ActionsSignature(xs), ActionsSignature(ys);
    if s == t {
      assert |s| == |xs| && |t| == |ys|;
      assert forall i :: 0 <= i < |xs| ==> s[i] == xs[i].actions && t[i] == ys[i].actions;
    }
  }

  /** What a result is reported under: its id, or its scenario's name when it has none. */
  lemma ReportedUnder(r: TestResult)
    ensures SideOf(r) == Side(match r.id case Some(id) => id case None => r.scenario, r.profile, r)
  {
  }
}
