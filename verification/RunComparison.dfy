/**
 The comparison of two test runs of packages/runner/src/results/compare.ts: each candidate result
 takes the first baseline result that is still available and is for the same scenario.

 The results of a run are distinct objects, so a Set of results is a list of positions in the run.
 A resolved action is its JSON text.
 */
module RunComparison {
  import opened Wrappers

  datatype Artifact = Artifact(kind: string, path: string, rest: string)

  datatype Step = Step(actions: seq<string>, artifacts: seq<Artifact>)

  datatype Attempt = Attempt(
    executionMode: Option<string>, cacheOutcome: Option<string>, inferenceCount: Option<nat>, steps: seq<Step>)

  datatype TestResult = TestResult(
    scenario: string, id: Option<string>, profile: string,
    state: string, durationMs: real, flaky: Option<bool>, attempts: seq<Attempt>)

  datatype TestRunManifest = TestRunManifest(id: string, results: seq<TestResult>)

  datatype ChangeKind =
    | State | Duration | Flaky | ExecutionMode | CacheOutcome | InferenceCount | ResolvedActions | Artifacts

  datatype Pair = Pair(
    scenarioId: string, profile: string, baseline: TestResult, candidate: TestResult, changes: seq<ChangeKind>)

  datatype Side = Side(scenarioId: string, profile: string, result: TestResult)

  datatype Comparison = Comparison(
    baselineRunId: string, candidateRunId: string, pairs: seq<Pair>, removed: seq<Side>, added: seq<Side>)

  // A matched result has no scenario attempt.
  datatype Fault = NoScenarioAttempt

  function ScenarioIdOf(r: TestResult): string {
    if r.id.Some? then r.id.value else r.scenario
  }

  function SideOf(r: TestResult): Side {
    Side(ScenarioIdOf(r), r.profile, r)
  }

  // ---------------------------------------------------------------- changes

  function FinalAttempt(r: TestResult): Attempt
    requires r.attempts != []
  {
    r.attempts[|r.attempts| - 1]
  }

  function ArtifactSignature(steps: seq<Step>): seq<(string, string)> {
    if steps == [] then []
    else
      var artifacts := steps[0].artifacts;
      seq(|artifacts|, i requires 0 <= i < |artifacts| => (artifacts[i].kind, artifacts[i].path))
      + ArtifactSignature(steps[1..])
  }

  function ActionsSignature(steps: seq<Step>): seq<seq<string>> {
    seq(|steps|, i requires 0 <= i < |steps| => steps[i].actions)
  }

  /** Whether two results differ in one respect. */
  predicate Differs(kind: ChangeKind, b: TestResult, c: TestResult)
    requires b.attempts != [] && c.attempts != []
  {
    var x, y := FinalAttempt(b), FinalAttempt(c);
    match kind
    case State => b.state != c.state
    case Duration => b.durationMs != c.durationMs
    case Flaky => (b.flaky == Some(true)) != (c.flaky == Some(true))
    case ExecutionMode => x.executionMode != y.executionMode
    case CacheOutcome => x.cacheOutcome != y.cacheOutcome
    case InferenceCount => x.inferenceCount != y.inferenceCount
    case ResolvedActions => ActionsSignature(x.steps) != ActionsSignature(y.steps)
    case Artifacts => ArtifactSignature(x.steps) != ArtifactSignature(y.steps)
  }

  const KINDS: seq<ChangeKind> :=
    [State, Duration, Flaky, ExecutionMode, CacheOutcome, InferenceCount, ResolvedActions, Artifacts]

  function Note(kind: ChangeKind, b: TestResult, c: TestResult): seq<ChangeKind>
    requires b.attempts != [] && c.attempts != []
  {
    if Differs(kind, b, c) then [kind] else []
  }

  /** Those of the kinds in which the results differ. */
  function Differences(kinds: seq<ChangeKind>, b: TestResult, c: TestResult): (changes: seq<ChangeKind>)
    requires b.attempts != [] && c.attempts != []
    ensures forall k :: k in changes <==> k in kinds && Differs(k, b, c)
  {
    if kinds == [] then []
    else
      Differences(kinds[..|kinds| - 1], b, c) + Note(kinds[|kinds| - 1], b, c)
  }

  method ChangesBetween(b: TestResult, c: TestResult) returns (changes: seq<ChangeKind>)
    requires b.attempts != [] && c.attempts != []
    ensures changes == Differences(KINDS, b, c)
  {
    hide Differs;
    changes := [];
    if Differs(State, b, c) { changes := changes + [State]; }
    assert changes == Note(State, b, c);
    ghost var noted := changes;
    if Differs(Duration, b, c) { changes := changes + [Duration]; }
    assert changes == noted + Note(Duration, b, c);
    noted := changes;
    if Differs(Flaky, b, c) { changes := changes + [Flaky]; }
    assert changes == noted + Note(Flaky, b, c);
    noted := changes;
    if Differs(ExecutionMode, b, c) { changes := changes + [ExecutionMode]; }
    assert changes == noted + Note(ExecutionMode, b, c);
    noted := changes;
    if Differs(CacheOutcome, b, c) { changes := changes + [CacheOutcome]; }
    assert changes == noted + Note(CacheOutcome, b, c);
    noted := changes;
    if Differs(InferenceCount, b, c) { changes := changes + [InferenceCount]; }
    assert changes == noted + Note(InferenceCount, b, c);
    noted := changes;
    if Differs(ResolvedActions, b, c) { changes := changes + [ResolvedActions]; }
    assert changes == noted + Note(ResolvedActions, b, c);
    noted := changes;
    if Differs(Artifacts, b, c) { changes := changes + [Artifacts]; }
    assert changes == noted + Note(Artifacts, b, c);
    hide Note;
    KindsInOrder(b, c);
  }

  lemma OneMoreKind(kinds: seq<ChangeKind>, kind: ChangeKind, b: TestResult, c: TestResult)
    requires b.attempts != [] && c.attempts != []
    ensures Differences(kinds + [kind], b, c) == Differences(kinds, b, c) + Note(kind, b, c)
  {
    hide Note, Differs;
    assert (kinds + [kind])[..|kinds|] == kinds;
  }

  lemma KindsInOrder(b: TestResult, c: TestResult)
    requires b.attempts != [] && c.attempts != []
    ensures Differences(KINDS, b, c)
         == Note(State, b, c) + Note(Duration, b, c) + Note(Flaky, b, c) + Note(ExecutionMode, b, c)
            + Note(CacheOutcome, b, c) + Note(InferenceCount, b, c) + Note(ResolvedActions, b, c)
                + Note(Artifacts, b, c)
  {
    assert Differences([], b, c) == [];
    hide Note, Differs, Differences;
    var k2 := [State] + [Duration];
    var k4 := k2 + [Flaky] + [ExecutionMode];
    var k6 := k4 + [CacheOutcome] + [InferenceCount];
    assert [] + [State] == [State] && KINDS == k6 + [ResolvedActions] + [Artifacts];
    OneMoreKind([], State, b, c);
    OneMoreKind([State], Duration, b, c);
    OneMoreKind(k2, Flaky, b, c);
    OneMoreKind(k2 + [Flaky], ExecutionMode, b, c);
    OneMoreKind(k4, CacheOutcome, b, c);
    OneMoreKind(k4 + [CacheOutcome], InferenceCount, b, c);
    OneMoreKind(k6, ResolvedActions, b, c);
    OneMoreKind(k6 + [ResolvedActions], Artifacts, b, c);
  }

  // ---------------------------------------------------------------- matching

  predicate HasId(r: TestResult) {
    r.id.Some? && r.id.value != ""
  }

  predicate Compatible(b: TestResult, c: TestResult) {
    && b.profile == c.profile
    && (if HasId(b) && HasId(c) then b.id == c.id else b.scenario == c.scenario)
  }

  predicate Within(available: seq<nat>, base: seq<TestResult>) {
    forall i :: 0 <= i < |available| ==> available[i] < |base|
  }

  method FindMatch(base: seq<TestResult>, available: seq<nat>, candidate: TestResult) returns (found: Option<nat>)
    requires Within(available, base)
    ensures found == FirstCompatible(base, available, candidate)
  {
    for i := 0 to |available|
      invariant FirstCompatible(base, available, candidate)
             == (match FirstCompatible(base, available[i..], candidate) case None => None case Some(k) => Some(i + k))
    {
      assert available[i..][1..] == available[i + 1..];
      assert available[i..][0] == available[i];
      if Compatible(base[available[i]], candidate) {
        return Some(i);
      }
    }
    return None;
  }

  function FirstCompatible(base: seq<TestResult>, available: seq<nat>, candidate: TestResult): (found: Option<nat>)
    requires Within(available, base)
    ensures found.Some? ==> found.value < |available| && Compatible(base[available[found.value]], candidate)
    ensures found.Some? ==> forall j :: 0 <= j < found.value ==> !Compatible(base[available[j]], candidate)
    ensures found.None? ==> forall j :: 0 <= j < |available| ==> !Compatible(base[available[j]], candidate)
  {
    if available == [] then None
    else if Compatible(base[available[0]], candidate) then Some(0)
    else
      assert Within(available[1..], base);
      match FirstCompatible(base, available[1..], candidate)
      case None => None
      case Some(i) => Some(i + 1)
  }

  // The baseline results nobody took, and what each candidate took.
  datatype Matching = Matching(available: seq<nat>, matched: seq<Option<nat>>)

  predicate InBase(base: seq<TestResult>, matched: seq<Option<nat>>) {
    forall c :: 0 <= c < |matched| && matched[c].Some? ==> matched[c].value < |base|
  }

  function Matched(base: seq<TestResult>, cands: seq<TestResult>): (m: Matching)
    ensures |m.matched| == |cands| && Within(m.available, base)
    ensures InBase(base, m.matched)
  {
    if cands == [] then Matching(seq(|base|, i => i), [])
    else
      var before := Matched(base, cands[..|cands| - 1]);
      match FirstCompatible(base, before.available, cands[|cands| - 1])
      case None => Matching(before.available, before.matched + [None])
      case Some(i) =>
        Matching(before.available[..i] + before.available[i + 1..], before.matched + [Some(before.available[i])])
  }

  function Removed(base: seq<TestResult>, available: seq<nat>): seq<Side>
    requires Within(available, base)
  {
    seq(|available|, i requires 0 <= i < |available| => SideOf(base[available[i]]))
  }

  function Added(cands: seq<TestResult>, matched: seq<Option<nat>>): seq<Side>
    requires |matched| == |cands|
  {
    if cands == [] then []
    else
      var n := |cands| - 1;
      Added(cands[..n], matched[..n]) + (if matched[n].None? then [SideOf(cands[n])] else [])
  }

  /** Every matched pair can be compared. */
  predicate HaveAttempts(base: seq<TestResult>, cands: seq<TestResult>, matched: seq<Option<nat>>)
    requires |matched| == |cands| && InBase(base, matched)
  {
    forall c :: 0 <= c < |cands| && matched[c].Some? ==>
      cands[c].attempts != [] && base[matched[c].value].attempts != []
  }

  function Report(b: TestResult, c: TestResult): seq<Pair>
    requires b.attempts != [] && c.attempts != []
  {
    var changes := Differences(KINDS, b, c);
    if changes == [] then [] else [Pair(ScenarioIdOf(b), b.profile, b, c, changes)]
  }

  function ReportOf(base: seq<TestResult>, cands: seq<TestResult>, matched: seq<Option<nat>>, n: nat): seq<Pair>
    requires n < |matched| == |cands| && InBase(base, matched) && HaveAttempts(base, cands, matched)
  {
    if matched[n].Some? then Report(base[matched[n].value], cands[n]) else []
  }

  function Pairs(base: seq<TestResult>, cands: seq<TestResult>, matched: seq<Option<nat>>): seq<Pair>
    requires |matched| == |cands| && InBase(base, matched) && HaveAttempts(base, cands, matched)
  {
    if cands == [] then []
    else
      var n := |cands| - 1;
      Pairs(base, cands[..n], matched[..n])
      + ReportOf(base, cands, matched, n)
  }

  function Compare(baseline: TestRunManifest, candidate: TestRunManifest): Result<Comparison, Fault> {
    var base, cands := baseline.results, candidate.results;
    var m := Matched(base, cands);
    if HaveAttempts(base, cands, m.matched)
    then Ok(Comparison(baseline.id, candidate.id,
                       Pairs(base, cands, m.matched), Removed(base, m.available), Added(cands, m.matched)))
    else Err(NoScenarioAttempt)
  }

  /** What the comparison has gathered once these candidates are done. */
  predicate Gathered(base: seq<TestResult>, cands: seq<TestResult>, available: seq<nat>, pairs: seq<Pair>,
          added: seq<Side>) {
    var m := Matched(base, cands);
    && available == m.available
    && HaveAttempts(base, cands, m.matched)
    && pairs == Pairs(base, cands, m.matched)
    && added == Added(cands, m.matched)
  }

  method CompareTestRuns(baseline: TestRunManifest, candidate: TestRunManifest) returns (r: Result<Comparison, Fault>)
    ensures r == Compare(baseline, candidate)
  {
    var base, cands := baseline.results, candidate.results;
    var available: seq<nat> := seq(|base|, i => i);
    var pairs: seq<Pair>, added: seq<Side> := [], [];
    assert cands[..0] == [];
    assert Gathered(base, [], available, pairs, added);
    hide Gathered, Compatible, FirstCompatible, Differences, Compare, SideOf, HaveAttempts, Pairs, Added, Matched,
      Removed;
    for k := 0 to |cands|
      invariant Within(available, base) && Gathered(base, cands[..k], available, pairs, added)
    {
      assert cands[..k + 1] == cands[..k] + [cands[k]];
      var found := FindMatch(base, available, cands[k]);
      if found.None? {
        NoneTaken(base, cands[..k], cands[k], available, pairs, added);
        added := added + [SideOf(cands[k])];
      } else {
        var b := base[available[found.value]];
        if b.attempts == [] || cands[k].attempts == [] {
          Throws(baseline, candidate, k, available, pairs, added);
          return Err(NoScenarioAttempt);
        }
        OneTaken(base, cands[..k], cands[k], available, pairs, added);
        available := available[..found.value] + available[found.value + 1..];
        var changes := ChangesBetween(b, cands[k]);
        if |changes| > 0 {
          pairs := pairs + [Pair(ScenarioIdOf(b), b.profile, b, cands[k], changes)];
        }
      }
    }
    assert cands[..|cands|] == cands;
    r := Ok(Comparison(baseline.id, candidate.id, pairs, Removed(base, available), added));
    AllGathered(baseline, candidate, available, pairs, added);
  }

  lemma AllGathered(baseline: TestRunManifest, candidate: TestRunManifest, available: seq<nat>, pairs: seq<Pair>,
          added: seq<Side>)
    requires Within(available, baseline.results)
       && Gathered(baseline.results, candidate.results, available, pairs, added)
    ensures Compare(baseline, candidate)
         == Ok(Comparison(baseline.id, candidate.id, pairs, Removed(baseline.results, available), added))
  {
  }

  lemma NoneTaken(base: seq<TestResult>, cands: seq<TestResult>, c: TestResult, available: seq<nat>, pairs: seq<Pair>,
          added: seq<Side>)
    requires Within(available, base) && Gathered(base, cands, available, pairs, added)
    requires FirstCompatible(base, available, c).None?
    ensures Gathered(base, cands + [c], available, pairs, added + [SideOf(c)])
  {
    var more, matched := cands + [c], Matched(base, cands).matched;
    hide FirstCompatible, Report, SideOf;
    assert more[..|cands|] == cands;
    var after := Matched(base, more).matched;
    assert after == matched + [None];
    assert after[..|cands|] == matched;
    AttemptsGrow(base, cands, c, matched, None);
    hide HaveAttempts, InBase, Within;
  }

  lemma OneTaken(base: seq<TestResult>, cands: seq<TestResult>, c: TestResult, available: seq<nat>, pairs: seq<Pair>,
          added: seq<Side>)
    requires Within(available, base) && Gathered(base, cands, available, pairs, added)
    requires FirstCompatible(base, available, c).Some? && c.attempts != []
    requires base[available[FirstCompatible(base, available, c).value]].attempts != []
    ensures
      var i := FirstCompatible(base, available, c).value;
      && Within(available[..i] + available[i + 1..], base)
      && Gathered(base, cands + [c], available[..i] + available[i + 1..],
                  pairs + Report(base[available[i]], c), added)
  {
    var more, matched, i := cands + [c], Matched(base, cands).matched, FirstCompatible(base, available, c).value;
    hide FirstCompatible, Report, SideOf;
    assert more[..|cands|] == cands;
    var after := Matched(base, more).matched;
    assert after == matched + [Some(available[i])];
    assert after[..|cands|] == matched;
    AttemptsGrow(base, cands, c, matched, Some(available[i]));
    hide HaveAttempts, InBase, Within;
  }

  lemma AttemptsGrow(base: seq<TestResult>, cands: seq<TestResult>, c: TestResult, matched: seq<Option<nat>>,
          o: Option<nat>)
    requires |cands| == |matched| && InBase(base, matched) && HaveAttempts(base, cands, matched)
    requires o.Some? ==> o.value < |base| && base[o.value].attempts != [] && c.attempts != []
    ensures InBase(base, matched + [o]) && HaveAttempts(base, cands + [c], matched + [o])
  {
  }

  lemma Throws(baseline: TestRunManifest, candidate: TestRunManifest, k: nat, available: seq<nat>, pairs: seq<Pair>,
          added: seq<Side>)
    requires k < |candidate.results| && Within(available, baseline.results)
    requires Gathered(baseline.results, candidate.results[..k], available, pairs, added)
    requires FirstCompatible(baseline.results, available, candidate.results[k]).Some?
    requires
      var found := FirstCompatible(baseline.results, available, candidate.results[k]).value;
      candidate.results[k].attempts == [] || baseline.results[available[found]].attempts == []
    ensures Compare(baseline, candidate) == Err(NoScenarioAttempt)
  {
    var base, cands := baseline.results, candidate.results;
    hide FirstCompatible;
    assert cands[..k + 1][..k] == cands[..k];
    MatchedGrows(base, cands, k + 1);
    assert Matched(base, cands[..k + 1]).matched[k] == Matched(base, cands).matched[k];
  }

  /** Later candidates do not change what earlier ones took. */
  lemma {:induction false} MatchedGrows(base: seq<TestResult>, cands: seq<TestResult>, k: nat)
    requires k <= |cands|
    ensures Matched(base, cands[..k]).matched == Matched(base, cands).matched[..k]
    decreases |cands|
  {
    if k == |cands| {
      assert cands[..k] == cands;
    } else {
      var before := cands[..|cands| - 1];
      MatchedGrows(base, before, k);
      assert before[..k] == cands[..k];
    }
  }

  // ---------------------------------------------------------------- what the matching is

  ghost predicate TakenBefore(matched: seq<Option<nat>>, k: nat, p: nat) {
    exists d :: 0 <= d < k && d < |matched| && matched[d] == Some(p)
  }

  /** Candidate c has the first baseline result for its scenario that no earlier candidate has, if there is one. */
  ghost predicate HasFirstFree(base: seq<TestResult>, cands: seq<TestResult>, matched: seq<Option<nat>>, c: nat)
    requires c < |cands| == |matched| && InBase(base, matched)
  {
    && (matched[c].Some? ==> Compatible(base[matched[c].value], cands[c]) && !TakenBefore(matched, c, matched[c].value))
    && (forall q: nat | q < |base| && Compatible(base[q], cands[c]) && (matched[c].Some? ==> q < matched[c].value) ::
          TakenBefore(matched, c, q))
  }

  ghost predicate AllHaveFirstFree(base: seq<TestResult>, cands: seq<TestResult>, matched: seq<Option<nat>>)
    requires |cands| == |matched| && InBase(base, matched)
  {
    forall c: nat | c < |cands| :: HasFirstFree(base, cands, matched, c)
  }

  ghost predicate Ascending(available: seq<nat>) {
    forall i, j :: 0 <= i < j < |available| ==> available[i] < available[j]
  }

  ghost predicate Untaken(base: seq<TestResult>, m: Matching) {
    forall p: nat | p < |base| :: p in m.available <==> !TakenBefore(m.matched, |m.matched|, p)
  }

  function CountMatched(matched: seq<Option<nat>>): nat {
    if matched == [] then 0
    else CountMatched(matched[..|matched| - 1]) + (if matched[|matched| - 1].Some? then 1 else 0)
  }

  lemma RemoveOne(available: seq<nat>, i: nat, q: nat)
    requires i < |available| && Ascending(available)
    ensures Ascending(available[..i] + available[i + 1..])
    ensures q in available[..i] + available[i + 1..] <==> q in available && q != available[i]
  {
    var less := available[..i] + available[i + 1..];
    if q in available && q != available[i] {
      var j :| 0 <= j < |available| && available[j] == q;
      assert less[if j < i then j else j - 1] == q;
    }
  }

  lemma TakenGrows(matched: seq<Option<nat>>, o: Option<nat>, k: nat, p: nat)
    requires k <= |matched|
    ensures TakenBefore(matched + [o], k, p) == TakenBefore(matched, k, p)
    ensures TakenBefore(matched + [o], |matched| + 1, p) == (TakenBefore(matched, |matched|, p) || o == Some(p))
  {
    var more := matched + [o];
    assert forall d :: 0 <= d < |matched| ==> more[d] == matched[d];
    assert more[|matched|] == o;
  }

  /** The state of the matching after any number of candidates. */
  ghost predicate Inv(base: seq<TestResult>, cands: seq<TestResult>, m: Matching)
    requires |m.matched| == |cands| && InBase(base, m.matched)
  {
    && Ascending(m.available)
    && Untaken(base, m)
    && |base| == |m.available| + CountMatched(m.matched)
    && AllHaveFirstFree(base, cands, m.matched)
  }

  lemma EarlierStay(base: seq<TestResult>, cands: seq<TestResult>, c: TestResult, matched: seq<Option<nat>>,
          o: Option<nat>)
    requires |cands| == |matched| && InBase(base, matched) && InBase(base, matched + [o])
    requires AllHaveFirstFree(base, cands, matched) && HasFirstFree(base, cands + [c], matched + [o], |cands|)
    ensures AllHaveFirstFree(base, cands + [c], matched + [o])
  {
    var more := matched + [o];
    forall k: nat | k < |cands| ensures HasFirstFree(base, cands + [c], more, k) {
      assert HasFirstFree(base, cands, matched, k);
      assert more[k] == matched[k] && (cands + [c])[k] == cands[k];
      forall p: nat ensures TakenBefore(more, k, p) == TakenBefore(matched, k, p) {
        TakenGrows(matched, o, k, p);
      }
      hide TakenBefore, Compatible;
    }
  }

  lemma FirstComesFirst(base: seq<TestResult>, available: seq<nat>, c: TestResult, q: nat)
    requires Within(available, base) && Ascending(available) && q in available && q < |base| && Compatible(base[q], c)
    ensures FirstCompatible(base, available, c).Some? && available[FirstCompatible(base, available, c).value] <= q
  {
  }

  /** The first compatible result that is available is the first one nobody took. */
  lemma FirstIsFree(base: seq<TestResult>, cands: seq<TestResult>, c: TestResult, m: Matching, o: Option<nat>)
    requires |m.matched| == |cands| && Within(m.available, base) && InBase(base, m.matched)
    requires Ascending(m.available) && Untaken(base, m)
    requires var found := FirstCompatible(base, m.available, c);
      o == (match found case None => None case Some(i) => Some(m.available[i]))
    ensures InBase(base, m.matched + [o]) && HasFirstFree(base, cands + [c], m.matched + [o], |cands|)
  {
    var more, n := m.matched + [o], |cands|;
    assert more[n] == o && (cands + [c])[n] == c;
    assert forall d :: 0 <= d < n ==> more[d] == m.matched[d];
    forall q: nat | q < |base| && Compatible(base[q], c) && (o.Some? ==> q < o.value) ensures TakenBefore(more, n, q) {
      TakenGrows(m.matched, o, n, q);
      if q in m.available {
        FirstComesFirst(base, m.available, c, q);
      }
    }
    if o.Some? {
      TakenGrows(m.matched, o, n, o.value);
      assert o.value in m.available;
    }
  }

  lemma UntakenStep(base: seq<TestResult>, m: Matching, found: Option<nat>, next: Matching)
    requires Ascending(m.available) && Untaken(base, m) && (found.Some? ==> found.value < |m.available|)
    requires next == (match found
                      case None => Matching(m.available, m.matched + [None])
                      case Some(i) =>
                        Matching(m.available[..i] + m.available[i + 1..], m.matched + [Some(m.available[i])]))
    ensures Ascending(next.available) && Untaken(base, next)
    ensures |next.available| + CountMatched(next.matched) == |m.available| + CountMatched(m.matched)
  {
    var o := if found.Some? then Some(m.available[found.value]) else None;
    forall p: nat | p < |base| ensures p in next.available <==> !TakenBefore(next.matched, |next.matched|, p) {
      TakenGrows(m.matched, o, |m.matched|, p);
      if found.Some? {
        RemoveOne(m.available, found.value, p);
      }
      hide TakenBefore;
    }
    if found.Some? {
      RemoveOne(m.available, found.value, 0);
    }
    assert next.matched[..|m.matched|] == m.matched;
  }

  lemma {:induction false} MatchedInv(base: seq<TestResult>, cands: seq<TestResult>)
    ensures Inv(base, cands, Matched(base, cands))
  {
    if cands != [] {
      hide Compatible, FirstCompatible, Ascending, Untaken, HasFirstFree;
      var before, c := cands[..|cands| - 1], cands[|cands| - 1];
      MatchedInv(base, before);
      assert cands == before + [c];
      var m, next := Matched(base, before), Matched(base, cands);
      var found := FirstCompatible(base, m.available, c);
      UntakenStep(base, m, found, next);
      var o := next.matched[|before|];
      assert next.matched == m.matched + [o];
      FirstIsFree(base, before, c, m, o);
      EarlierStay(base, before, c, m.matched, o);
    } else {
      var m := Matched(base, cands);
      forall p: nat | p < |base| ensures p in m.available {
        assert m.available[p] == p;
      }
    }
  }

  /** Having the first free result each time leaves one matching only. */
  lemma {:induction false} MatchedExactlyWhenFirstFree(base: seq<TestResult>, cands: seq<TestResult>,
          matched: seq<Option<nat>>)
    requires |matched| == |cands| && InBase(base, matched)
    ensures matched == Matched(base, cands).matched <==> AllHaveFirstFree(base, cands, matched)
  {
    MatchedInv(base, cands);
    if AllHaveFirstFree(base, cands, matched) {
      var greedy := Matched(base, cands).matched;
      forall k | 0 <= k <= |cands| ensures matched[..k] == greedy[..k] {
        SamePrefix(base, cands, matched, greedy, k);
      }
      assert matched[..|cands|] == matched && greedy[..|cands|] == greedy;
    }
  }

  lemma {:induction false} SamePrefix(base: seq<TestResult>, cands: seq<TestResult>, x: seq<Option<nat>>,
          y: seq<Option<nat>>, k: nat)
    requires |x| == |y| == |cands| && InBase(base, x) && InBase(base, y) && k <= |cands|
    requires AllHaveFirstFree(base, cands, x) && AllHaveFirstFree(base, cands, y)
    ensures x[..k] == y[..k]
  {
    if k > 0 {
      SamePrefix(base, cands, x, y, k - 1);
      assert HasFirstFree(base, cands, x, k - 1) && HasFirstFree(base, cands, y, k - 1);
      assert forall d :: 0 <= d < k - 1 ==> x[d] == x[..k - 1][d] == y[..k - 1][d] == y[d];
      forall p: nat {:trigger TakenBefore(x, k - 1, p)} ensures TakenBefore(x, k - 1, p) == TakenBefore(y, k - 1, p) {
      }
      hide TakenBefore, Compatible;
      assert x[k - 1] == y[k - 1];
    }
  }

  lemma {:induction false} CountAdded(cands: seq<TestResult>, matched: seq<Option<nat>>)
    requires |matched| == |cands|
    ensures |Added(cands, matched)| + CountMatched(matched) == |cands|
  {
    if cands != [] {
      CountAdded(cands[..|cands| - 1], matched[..|cands| - 1]);
    }
  }

  lemma {:induction false} AddedIsUnmatched(cands: seq<TestResult>, matched: seq<Option<nat>>, side: Side)
    requires |matched| == |cands|
    ensures side in Added(cands, matched)
       <==> exists c :: 0 <= c < |cands| && matched[c].None? && side == SideOf(cands[c])
  {
    if cands != [] {
      var n := |cands| - 1;
      AddedIsUnmatched(cands[..n], matched[..n], side);
      assert forall c :: 0 <= c < n ==> cands[..n][c] == cands[c] && matched[..n][c] == matched[c];
    }
  }

  /**
   The report is a maximal matching: what was matched and what was removed make up the baseline,
   what was matched and what was added make up the candidate, nobody is matched twice, and no
   added result could still be matched with a removed one.
   */
  lemma ComparisonIsMaximal(baseline: TestRunManifest, candidate: TestRunManifest)
    requires Compare(baseline, candidate).Ok?
    ensures
      var report, matched := Compare(baseline, candidate).value, Matched(baseline.results, candidate.results).matched;
      && |baseline.results| == CountMatched(matched) + |report.removed|
      && |candidate.results| == CountMatched(matched) + |report.added|
      && (forall c, d :: 0 <= c < d < |matched| && matched[c].Some? ==> matched[c] != matched[d])
      && (forall x, y :: x in report.removed && y in report.added ==> !Compatible(x.result, y.result))
  {
    var base, cands := baseline.results, candidate.results;
    var report, m := Compare(baseline, candidate).value, Matched(base, cands);
    MatchedInv(base, cands);
    CountAdded(cands, m.matched);
    hide Matched, Compatible, FirstCompatible, Pairs, Added, CountMatched, HaveAttempts, Ascending, SideOf;
    forall c, d | 0 <= c < d < |m.matched| && m.matched[c].Some? ensures m.matched[c] != m.matched[d] {
      assert HasFirstFree(base, cands, m.matched, d);
    }
    forall x, y | x in report.removed && y in report.added ensures !Compatible(x.result, y.result) {
      AddedIsUnmatched(cands, m.matched, y);
      var c :| 0 <= c < |cands| && m.matched[c].None? && y == SideOf(cands[c]);
      var i :| 0 <= i < |m.available| && x == SideOf(base[m.available[i]]);
      LeftOverIsIncompatible(base, cands, c, i);
    }
  }

  lemma LeftOverIsIncompatible(base: seq<TestResult>, cands: seq<TestResult>, c: nat, i: nat)
    requires c < |cands| && i < |Matched(base, cands).available| && Matched(base, cands).matched[c].None?
    ensures !Compatible(base[Matched(base, cands).available[i]], cands[c])
  {
    MatchedInv(base, cands);
    var m := Matched(base, cands);
    hide Matched, Compatible, FirstCompatible, CountMatched, Ascending;
    assert HasFirstFree(base, cands, m.matched, c);
    assert m.available[i] in m.available;
  }

  /** What is reported of a pair: exactly the respects in which a matched pair differs, and only if there are any. */
  lemma {:induction false} ReportsExactlyTheChanges(base: seq<TestResult>, cands: seq<TestResult>,
          matched: seq<Option<nat>>, pair: Pair)
    requires |matched| == |cands| && InBase(base, matched) && HaveAttempts(base, cands, matched)
    ensures pair in Pairs(base, cands, matched) <==> exists c :: IsReport(base, cands, matched, c, pair)
  {
    if cands != [] {
      var n := |cands| - 1;
      ReportsExactlyTheChanges(base, cands[..n], matched[..n], pair);
      forall c
        ensures c != n ==>
          (IsReport(base, cands, matched, c, pair) <==> IsReport(base, cands[..n], matched[..n], c, pair))
      {
      }
      assert pair in ReportOf(base, cands, matched, n) <==> IsReport(base, cands, matched, n, pair);
    }
  }

  predicate IsReport(base: seq<TestResult>, cands: seq<TestResult>, matched: seq<Option<nat>>, c: int, pair: Pair)
    requires |matched| == |cands| && InBase(base, matched) && HaveAttempts(base, cands, matched)
  {
    && 0 <= c < |cands| && matched[c].Some?
    && pair.baseline == base[matched[c].value] && pair.candidate == cands[c]
    && pair.scenarioId == ScenarioIdOf(pair.baseline) && pair.profile == pair.baseline.profile
    && pair.changes == Differences(KINDS, pair.baseline, pair.candidate) != []
  }

  // ---------------------------------------------------------------- comparing a run with itself

  function Own(k: nat): (matched: seq<Option<nat>>)
    ensures |matched| == k && forall i: nat :: i < k ==> matched[i] == Some(i)
  {
    if k == 0 then [] else Own(k - 1) + [Some(k - 1)]
  }

  function From(k: nat, n: nat): (available: seq<nat>)
    requires k <= n
    ensures |available| == n - k && forall i: nat :: i < n - k ==> available[i] == k + i
    decreases n - k
  {
    if k == n then [] else [k] + From(k + 1, n)
  }

  lemma {:induction false} EachMatchesItself(base: seq<TestResult>, k: nat)
    requires k <= |base|
    ensures Matched(base, base[..k]) == Matching(From(k, |base|), Own(k))
  {
    if k > 0 {
      EachMatchesItself(base, k - 1);
      assert base[..k][..k - 1] == base[..k - 1];
      var available := From(k - 1, |base|);
      assert available == [k - 1] + From(k, |base|);
      assert Compatible(base[available[0]], base[k - 1]);
      assert FirstCompatible(base, available, base[k - 1]) == Some(0);
      hide Compatible, FirstCompatible, From, Own;
      assert available[..0] + available[1..] == From(k, |base|);
      assert Own(k) == Own(k - 1) + [Some(k - 1)];
    } else {
      assert Matched(base, base[..0]).available == From(0, |base|);
    }
  }

  lemma {:induction false} NoneAdded(base: seq<TestResult>, k: nat)
    requires k <= |base|
    ensures Added(base[..k], Own(k)) == []
  {
    if k > 0 {
      assert base[..k][..k - 1] == base[..k - 1];
      assert Own(k)[..k - 1] == Own(k - 1);
      NoneAdded(base, k - 1);
    }
  }

  lemma {:induction false} NoPairs(base: seq<TestResult>, cands: seq<TestResult>)
    requires cands <= base && HaveAttempts(base, cands, Own(|cands|))
    ensures Pairs(base, cands, Own(|cands|)) == []
  {
    if cands != [] {
      var k := |cands| - 1;
      var matched := Own(k + 1);
      assert matched[k] == Some(k) && matched[..k] == Own(k) && base[k] == cands[k] && cands[k].attempts != [];
      hide Own, Differences, Differs;
      NothingDiffers(KINDS, cands[k]);
      assert ReportOf(base, cands, matched, k) == [];
      assert HaveAttempts(base, cands[..k], matched[..k]);
      hide HaveAttempts, InBase, ReportOf;
      NoPairs(base, cands[..k]);
    }
  }

  lemma {:induction false} NothingDiffers(kinds: seq<ChangeKind>, r: TestResult)
    requires r.attempts != []
    ensures Differences(kinds, r, r) == []
  {
    if kinds != [] {
      NothingDiffers(kinds[..|kinds| - 1], r);
    }
  }

  ghost predicate AllTried(results: seq<TestResult>) {
    forall i :: 0 <= i < |results| ==> results[i].attempts != []
  }

  lemma OwnAttempts(base: seq<TestResult>)
    ensures HaveAttempts(base, base, Own(|base|)) <==> AllTried(base)
  {
    var matched := Own(|base|);
    if !AllTried(base) {
      var i: nat :| i < |base| && base[i].attempts == [];
      assert matched[i] == Some(i);
    }
  }

  /** Comparing a run with itself reports nothing, even when ids or names repeat. */
  lemma SelfComparisonReportsNothing(run: TestRunManifest)
    ensures Compare(run, run)
         == if AllTried(run.results) then Ok(Comparison(run.id, run.id, [], [], [])) else Err(NoScenarioAttempt)
  {
    var base := run.results;
    EachMatchesItself(base, |base|);
    OwnAttempts(base);
    NoneAdded(base, |base|);
    assert base[..|base|] == base;
    assert Removed(base, From(|base|, |base|)) == [];
    if AllTried(base) {
      NoPairs(base, base);
    }
    hide Matched, Pairs, Added, Own, AllTried, HaveAttempts, From, Removed;
  }

  // ---------------------------------------------------------------- when the matching is the largest one

  /** A matching somebody else could make. */
  ghost predicate IsMatching(base: seq<TestResult>, cands: seq<TestResult>, matched: seq<Option<nat>>) {
    && |matched| == |cands| && InBase(base, matched)
    && (forall c :: 0 <= c < |cands| && matched[c].Some? ==> Compatible(base[matched[c].value], cands[c]))
    && (forall c, d :: 0 <= c < d < |cands| && matched[c].Some? ==> matched[c] != matched[d])
  }

  /** Either all results of both runs have an id, or none has. */
  ghost predicate IdsAgree(base: seq<TestResult>, cands: seq<TestResult>) {
    (forall r :: r in base + cands ==> HasId(r)) || (forall r :: r in base + cands ==> !HasId(r))
  }

  /** Two baseline results that one candidate result could take could both be taken by the same candidates. */
  ghost predicate Rectangular(base: seq<TestResult>, cands: seq<TestResult>) {
    forall p, q, c, d | p in base && q in base && c in cands && d in cands ::
      Compatible(p, d) && Compatible(q, d) && Compatible(q, c) ==> Compatible(p, c)
  }

  ghost predicate DrawnFrom(xs: seq<TestResult>, ys: seq<TestResult>) {
    forall x :: x in xs ==> x in ys
  }

  /** No matching of compatible results has more pairs than the comparison makes. */
  ghost predicate IsLargest(base: seq<TestResult>, cands: seq<TestResult>) {
    forall other | IsMatching(base, cands, other) :: CountMatched(other) <= CountMatched(Matched(base, cands).matched)
  }

  /** Whatever results are drawn from two runs, in whatever order. */
  ghost predicate AlwaysLargest(base: seq<TestResult>, cands: seq<TestResult>) {
    forall xs, ys | DrawnFrom(xs, base) && DrawnFrom(ys, cands) :: IsLargest(xs, ys)
  }

  ghost function Indexes(matched: seq<Option<nat>>): set<nat> {
    set c: nat | c < |matched| && matched[c].Some?
  }

  lemma {:induction false} CountIsSize(matched: seq<Option<nat>>)
    ensures |Indexes(matched)| == CountMatched(matched)
  {
    if matched != [] {
      var n := |matched| - 1;
      CountIsSize(matched[..n]);
      var before := Indexes(matched[..n]);
      assert Indexes(matched) == if matched[n].Some? then before + {n} else before;
    }
  }

  lemma {:induction false} InjectiveIntoIsNoLarger(xs: set<nat>, f: map<nat, nat>, ys: set<nat>)
    requires forall x :: x in xs ==> x in f && f[x] in ys
    requires forall x, y :: x in xs && y in xs && x != y ==> f[x] != f[y]
    ensures |xs| <= |ys|
    decreases |xs|
  {
    if xs != {} {
      var x :| x in xs;
      InjectiveIntoIsNoLarger(xs - {x}, f, ys - {f[x]});
    }
  }

  /** Some baseline result that nobody took is for the scenario of candidate c. */
  ghost predicate CouldTakeMore(base: seq<TestResult>, cands: seq<TestResult>, m: Matching, c: nat)
    requires c < |cands|
  {
    exists p: nat :: p < |base| && !TakenBefore(m.matched, |m.matched|, p) && Compatible(base[p], cands[c])
  }

  ghost function Taker(matched: seq<Option<nat>>, p: nat): (d: nat)
    requires TakenBefore(matched, |matched|, p)
    ensures d < |matched| && matched[d] == Some(p)
  {
    var d: nat :| d < |matched| && matched[d] == Some(p);
    d
  }

  /** The matched candidate that stands for candidate c of another matching. */
  ghost function StandsFor(base: seq<TestResult>, cands: seq<TestResult>, m: Matching, other: seq<Option<nat>>,
          c: nat): nat
    requires c < |cands| == |other| && other[c].Some?
  {
    if CouldTakeMore(base, cands, m, c) || !TakenBefore(m.matched, |m.matched|, other[c].value) then c
    else Taker(m.matched, other[c].value)
  }

  lemma StandInIsMatched(base: seq<TestResult>, cands: seq<TestResult>, other: seq<Option<nat>>, c: nat)
    requires IsMatching(base, cands, other) && c < |cands| && other[c].Some?
    ensures
      var m := Matched(base, cands);
      StandsFor(base, cands, m, other, c) in Indexes(m.matched)
      && (!CouldTakeMore(base, cands, m, c) ==> m.matched[StandsFor(base, cands, m, other, c)] == other[c])
  {
    var m := Matched(base, cands);
    MatchedInv(base, cands);
    if CouldTakeMore(base, cands, m, c) {
      assert HasFirstFree(base, cands, m.matched, c);
    }
  }

  lemma StandInsDiffer(base: seq<TestResult>, cands: seq<TestResult>, other: seq<Option<nat>>, c: nat, d: nat)
    requires IsMatching(base, cands, other) && Rectangular(base, cands) && c < |cands| && d < |cands| && c != d
    requires other[c].Some? && other[d].Some?
    ensures StandsFor(base, cands, Matched(base, cands), other, c)
         != StandsFor(base, cands, Matched(base, cands), other, d)
  {
    var m := Matched(base, cands);
    StandInIsMatched(base, cands, other, c);
    StandInIsMatched(base, cands, other, d);
    MatchedInv(base, cands);
    if CouldTakeMore(base, cands, m, d) && m.matched[d] == other[c] {
      OthersCouldToo(base, cands, m, c, d, other);
    }
    if CouldTakeMore(base, cands, m, c) && m.matched[c] == other[d] {
      OthersCouldToo(base, cands, m, d, c, other);
    }
    hide CouldTakeMore, Rectangular, Compatible;
  }

  lemma OthersCouldToo(base: seq<TestResult>, cands: seq<TestResult>, m: Matching, c: nat, d: nat,
          other: seq<Option<nat>>)
    requires m == Matched(base, cands) && IsMatching(base, cands, other) && Rectangular(base, cands)
    requires c < |cands| && d < |cands|
    requires other[c].Some? && CouldTakeMore(base, cands, m, d) && m.matched[d] == other[c]
    ensures CouldTakeMore(base, cands, m, c)
  {
    MatchedInv(base, cands);
    assert HasFirstFree(base, cands, m.matched, d);
    var p: nat :| p < |base| && !TakenBefore(m.matched, |m.matched|, p) && Compatible(base[p], cands[d]);
    var q := other[c].value;
    hide Compatible;
    assert base[p] in base && base[q] in base && cands[c] in cands && cands[d] in cands;
  }

  lemma NoneIsLarger(base: seq<TestResult>, cands: seq<TestResult>, other: seq<Option<nat>>)
    requires Rectangular(base, cands) && IsMatching(base, cands, other)
    ensures CountMatched(other) <= CountMatched(Matched(base, cands).matched)
  {
    var m := Matched(base, cands);
    var f := map c: nat | c in Indexes(other) :: StandsFor(base, cands, m, other, c);
    forall c | c in Indexes(other) ensures f[c] in Indexes(m.matched) {
      StandInIsMatched(base, cands, other, c);
    }
    forall c, d | c in Indexes(other) && d in Indexes(other) && c != d ensures f[c] != f[d] {
      StandInsDiffer(base, cands, other, c, d);
    }
    InjectiveIntoIsNoLarger(Indexes(other), f, Indexes(m.matched));
    CountIsSize(other);
    CountIsSize(m.matched);
  }

  lemma OneTakesTheOther(q: TestResult, p: TestResult, d: TestResult, c: TestResult)
    requires Compatible(q, d) && !Compatible(p, c)
    ensures CountMatched(Matched([q, p], [d, c]).matched) == 1
  {
    var base, cands, first := [q, p], [d, c], [d];
    assert FirstCompatible(base, [0, 1], d) == Some(0) && FirstCompatible(base, [1], c) == None;
    hide Compatible, FirstCompatible;
    assert cands[..1] == first && first[..0] == [];
    assert Matched(base, []).available == [0, 1];
    assert Matched(base, first) == Matching([1], [Some(0)]);
    var one, two := Matched(base, first).matched, Matched(base, cands).matched;
    assert one[..0] == [] && CountMatched(one) == 1;
    assert two[..1] == one && two[1] == None;
  }

  lemma CountTwo(matched: seq<Option<nat>>)
    requires |matched| == 2 && matched[0].Some? && matched[1].Some?
    ensures CountMatched(matched) == 2
  {
    var one := matched[..1];
    assert one[..0] == [] && CountMatched(one) == 1;
  }

  /** A result takes the one that another needed. */
  lemma CrossedPairIsMissed(q: TestResult, p: TestResult, d: TestResult, c: TestResult)
    requires Compatible(p, d) && Compatible(q, d) && Compatible(q, c) && !Compatible(p, c)
    ensures !IsLargest([q, p], [d, c])
  {
    OneTakesTheOther(q, p, d, c);
    var other: seq<Option<nat>> := [Some(1), Some(0)];
    CountTwo(other);
    hide Compatible, Matched, CountMatched;
    assert IsMatching([q, p], [d, c], other);
  }

  /**
   The comparison always finds a largest matching between results of the two runs exactly when
   compatibility between them is rectangular.
   */
  lemma LargestExactlyWhenRectangular(base: seq<TestResult>, cands: seq<TestResult>)
    ensures AlwaysLargest(base, cands) <==> Rectangular(base, cands)
  {
    hide Compatible, Matched, CountMatched, IsMatching;
    if Rectangular(base, cands) {
      forall xs, ys, other | DrawnFrom(xs, base) && DrawnFrom(ys, cands) && IsMatching(xs, ys, other)
        ensures CountMatched(other) <= CountMatched(Matched(xs, ys).matched)
      {
        NoneIsLarger(xs, ys, other);
      }
    } else {
      var p, q, c, d :| p in base && q in base && c in cands && d in cands
        && Compatible(p, d) && Compatible(q, d) && Compatible(q, c) && !Compatible(p, c);
      CrossedPairIsMissed(q, p, d, c);
      assert DrawnFrom([q, p], base) && DrawnFrom([d, c], cands);
    }
  }

  /** So it does when all results have ids, or none has. */
  lemma AgreeingIdsAreRectangular(base: seq<TestResult>, cands: seq<TestResult>)
    requires IdsAgree(base, cands)
    ensures Rectangular(base, cands) && IsLargest(base, cands)
  {
    forall p, q, c, d | p in base && q in base && c in cands && d in cands
      ensures Compatible(p, d) && Compatible(q, d) && Compatible(q, c) ==> Compatible(p, c)
    {
      assert {p, q, c, d} <= set r | r in base + cands;
    }
    LargestExactlyWhenRectangular(base, cands);
  }

  const TRIED := Attempt(None, None, None, [])
  const PLAIN := TestResult("pay", None, "web", "passed", 1.0, None, [TRIED])
  const PAY_A := PLAIN.(id := Some("a"))
  const PAY_B := PLAIN.(id := Some("b"))

  /** With ids on some results only, the comparison can miss a pair. */
  lemma MixedIdsCanMissAPair()
    ensures !IsLargest([PLAIN, PAY_A], [PAY_A, PAY_B])
  {
    CrossedPairIsMissed(PLAIN, PAY_A, PAY_A, PAY_B);
  }
}
