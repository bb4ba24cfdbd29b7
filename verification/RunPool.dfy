/**
 The bounded worker pool of packages/runner/src/execution/run-scenarios.ts: workers share the
 next index and the list of runs.  What a worker does between two awaits is one step.
 */
module RunPool {
  import opened Wrappers

  // ---------------------------------------------------------------- the schedule

  type Selection = nat
  type Profile = nat

  // A target names its execution target profile and its adapter.
  datatype RunTarget = RunTarget(profile: Profile, adapter: nat)

  datatype Scheduled = Scheduled(selection: Selection, target: RunTarget)

  datatype ScheduledResult = ScheduledResult(selection: Selection, profile: Profile)

  function ForSelection(selection: Selection, targets: seq<RunTarget>): seq<Scheduled> {
    seq(|targets|, i requires 0 <= i < |targets| => Scheduled(selection, targets[i]))
  }

  function ScenarioTargets(selections: seq<Selection>, targets: seq<RunTarget>): seq<Scheduled> {
    if selections == [] then []
    else ForSelection(selections[0], targets) + ScenarioTargets(selections[1..], targets)
  }

  function Included(selection: Selection, profiles: seq<Profile>,
          includes: (Selection, Profile) -> bool): seq<ScheduledResult> {
    if profiles == [] then []
    else
      (if includes(selection, profiles[0]) then [ScheduledResult(selection, profiles[0])] else [])
      + Included(selection, profiles[1..], includes)
  }

  function ScheduleScenarios(selections: seq<Selection>, profiles: seq<Profile>,
          includes: (Selection, Profile) -> bool): seq<ScheduledResult> {
    if selections == [] then []
    else Included(selections[0], profiles, includes) + ScheduleScenarios(selections[1..], profiles, includes)
  }

  function Profiles(targets: seq<RunTarget>): seq<Profile> {
    seq(|targets|, i requires 0 <= i < |targets| => targets[i].profile)
  }

  // ---------------------------------------------------------------- the pool

  type Worker = nat

  // A finished run; `outcome` is whatever the scenario gave.
  datatype ScenarioRun = ScenarioRun(of: Scheduled, outcome: nat)

  datatype Pc =
    | Ready                    // at the head of the loop
    | Running(index: nat)
    | Reporting(index: nat)    // stored the run, awaiting onResult
    | Stopped                  // nothing left to claim
    | Failed(index: nat)       // the scenario or onResult threw

  datatype State = State(nextIndex: nat, pcs: seq<Pc>, runs: map<nat, ScenarioRun>, claims: seq<Worker>)

  datatype Step =
    | Claim(w: Worker)
    | Store(w: Worker, outcome: nat)
    | Report(w: Worker)
    | Stop(w: Worker)
    | Throw(w: Worker)

  /** How many workers are started; None refuses the concurrency. */
  function WorkerCount(concurrency: int, scheduled: nat): Option<nat> {
    if concurrency < 1 then None
    else Some(if concurrency < scheduled then concurrency else scheduled)
  }

  function Initial(workers: nat): State {
    State(0, seq(workers, _ => Ready), map[], [])
  }

  /** The state after a step, if the step can happen. */
  function Apply(work: seq<Scheduled>, s: State, step: Step): Option<State> {
    if step.w >= |s.pcs| then None
    else
      match (step, s.pcs[step.w])
      case (Claim(w), Ready) =>
        if s.nextIndex < |work|
        then Some(State(s.nextIndex + 1, s.pcs[w := Running(s.nextIndex)], s.runs, s.claims + [w]))
        else None
      case (Stop(w), Ready) => if s.nextIndex < |work| then None else Some(s.(pcs := s.pcs[w := Stopped]))
      case (Store(w, outcome), Running(index)) =>
        if index >= |work| then None
        else Some(s.(pcs := s.pcs[w := Reporting(index)], runs := s.runs[index := ScenarioRun(work[index], outcome)]))
      case (Report(w), Reporting(_)) => Some(s.(pcs := s.pcs[w := Ready]))
      case (Throw(w), Running(index)) => Some(s.(pcs := s.pcs[w := Failed(index)]))
      case (Throw(w), Reporting(index)) => Some(s.(pcs := s.pcs[w := Failed(index)]))
      case _ => None
  }

  function Run(work: seq<Scheduled>, workers: nat, steps: seq<Step>): Option<State> {
    if steps == [] then Some(Initial(workers))
    else
      match Run(work, workers, steps[..|steps| - 1])
      case None => None
      case Some(s) => Apply(work, s, steps[|steps| - 1])
  }

  // ---------------------------------------------------------------- invariants

  /** Worker w is busy with the index, or failed on it. */
  predicate WorksOn(s: State, w: Worker, index: nat) {
    w < |s.pcs| && (s.pcs[w] == Running(index) || s.pcs[w] == Reporting(index) || s.pcs[w] == Failed(index))
  }

  /** The claimed indexes are 0 to nextIndex - 1, each claimed by one worker. */
  ghost predicate ClaimedOnce(work: seq<Scheduled>, s: State) {
    && |s.claims| == s.nextIndex <= |work|
    && (forall w: Worker, i: nat :: WorksOn(s, w, i) ==> i < s.nextIndex && s.claims[i] == w)
  }

  /** A stored run is that of its own target; what is claimed but not stored is in somebody's hands. */
  ghost predicate StoredInPlace(work: seq<Scheduled>, s: State) {
    && s.nextIndex <= |work|
    && (forall i :: i in s.runs ==> i < s.nextIndex && s.runs[i].of == work[i])
    && (forall i :: 0 <= i < s.nextIndex && i !in s.runs ==>
      exists w: Worker :: WorksOn(s, w, i) && !s.pcs[w].Reporting?)
    && (forall w :: 0 <= w < |s.pcs| && s.pcs[w].Stopped? ==> s.nextIndex == |work|)
    && (forall w :: 0 <= w < |s.pcs| && s.pcs[w].Reporting? ==> s.pcs[w].index in s.runs)
  }

  ghost predicate Inv(work: seq<Scheduled>, s: State) {
    ClaimedOnce(work, s) && StoredInPlace(work, s)
  }

  lemma StepKeepsClaims(work: seq<Scheduled>, s: State, step: Step)
    requires Inv(work, s) && Apply(work, s, step).Some?
    ensures ClaimedOnce(work, Apply(work, s, step).value)
  {
    var t := Apply(work, s, step).value;
    forall w: Worker, i: nat | WorksOn(t, w, i) ensures i < t.nextIndex && t.claims[i] == w {
      assert WorksOn(s, w, i) || (step == Claim(w) && i == s.nextIndex);
    }
  }

  lemma StepKeepsRuns(work: seq<Scheduled>, s: State, step: Step)
    requires Inv(work, s) && Apply(work, s, step).Some?
    ensures StoredInPlace(work, Apply(work, s, step).value)
  {
    var t := Apply(work, s, step).value;
    if step.Store? {
      assert WorksOn(s, step.w, s.pcs[step.w].index);
    }
    forall i | 0 <= i < t.nextIndex && i !in t.runs
      ensures exists w: Worker :: WorksOn(t, w, i) && !t.pcs[w].Reporting?
    {
      if i == s.nextIndex {
        assert WorksOn(t, step.w, i);
      } else {
        var w: Worker :| WorksOn(s, w, i) && !s.pcs[w].Reporting?;
        assert WorksOn(t, w, i);
      }
    }
  }

  lemma {:induction false} RunKeepsInv(work: seq<Scheduled>, workers: nat, steps: seq<Step>)
    requires Run(work, workers, steps).Some?
    ensures Inv(work, Run(work, workers, steps).value) && |Run(work, workers, steps).value.pcs| == workers
  {
    if steps != [] {
      RunKeepsInv(work, workers, steps[..|steps| - 1]);
      var s := Run(work, workers, steps[..|steps| - 1]).value;
      StepKeepsClaims(work, s, steps[|steps| - 1]);
      StepKeepsRuns(work, s, steps[|steps| - 1]);
    }
  }

  // ---------------------------------------------------------------- what every interleaving guarantees

  /** The indexes that are being worked on. */
  ghost function InFlight(s: State): set<nat> {
    set w | 0 <= w < |s.pcs| && (s.pcs[w].Running? || s.pcs[w].Reporting?) :: s.pcs[w].index
  }

  lemma {:induction false} ImageNoLarger(s: State, n: nat)
    requires n <= |s.pcs|
    ensures |set w | 0 <= w < n && (s.pcs[w].Running? || s.pcs[w].Reporting?) :: s.pcs[w].index| <= n
  {
    if n > 0 {
      ImageNoLarger(s, n - 1);
      var small := set w | 0 <= w < n - 1 && (s.pcs[w].Running? || s.pcs[w].Reporting?) :: s.pcs[w].index;
      var large := set w | 0 <= w < n && (s.pcs[w].Running? || s.pcs[w].Reporting?) :: s.pcs[w].index;
      if s.pcs[n - 1].Running? || s.pcs[n - 1].Reporting? {
        assert large == small + {s.pcs[n - 1].index};
      } else {
        assert large == small;
      }
    }
  }

  /**
   In every reachable state the claimed indexes are exactly 0 to nextIndex - 1, no two workers are
   on one index, and at most `concurrency` are in flight.
   */
  lemma ClaimsAreExact(work: seq<Scheduled>, concurrency: int, steps: seq<Step>)
    requires WorkerCount(concurrency, |work|).Some?
    requires Run(work, WorkerCount(concurrency, |work|).value, steps).Some?
    ensures
      var s := Run(work, WorkerCount(concurrency, |work|).value, steps).value;
      && ClaimedOnce(work, s)
      && (forall v: Worker, w: Worker, i: nat :: WorksOn(s, v, i) && WorksOn(s, w, i) ==> v == w)
      && |InFlight(s)| <= concurrency
  {
    var s := Run(work, WorkerCount(concurrency, |work|).value, steps).value;
    RunKeepsInv(work, WorkerCount(concurrency, |work|).value, steps);
    ImageNoLarger(s, |s.pcs|);
  }

  /** When every worker has stopped without an error, every slot holds the run of its own target. */
  lemma AllRunsInPlace(work: seq<Scheduled>, concurrency: int, steps: seq<Step>)
    requires WorkerCount(concurrency, |work|).Some?
    requires Run(work, WorkerCount(concurrency, |work|).value, steps).Some?
    requires forall pc :: pc in Run(work, WorkerCount(concurrency, |work|).value, steps).value.pcs ==> pc.Stopped?
    ensures
      var s := Run(work, WorkerCount(concurrency, |work|).value, steps).value;
      && (forall i :: i in s.runs <==> 0 <= i < |work|)
      && (forall i :: 0 <= i < |work| ==> s.runs[i].of == work[i])
  {
    var workers := WorkerCount(concurrency, |work|).value;
    var s := Run(work, workers, steps).value;
    RunKeepsInv(work, workers, steps);
    if work != [] {
      assert s.pcs[0] in s.pcs;
    }
    forall i | 0 <= i < |work| ensures i in s.runs {
      assert forall w: Worker :: WorksOn(s, w, i) ==> s.pcs[w] in s.pcs;
    }
  }

  /** Each stored run has the outcome that the worker which claimed its index brought back. */
  ghost predicate OutcomesBrought(s: State, steps: seq<Step>) {
    |s.claims| == s.nextIndex
    && forall i :: i in s.runs ==> i < s.nextIndex && Store(s.claims[i], s.runs[i].outcome) in steps
  }

  lemma {:induction false} OutcomesAreBrought(work: seq<Scheduled>, workers: nat, steps: seq<Step>)
    requires Run(work, workers, steps).Some?
    ensures OutcomesBrought(Run(work, workers, steps).value, steps)
  {
    if steps != [] {
      var before, last := steps[..|steps| - 1], steps[|steps| - 1];
      OutcomesAreBrought(work, workers, before);
      RunKeepsInv(work, workers, before);
      var s := Run(work, workers, before).value;
      if last.Store? {
        assert WorksOn(s, last.w, s.pcs[last.w].index);
      }
    }
  }

  // ---------------------------------------------------------------- the pool comes to an end

  /** A concurrency of one or more is accepted; no more workers are started than there is work. */
  lemma WorkersExactly(concurrency: int, scheduled: nat)
    ensures WorkerCount(concurrency, scheduled).Some? <==> concurrency >= 1
    ensures
      concurrency >= 1 ==>
        var count := WorkerCount(concurrency, scheduled).value;
        count <= concurrency && count <= scheduled && (count == concurrency || count == scheduled)
  {
  }

  /** The steps that a worker has before it, without those of further claims. */
  function StepsLeft(pc: Pc): nat {
    match pc
    case Ready => 1
    case Running(_) => 3
    case Reporting(_) => 2
    case Stopped => 0
    case Failed(_) => 0
  }

  function AllStepsLeft(pcs: seq<Pc>): nat {
    if pcs == [] then 0 else StepsLeft(pcs[0]) + AllStepsLeft(pcs[1..])
  }

  lemma {:induction false} StepsLeftUpdate(pcs: seq<Pc>, w: nat, pc: Pc)
    requires w < |pcs|
    ensures AllStepsLeft(pcs[w := pc]) == AllStepsLeft(pcs) - StepsLeft(pcs[w]) + StepsLeft(pc)
  {
    if w == 0 {
      assert pcs[0 := pc][1..] == pcs[1..];
    } else {
      assert pcs[w := pc][1..] == pcs[1..][w - 1 := pc];
      StepsLeftUpdate(pcs[1..], w - 1, pc);
    }
  }

  lemma {:induction false} ReadyStepsLeft(pcs: seq<Pc>)
    requires forall pc :: pc in pcs ==> pc.Ready?
    ensures AllStepsLeft(pcs) == |pcs|
  {
    if pcs != [] {
      assert pcs[0] in pcs;
      ReadyStepsLeft(pcs[1..]);
    }
  }

  /** No run of the pool takes more than three steps for each target and one for each worker. */
  lemma {:induction false} PoolComesToAnEnd(work: seq<Scheduled>, workers: nat, steps: seq<Step>)
    requires Run(work, workers, steps).Some?
    ensures
      var s := Run(work, workers, steps).value;
      |steps| + 3 * (|work| - s.nextIndex) + AllStepsLeft(s.pcs) <= 3 * |work| + workers
    ensures |steps| <= 3 * |work| + workers
  {
    if steps == [] {
      ReadyStepsLeft(Initial(workers).pcs);
    } else {
      var before, last := steps[..|steps| - 1], steps[|steps| - 1];
      PoolComesToAnEnd(work, workers, before);
      var s, t := Run(work, workers, before).value, Run(work, workers, steps).value;
      StepsLeftUpdate(s.pcs, last.w, t.pcs[last.w]);
      assert t.pcs == s.pcs[last.w := t.pcs[last.w]];
    }
    RunKeepsInv(work, workers, steps);
  }

  /** A worker that has not failed can go on without an error, or it has stopped: then nothing is left to claim. */
  lemma WorkerGoesOn(work: seq<Scheduled>, workers: nat, steps: seq<Step>, w: Worker)
    requires Run(work, workers, steps).Some? && w < workers
    ensures
      var s := Run(work, workers, steps).value;
      |s.pcs| == workers &&
      match s.pcs[w]
      case Failed(_) => true
      case Stopped => s.nextIndex == |work|
      case _ => exists step: Step :: step.w == w && !step.Throw? && Apply(work, s, step).Some?
  {
    RunKeepsInv(work, workers, steps);
    var s := Run(work, workers, steps).value;
    match s.pcs[w]
    case Ready => assert Apply(work, s, if s.nextIndex < |work| then Claim(w) else Stop(w)).Some?;
    case Running(i) =>
      assert WorksOn(s, w, i);
      assert Apply(work, s, Store(w, 0)).Some?;
    case Reporting(_) => assert Apply(work, s, Report(w)).Some?;
    case _ =>
  }

  // ---------------------------------------------------------------- the schedule lines up

  function Planned(scheduled: Scheduled): ScheduledResult {
    ScheduledResult(scheduled.selection, scheduled.target.profile)
  }

  lemma {:induction false} EveryProfileIncluded(selection: Selection, profiles: seq<Profile>)
    ensures Included(selection, profiles, (_, _) => true)
         == seq(|profiles|, i requires 0 <= i < |profiles| => ScheduledResult(selection, profiles[i]))
  {
    if profiles != [] {
      EveryProfileIncluded(selection, profiles[1..]);
    }
  }

  /** Without a filter, the planned results are those of the scheduled targets, index by index. */
  lemma {:induction false} ScheduleLinesUp(selections: seq<Selection>, targets: seq<RunTarget>)
    ensures
      var planned := ScheduleScenarios(selections, Profiles(targets), (_, _) => true);
      var work := ScenarioTargets(selections, targets);
      |planned| == |work| && forall i :: 0 <= i < |work| ==> planned[i] == Planned(work[i])
  {
    if selections != [] {
      ScheduleLinesUp(selections[1..], targets);
      EveryProfileIncluded(selections[0], Profiles(targets));
    }
  }

  /** Every selection with every target, selection by selection. */
  lemma {:induction false} TargetsExactly(selections: seq<Selection>, targets: seq<RunTarget>, a: nat, b: nat)
    requires a < |selections| && b < |targets|
    ensures
      var work := ScenarioTargets(selections, targets);
      && |work| == |selections| * |targets|
      && 0 <= a * |targets| + b < |work|
      && work[a * |targets| + b] == Scheduled(selections[a], targets[b])
  {
    var m := |targets|;
    TargetCount(selections, targets);
    TargetPlace(a, |selections|, b, m);
    if a > 0 {
      TargetsExactly(selections[1..], targets, a - 1, b);
      assert (a - 1) * m + b == a * m + b - m;
    }
  }

  lemma {:induction false} TargetCount(selections: seq<Selection>, targets: seq<RunTarget>)
    ensures |ScenarioTargets(selections, targets)| == |selections| * |targets|
  {
    if selections != [] {
      TargetCount(selections[1..], targets);
      assert (|selections| - 1) * |targets| + |targets| == |selections| * |targets|;
    }
  }

  lemma {:induction false} TargetPlace(a: nat, n: nat, b: nat, m: nat)
    requires a < n && b < m
    ensures a * m + b < n * m
  {
    OneMore(n - 1, m);
    if a < n - 1 {
      TargetPlace(a, n - 1, b, m);
    }
  }

  lemma OneMore(a: nat, m: nat)
    ensures (a + 1) * m == a * m + m
  {
  }

  // ---------------------------------------------------------------- the filter

  predicate IsBefore(p: (nat, nat), q: (nat, nat)) {
    p.0 < q.0 || (p.0 == q.0 && p.1 < q.1)
  }

  type Filter = (Selection, Profile) -> bool

  /** The item is for the selection and profile at the place, which the filter includes. */
  predicate Fits(place: (nat, nat), item: ScheduledResult, selections: seq<Selection>, profiles: seq<Profile>,
      includes: Filter) {
    && place.0 < |selections| && place.1 < |profiles| && includes(selections[place.0], profiles[place.1])
    && item == ScheduledResult(selections[place.0], profiles[place.1])
  }

  ghost predicate StandsAt(at: seq<(nat, nat)>, planned: seq<ScheduledResult>, selections: seq<Selection>,
          profiles: seq<Profile>, includes: Filter) {
    |at| == |planned| && forall k :: 0 <= k < |at| ==> Fits(at[k], planned[k], selections, profiles, includes)
  }

  ghost predicate InOrder(at: seq<(nat, nat)>) {
    forall k, n :: 0 <= k < n < |at| ==> IsBefore(at[k], at[n])
  }

  /** If the filter includes the place it is one of these. */
  predicate IsThere(at: seq<(nat, nat)>, place: (nat, nat), selections: seq<Selection>, profiles: seq<Profile>,
      includes: Filter) {
    place.0 < |selections| && place.1 < |profiles| && includes(selections[place.0], profiles[place.1]) ==> place in at
  }

  /** No place that the filter includes is left out. */
  ghost predicate LeavesNoneOut(at: seq<(nat, nat)>, selections: seq<Selection>, profiles: seq<Profile>,
          includes: Filter) {
    forall place :: IsThere(at, place, selections, profiles, includes)
  }

  function Moved(at: seq<(nat, nat)>, down: nat, right: nat): seq<(nat, nat)> {
    seq(|at|, k requires 0 <= k < |at| => (at[k].0 + down, at[k].1 + right))
  }

  lemma MovedIn(at: seq<(nat, nat)>, down: nat, right: nat, p: (nat, nat))
    requires p in at
    ensures (p.0 + down, p.1 + right) in Moved(at, down, right)
  {
    var k :| 0 <= k < |at| && at[k] == p;
    assert Moved(at, down, right)[k] == (p.0 + down, p.1 + right);
  }

  lemma JoinedInOrder(first: seq<(nat, nat)>, more: seq<(nat, nat)>, down: nat, right: nat)
    requires InOrder(first) && InOrder(more)
    requires forall k, n :: 0 <= k < |first| && 0 <= n < |more| ==>
      IsBefore(first[k], (more[n].0 + down, more[n].1 + right))
    ensures InOrder(first + Moved(more, down, right))
  {
    var moved := Moved(more, down, right);
    assert forall k, n :: 0 <= k < n < |moved| ==> IsBefore(more[k], more[n]);
  }

  lemma FitsRight(place: (nat, nat), item: ScheduledResult, selection: Selection, profiles: seq<Profile>,
                  includes: Filter)
    requires profiles != [] && Fits(place, item, [selection], profiles[1..], includes)
    ensures Fits((place.0, place.1 + 1), item, [selection], profiles, includes) && place.0 == 0
  {
  }

  lemma ThereRight(more: seq<(nat, nat)>, place: (nat, nat), selection: Selection, profiles: seq<Profile>,
                   includes: Filter)
    requires profiles != [] && place.1 > 0
    requires IsThere(more, (place.0, place.1 - 1), [selection], profiles[1..], includes)
    ensures IsThere(Moved(more, 0, 1), place, [selection], profiles, includes)
  {
    if (place.0, place.1 - 1) in more {
      MovedIn(more, 0, 1, (place.0, place.1 - 1));
    }
  }

  lemma FirstThere(selection: Selection, profiles: seq<Profile>, includes: Filter, place: (nat, nat))
    requires profiles != [] && place.1 == 0
    ensures IsThere(if includes(selection, profiles[0]) then [(0, 0)] else [], place, [selection], profiles, includes)
  {
  }

  /** The places of one selection that are included, in order. */
  lemma {:induction false} IncludedExactly(selection: Selection, profiles: seq<Profile>, includes: Filter)
      returns (at: seq<(nat, nat)>)
    ensures StandsAt(at, Included(selection, profiles, includes), [selection], profiles, includes)
    ensures InOrder(at) && LeavesNoneOut(at, [selection], profiles, includes)
    decreases profiles
  {
    if profiles == [] {
      at := [];
    } else {
      var more := IncludedExactly(selection, profiles[1..], includes);
      var rest, moved := Included(selection, profiles[1..], includes), Moved(more, 0, 1);
      var isIn := includes(selection, profiles[0]);
      var first: seq<(nat, nat)> := if isIn then [(0, 0)] else [];
      var items := if isIn then [ScheduledResult(selection, profiles[0])] else [];
      at := first + moved;
      assert Included(selection, profiles, includes) == items + rest;
      assert StandsAt(first, items, [selection], profiles, includes);
      forall place ensures IsThere(at, place, [selection], profiles, includes) {
        hide Included, Fits, InOrder;
        if place.1 > 0 {
          assert IsThere(more, (place.0, place.1 - 1), [selection], profiles[1..], includes);
          ThereRight(more, place, selection, profiles, includes);
        } else {
          FirstThere(selection, profiles, includes, place);
        }
      }
      hide IsThere, Included;
      forall k | 0 <= k < |more| ensures Fits(moved[k], rest[k], [selection], profiles, includes) && more[k].0 == 0 {
        FitsRight(more[k], rest[k], selection, profiles, includes);
      }
      JoinedInOrder(first, more, 0, 1);
      hide Fits, InOrder;
    }
  }

  lemma FitsDown(place: (nat, nat), item: ScheduledResult, selections: seq<Selection>, profiles: seq<Profile>,
                 includes: Filter)
    requires selections != []
    ensures Fits(place, item, selections[1..], profiles, includes) ==>
      Fits((place.0 + 1, place.1), item, selections, profiles, includes)
    ensures Fits(place, item, [selections[0]], profiles, includes) ==>
      Fits(place, item, selections, profiles, includes) && place.0 == 0
  {
  }

  lemma ThereDown(more: seq<(nat, nat)>, place: (nat, nat), selections: seq<Selection>,
                  profiles: seq<Profile>, includes: Filter)
    requires selections != [] && place.0 > 0
    requires IsThere(more, (place.0 - 1, place.1), selections[1..], profiles, includes)
    ensures IsThere(Moved(more, 1, 0), place, selections, profiles, includes)
  {
    if (place.0 - 1, place.1) in more {
      MovedIn(more, 1, 0, (place.0 - 1, place.1));
    }
  }

  lemma StandsJoined(first: seq<(nat, nat)>, items: seq<ScheduledResult>, more: seq<(nat, nat)>,
                     rest: seq<ScheduledResult>, selections: seq<Selection>, profiles: seq<Profile>, includes: Filter)
    requires selections != [] && InOrder(first) && InOrder(more)
    requires StandsAt(first, items, [selections[0]], profiles, includes)
    requires StandsAt(more, rest, selections[1..], profiles, includes)
    ensures StandsAt(first + Moved(more, 1, 0), items + rest, selections, profiles, includes)
    ensures InOrder(first + Moved(more, 1, 0))
  {
    var moved := Moved(more, 1, 0);
    hide Fits;
    forall k | 0 <= k < |first| ensures Fits(first[k], items[k], selections, profiles, includes) && first[k].0 == 0 {
      FitsDown(first[k], items[k], selections, profiles, includes);
    }
    forall k | 0 <= k < |more| ensures Fits(moved[k], rest[k], selections, profiles, includes) {
      FitsDown(more[k], rest[k], selections, profiles, includes);
    }
    JoinedInOrder(first, more, 1, 0);
    hide InOrder;
  }

  lemma NoneLeftOut(first: seq<(nat, nat)>, more: seq<(nat, nat)>, selections: seq<Selection>, profiles: seq<Profile>,
                    includes: Filter)
    requires selections != []
    requires LeavesNoneOut(first, [selections[0]], profiles, includes)
    requires LeavesNoneOut(more, selections[1..], profiles, includes)
    ensures LeavesNoneOut(first + Moved(more, 1, 0), selections, profiles, includes)
  {
    forall place ensures IsThere(first + Moved(more, 1, 0), place, selections, profiles, includes) {
      if place.0 > 0 {
        assert IsThere(more, (place.0 - 1, place.1), selections[1..], profiles, includes);
        ThereDown(more, place, selections, profiles, includes);
      } else {
        assert IsThere(first, place, [selections[0]], profiles, includes);
      }
    }
  }

  /** The schedule is every selection with every profile that the filter includes, in that order. */
  lemma {:induction false} ScheduleExactly(selections: seq<Selection>, profiles: seq<Profile>, includes: Filter)
      returns (at: seq<(nat, nat)>)
    ensures StandsAt(at, ScheduleScenarios(selections, profiles, includes), selections, profiles, includes)
    ensures InOrder(at) && LeavesNoneOut(at, selections, profiles, includes)
    decreases selections
  {
    if selections == [] {
      at := [];
    } else {
      var first := IncludedExactly(selections[0], profiles, includes);
      var more := ScheduleExactly(selections[1..], profiles, includes);
      var items, rest := Included(selections[0], profiles, includes),
        ScheduleScenarios(selections[1..], profiles, includes);
      at := first + Moved(more, 1, 0);
      assert ScheduleScenarios(selections, profiles, includes) == items + rest;
      NoneLeftOut(first, more, selections, profiles, includes);
      hide LeavesNoneOut, Included, ScheduleScenarios, InOrder, StandsAt;
      StandsJoined(first, items, more, rest, selections, profiles, includes);
    }
  }
}
