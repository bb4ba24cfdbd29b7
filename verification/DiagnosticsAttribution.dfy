/**
 Whose output is whose in the diagnostics buffer
 (packages/cli/src/run/application-diagnostics.ts): over any stream of events, what a step or an
 attempt receives was recorded for its profile, and a step's entries name that step.
 */
module DiagnosticsAttribution {
  import opened Wrappers
  import opened Diagnostics
  import opened DiagnosticsConservation

  /** An entry of the active scenario, attached while it was the only one of its profile. */
  predicate Owned(e: Entry, a: Active) {
    e.profile == a.scope.profile && e.scenario == Some(a.name)
  }

  ghost predicate StepOwned(step: StepEntries, a: Active) {
    forall e :: e in step.entries ==> Owned(e, a) && InStep(e, step.index)
  }

  ghost predicate EntriesOwned(a: Active) {
    (forall e :: e in a.diagnostics ==> Owned(e, a)) && (forall step :: step in a.finished ==> StepOwned(step, a))
  }

  ghost predicate Attributed(b: Buffer) {
    forall i :: 0 <= i < |b.active| ==> EntriesOwned(b.active[i])
  }

  // ---------------------------------------------------------------- lists of entries

  lemma {:induction false} InOfStep(entries: seq<Entry>, index: int, e: Entry)
    ensures e in OfStep(entries, index) <==> e in entries && InStep(e, index)
    ensures e in NotOfStep(entries, index) <==> e in entries && !InStep(e, index)
  {
    if entries != [] {
      InOfStep(entries[1..], index, e);
      assert entries == [entries[0]] + entries[1..];
    }
  }

  lemma {:induction false} InPutStep(finished: seq<StepEntries>, index: int, entries: seq<Entry>, k: nat)
    requires k < |PutStep(finished, index, entries)|
    ensures
      var put := PutStep(finished, index, entries);
      put[k] == StepEntries(index, entries) || put[k] in finished
  {
    if finished != [] && finished[0].index != index && k > 0 {
      InPutStep(finished[1..], index, entries, k - 1);
    }
  }

  lemma {:induction false} InEntriesOf(finished: seq<StepEntries>, index: int, e: Entry)
    requires e in EntriesOf(finished, index)
    ensures exists k :: 0 <= k < |finished| && finished[k].index == index && e in finished[k].entries
  {
    if finished[0].index != index {
      InEntriesOf(finished[1..], index, e);
      var k :| 0 <= k < |finished[1..]| && finished[1..][k].index == index && e in finished[1..][k].entries;
      assert finished[k + 1].index == index;
    }
  }

  lemma {:induction false} StepWithEntries(steps: seq<StepResult>, finished: seq<StepEntries>, j: nat)
    requires j < |steps|
    ensures |WithStepEntries(steps, finished)| == |steps|
    ensures WithStepEntries(steps, finished)[j]
         == StepResult(steps[j].index, steps[j].diagnostics + EntriesOf(finished, steps[j].index))
  {
    if j > 0 {
      StepWithEntries(steps[1..], finished, j - 1);
    } else if |steps| > 1 {
      StepWithEntries(steps[1..], finished, 0);
    }
  }

  // ---------------------------------------------------------------- every input attributes

  lemma UpdateAttributes(b: Buffer, i: nat, a: Active)
    requires Attributed(b) && i < |b.active| && EntriesOwned(a)
    ensures Attributed(b.(active := b.active[i := a]))
  {
  }

  lemma SameFinished(a: Active, t: Active)
    requires EntriesOwned(a) && t.scope == a.scope && t.name == a.name && t.finished == a.finished
    requires forall e :: e in t.diagnostics ==> Owned(e, t)
    ensures EntriesOwned(t)
  {
    forall step | step in t.finished ensures StepOwned(step, t) {
      assert StepOwned(step, a);
    }
  }

  lemma RecordAttributes(b: Buffer, profile: Profile, line: Line)
    requires Attributed(b)
    ensures Attributed(RecordForProfile(b, profile, line))
  {
    if OwnerCount(b.active, profile) == 1 {
      var i := FirstOwner(b.active, profile);
      var a := b.active[i];
      var more := a.(diagnostics := a.diagnostics + [EntryFor(a, line, true)]);
      assert EntriesOwned(b.active[i]);
      assert forall e :: e in more.diagnostics ==> e in a.diagnostics || e == EntryFor(a, line, true);
      SameFinished(a, more);
      UpdateAttributes(b, i, more);
    }
  }

  lemma {:induction false} RecordAllAttributes(b: Buffer, profiles: seq<Profile>, line: Line)
    requires Attributed(b)
    ensures Attributed(RecordFor(b, profiles, line))
  {
    if profiles != [] {
      RecordAllAttributes(b, profiles[..|profiles| - 1], line);
      RecordAttributes(RecordFor(b, profiles[..|profiles| - 1], line), profiles[|profiles| - 1], line);
    }
  }

  lemma FinishedStepAttributes(a: Active, index: int)
    requires EntriesOwned(a)
    ensures EntriesOwned(FinishedStep(a, index))
  {
    var t, entries := FinishedStep(a, index), OfStep(a.diagnostics, index);
    forall e | e in t.diagnostics ensures Owned(e, t) {
      InOfStep(a.diagnostics, index, e);
    }
    if entries == [] {
      SameFinished(a, t);
    } else {
      hide OfStep, NotOfStep, PutStep;
      forall e | e in entries ensures Owned(e, t) && InStep(e, index) {
        InOfStep(a.diagnostics, index, e);
      }
      forall step | step in t.finished ensures StepOwned(step, t) {
        var k: nat :| k < |t.finished| && t.finished[k] == step;
        InPutStep(a.finished, index, entries, k);
        assert step in a.finished ==> StepOwned(step, a);
      }
    }
  }

  lemma EventAttributes(b: Buffer, event: Event)
    requires Attributed(b)
    ensures Attributed(Project(b, event).buffer)
  {
    var found := if event.OtherEvent? then None else Find(b.active, event.scope);
    if event.ScenarioStarted? {
      var a := Active(event.scope, event.name, None, [], []);
      assert EntriesOwned(a);
    } else if found.Some? && event.StepStarted? {
      var a := b.active[found.value];
      assert EntriesOwned(b.active[found.value]);
      SameFinished(a, a.(step := Some(event.step)));
      UpdateAttributes(b, found.value, a.(step := Some(event.step)));
    } else if found.Some? && event.StepFinished? {
      assert EntriesOwned(b.active[found.value]);
      FinishedStepAttributes(b.active[found.value], event.result.index);
      UpdateAttributes(b, found.value, FinishedStep(b.active[found.value], event.result.index));
    }
    hide EntriesOwned, FinishedStep, OwnsSharedOutput, Unscoped, WithStepEntries;
  }

  /** Over any stream, active scenarios hold entries of their own only, and finished steps those of the step. */
  lemma {:induction false} RunAttributes(options: Options, inputs: seq<Input>)
    ensures Attributed(Run(options, inputs))
  {
    if inputs != [] {
      RunAttributes(options, inputs[..|inputs| - 1]);
      var b := Run(options, inputs[..|inputs| - 1]);
      hide Attributed, Project, RecordFor;
      match inputs[|inputs| - 1]
      case Recorded(line) => RecordAllAttributes(b, options.For(line.stream), line);
      case Emitted(event) => EventAttributes(b, event);
    }
  }

  /** The scenario that is active on the scope. */
  predicate NamesScenario(b: Buffer, scope: Scope, e: Entry) {
    Find(b.active, scope).Some? && e.scenario == Some(b.active[Find(b.active, scope).value].name)
  }

  /**
   What a finished step receives on top of its own diagnostics was recorded in that step, for its
   profile and scenario.
   */
  lemma StepReceivesItsOwn(options: Options, inputs: seq<Input>, event: Event, e: Entry)
    requires event.StepFinished? && e in Project(Run(options, inputs), event).event.result.diagnostics
    ensures e in event.result.diagnostics
         || (&& InStep(e, event.result.index) && e.profile == event.scope.profile
             && NamesScenario(Run(options, inputs), event.scope, e))
  {
    var b := Run(options, inputs);
    RunAttributes(options, inputs);
    hide Run;
    var found := Find(b.active, event.scope);
    if found.Some? {
      InOfStep(b.active[found.value].diagnostics, event.result.index, e);
      assert EntriesOwned(b.active[found.value]);
    }
  }

  /** And so it is for the steps of a finished attempt. */
  lemma AttemptStepReceivesItsOwn(options: Options, inputs: seq<Input>, event: Event, j: nat, e: Entry)
    requires event.ScenarioFinished? && j < |event.attempt.steps|
    ensures
      var steps := Project(Run(options, inputs), event).event.attempt.steps;
      && |steps| == |event.attempt.steps| && steps[j].index == event.attempt.steps[j].index
      && (e in steps[j].diagnostics ==>
            || e in event.attempt.steps[j].diagnostics
            || (&& InStep(e, steps[j].index) && e.profile == event.scope.profile
                && NamesScenario(Run(options, inputs), event.scope, e)))
  {
    var b := Run(options, inputs);
    RunAttributes(options, inputs);
    hide Run;
    var found := Find(b.active, event.scope);
    if found.Some? {
      var a := b.active[found.value];
      StepWithEntries(event.attempt.steps, a.finished, j);
      assert EntriesOwned(a);
      var index := event.attempt.steps[j].index;
      if e in EntriesOf(a.finished, index) {
        InEntriesOf(a.finished, index, e);
        var k: nat :| k < |a.finished| && a.finished[k].index == index && e in a.finished[k].entries;
        assert StepOwned(a.finished[k], a);
      }
      assert Project(b, event) == FinishScenario(b, found.value, event);
      hide WithStepEntries, OwnsSharedOutput, Unscoped, EntriesOf;
    }
  }

  lemma {:induction false} InUnscoped(a: Active, lines: seq<Line>, e: Entry)
    requires e in Unscoped(a, lines)
    ensures e.line in lines && e == Entry(e.line, a.scope.profile, None, None)
  {
    if lines != [] && e != EntryFor(a, lines[|lines| - 1], false) {
      InUnscoped(a, lines[..|lines| - 1], e);
    }
  }

  /** The entry is a line that was waiting, for a scenario that may claim it. */
  predicate Claimable(b: Buffer, scope: Scope, state: AttemptState, e: Entry) {
    && OwnsSharedOutput(b, scope, state)
    && e.line in PendingOf(b, scope.profile) && e == Entry(e.line, scope.profile, None, None)
  }

  /**
   What the attempt itself receives was recorded for its profile and scenario, or is a line that was
   waiting for the profile and that the attempt may claim.
   */
  lemma AttemptReceivesItsOwn(options: Options, inputs: seq<Input>, event: Event, e: Entry)
    requires event.ScenarioFinished? && e in Project(Run(options, inputs), event).event.attempt.diagnostics
    ensures
      var b := Run(options, inputs);
      || e in event.attempt.diagnostics
      || (e.profile == event.scope.profile && NamesScenario(b, event.scope, e))
      || Claimable(b, event.scope, event.attempt.state, e)
  {
    var b := Run(options, inputs);
    RunAttributes(options, inputs);
    hide Run;
    var found := Find(b.active, event.scope);
    if found.Some? {
      var a, lines := b.active[found.value], PendingOf(b, event.scope.profile);
      assert EntriesOwned(a);
      if e in Unscoped(a, lines) {
        InUnscoped(a, lines, e);
      }
      hide WithStepEntries, OwnsSharedOutput, Unscoped;
    }
  }
}
