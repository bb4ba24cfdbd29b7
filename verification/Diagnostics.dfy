/**
 The application diagnostics buffer of packages/cli/src/run/application-diagnostics.ts: output
 lines are attached to the one scenario that can have caused them, or kept until a scenario of
 the profile claims them.

 JavaScript Maps are lists of entries in insertion order.
 */
module Diagnostics {
  import opened Wrappers

  type Profile = string

  datatype Stream = Stdout | Stderr

  datatype Line = Line(stream: Stream, text: string, occurredAt: nat)

  // `row` is empty when the scenario has no examples row.
  datatype Scope = Scope(scenarioId: string, row: string, profile: Profile, attempt: nat)

  datatype StepInfo = StepInfo(index: int, text: string)

  // A diagnostic entry; one that is scoped names its scenario and, within a step, the step.
  datatype Entry = Entry(line: Line, profile: Profile, scenario: Option<string>, step: Option<StepInfo>)

  datatype StepEntries = StepEntries(index: int, entries: seq<Entry>)

  datatype Active = Active(scope: Scope, name: string, step: Option<StepInfo>, diagnostics: seq<Entry>,
      finished: seq<StepEntries>)

  datatype AttemptState = AttemptPassed | AttemptFailed | InfrastructureError | AttemptCancelled

  datatype StepResult = StepResult(index: int, diagnostics: seq<Entry>)

  datatype Attempt = Attempt(state: AttemptState, steps: seq<StepResult>, diagnostics: seq<Entry>)

  datatype Event =
    | ScenarioStarted(scope: Scope, name: string)
    | StepStarted(scope: Scope, step: StepInfo)
    | StepFinished(scope: Scope, result: StepResult)
    | ScenarioFinished(scope: Scope, attempt: Attempt)
    | OtherEvent

  datatype Buffer = Buffer(active: seq<Active>, pending: map<Profile, seq<Line>>)

  // ---------------------------------------------------------------- maps as lists

  function Find(active: seq<Active>, scope: Scope): (r: Option<nat>)
    ensures r.Some? ==> r.value < |active| && active[r.value].scope == scope
    ensures r.None? ==> forall i :: 0 <= i < |active| ==> active[i].scope != scope
  {
    if active == [] then None
    else if active[0].scope == scope then Some(0)
    else
      match Find(active[1..], scope)
      case None => None
      case Some(i) => Some(i + 1)
  }

  /** How many active scenarios run on a profile. */
  function OwnerCount(active: seq<Active>, profile: Profile): nat {
    if active == [] then 0
    else (if active[0].scope.profile == profile then 1 else 0) + OwnerCount(active[1..], profile)
  }

  function FirstOwner(active: seq<Active>, profile: Profile): (i: nat)
    requires OwnerCount(active, profile) > 0
    ensures i < |active| && active[i].scope.profile == profile
  {
    if active[0].scope.profile == profile then 0 else FirstOwner(active[1..], profile) + 1
  }

  function PendingOf(b: Buffer, profile: Profile): seq<Line> {
    if profile in b.pending then b.pending[profile] else []
  }

  function EntriesOf(finished: seq<StepEntries>, index: int): seq<Entry> {
    if finished == [] then []
    else if finished[0].index == index then finished[0].entries
    else EntriesOf(finished[1..], index)
  }

  predicate HasStep(finished: seq<StepEntries>, index: int) {
    exists i :: 0 <= i < |finished| && finished[i].index == index
  }

  /** Map.set: an entry with the same index is replaced. */
  function PutStep(finished: seq<StepEntries>, index: int, entries: seq<Entry>): seq<StepEntries> {
    if finished == [] then [StepEntries(index, entries)]
    else if finished[0].index == index then [StepEntries(index, entries)] + finished[1..]
    else [finished[0]] + PutStep(finished[1..], index, entries)
  }

  // ---------------------------------------------------------------- recording

  function EntryFor(a: Active, line: Line, scoped: bool): Entry {
    if scoped then Entry(line, a.scope.profile, Some(a.name), a.step) else Entry(line, a.scope.profile, None, None)
  }

  function RecordForProfile(b: Buffer, profile: Profile, line: Line): Buffer {
    if OwnerCount(b.active, profile) == 1 then
      var i := FirstOwner(b.active, profile);
      var a := b.active[i];
      b.(active := b.active[i := a.(diagnostics := a.diagnostics + [EntryFor(a, line, true)])])
    else b.(pending := b.pending[profile := PendingOf(b, profile) + [line]])
  }

  function RecordFor(b: Buffer, profiles: seq<Profile>, line: Line): Buffer {
    if profiles == [] then b
    else RecordForProfile(RecordFor(b, profiles[..|profiles| - 1], line), profiles[|profiles| - 1], line)
  }

  // ---------------------------------------------------------------- projecting events

  // The event that is passed on, and the buffer after it.
  datatype Projection = Projection(event: Event, buffer: Buffer)

  predicate InStep(e: Entry, index: int) {
    e.step.Some? && e.step.value.index == index
  }

  function OfStep(entries: seq<Entry>, index: int): seq<Entry> {
    if entries == [] then []
    else (if InStep(entries[0], index) then [entries[0]] else []) + OfStep(entries[1..], index)
  }

  function NotOfStep(entries: seq<Entry>, index: int): seq<Entry> {
    if entries == [] then []
    else (if InStep(entries[0], index) then [] else [entries[0]]) + NotOfStep(entries[1..], index)
  }

  function StartScenario(b: Buffer, scope: Scope, name: string): Buffer {
    var a := Active(scope, name, None, [], []);
    match Find(b.active, scope)
    case Some(i) => b.(active := b.active[i := a])
    case None => b.(active := b.active + [a])
  }

  /** What finishing a step does to its scenario. */
  function FinishedStep(a: Active, index: int): Active {
    var entries := OfStep(a.diagnostics, index);
    a.(diagnostics := NotOfStep(a.diagnostics, index),
       finished := if entries == [] then a.finished else PutStep(a.finished, index, entries),
       step := None)
  }

  function FinishStep(b: Buffer, i: nat, event: Event): Projection
    requires event.StepFinished? && i < |b.active|
  {
    var entries := OfStep(b.active[i].diagnostics, event.result.index);
    Projection(
      event.(result := event.result.(diagnostics := event.result.diagnostics + entries)),
      b.(active := b.active[i := FinishedStep(b.active[i], event.result.index)]))
  }

  /** A finished scenario takes the lines that were waiting, when it is the likely or only cause. */
  predicate OwnsSharedOutput(b: Buffer, scope: Scope, state: AttemptState) {
    state.AttemptFailed? || state.InfrastructureError? || OwnerCount(b.active, scope.profile) == 1
  }

  function Unscoped(a: Active, lines: seq<Line>): seq<Entry> {
    if lines == [] then [] else Unscoped(a, lines[..|lines| - 1]) + [EntryFor(a, lines[|lines| - 1], false)]
  }

  function WithStepEntries(steps: seq<StepResult>, finished: seq<StepEntries>): seq<StepResult> {
    if steps == [] then []
    else
      [StepResult(steps[0].index, steps[0].diagnostics + EntriesOf(finished, steps[0].index))]
      + WithStepEntries(steps[1..], finished)
  }

  function FinishScenario(b: Buffer, i: nat, event: Event): Projection
    requires event.ScenarioFinished? && i < |b.active|
  {
    var a, profile := b.active[i], event.scope.profile;
    var owns := OwnsSharedOutput(b, event.scope, event.attempt.state);
    var claimed := if owns then Unscoped(a, PendingOf(b, profile)) else [];
    Projection(
      event.(attempt := Attempt(
        event.attempt.state,
        WithStepEntries(event.attempt.steps, a.finished),
        event.attempt.diagnostics + (a.diagnostics + claimed))),
      Buffer(b.active[..i] + b.active[i + 1..], if owns then b.pending - {profile} else b.pending))
  }

  function Project(b: Buffer, event: Event): Projection {
    match event
    case ScenarioStarted(scope, name) => Projection(event, StartScenario(b, scope, name))
    case StepStarted(scope, step) =>
      (match Find(b.active, scope)
       case None => Projection(event, b)
       case Some(i) => Projection(event, b.(active := b.active[i := b.active[i].(step := Some(step))])))
    case StepFinished(scope, _) =>
      (match Find(b.active, scope)
       case None => Projection(event, b)
       case Some(i) => FinishStep(b, i, event))
    case ScenarioFinished(scope, _) =>
      (match Find(b.active, scope)
       case None => Projection(event, b)
       case Some(i) => FinishScenario(b, i, event))
    case OtherEvent => Projection(event, b)
  }

  // ---------------------------------------------------------------- the buffer object

  function Unique(profiles: seq<Profile>): seq<Profile> {
    if profiles == [] then []
    else
      var before := Unique(profiles[..|profiles| - 1]);
      if profiles[|profiles| - 1] in before then before else before + [profiles[|profiles| - 1]]
  }

  // The profiles whose streams are requested.
  datatype Options = Options(stdout: seq<Profile>, stderr: seq<Profile>) {
    function For(stream: Stream): seq<Profile> {
      Unique(if stream.Stdout? then stdout else stderr)
    }
  }

  class ApplicationDiagnosticBuffer {
    const options: Options
    var active: seq<Active>
    var pending: map<Profile, seq<Line>>

    constructor (options: Options)
      ensures this.options == options && Contents() == Buffer([], map[])
    {
      this.options := options;
      active := [];
      pending := map[];
    }

    function Contents(): Buffer
      reads this
    {
      Buffer(active, pending)
    }

    method Record(line: Line)
      modifies this
      ensures Contents() == RecordFor(old(Contents()), options.For(line.stream), line)
    {
      var profiles := options.For(line.stream);
      assert profiles[..0] == [];
      for i := 0 to |profiles|
        invariant Contents() == RecordFor(old(Contents()), profiles[..i], line)
      {
        assert profiles[..i + 1][..i] == profiles[..i];
        RecordLine(profiles[i], line);
      }
      assert profiles[..|profiles|] == profiles;
    }

    method RecordLine(profile: Profile, line: Line)
      modifies this
      ensures Contents() == RecordForProfile(old(Contents()), profile, line)
    {
      if OwnerCount(active, profile) == 1 {
        var i := FirstOwner(active, profile);
        active := active[i := active[i].(diagnostics := active[i].diagnostics + [EntryFor(active[i], line, true)])];
      } else {
        pending := pending[profile := PendingOf(Contents(), profile) + [line]];
      }
    }

    method ProjectEvent(event: Event) returns (projected: Event)
      modifies this
      ensures projected == Project(old(Contents()), event).event
      ensures Contents() == Project(old(Contents()), event).buffer
    {
      match event
      case ScenarioStarted(scope, name) =>
        var a := Active(scope, name, None, [], []);
        var found := Find(active, scope);
        active := if found.Some? then active[found.value := a] else active + [a];
        return event;
      case StepStarted(scope, step) =>
        var found := Find(active, scope);
        if found.Some? {
          active := active[found.value := active[found.value].(step := Some(step))];
        }
        return event;
      case StepFinished(scope, result) =>
        var found := Find(active, scope);
        if found.None? {
          return event;
        }
        var a := active[found.value];
        var entries := OfStep(a.diagnostics, result.index);
        var finished := if entries == [] then a.finished else PutStep(a.finished, result.index, entries);
        active := active[found.value := Active(a.scope, a.name, None, NotOfStep(a.diagnostics, result.index),
            finished)];
        return StepFinished(scope, StepResult(result.index, result.diagnostics + entries));
      case ScenarioFinished(scope, attempt) =>
        var found := Find(active, scope);
        if found.None? {
          return event;
        }
        var i := found.value;
        var claimed := ClaimPendingOutput(i, scope, attempt.state);
        var a := active[i];
        active := active[..i] + active[i + 1..];
        return ScenarioFinished(scope, Attempt(attempt.state, WithStepEntries(attempt.steps, a.finished),
                                               attempt.diagnostics + (a.diagnostics + claimed)));
      case OtherEvent =>
        return event;
    }

    method ClaimPendingOutput(i: nat, scope: Scope, state: AttemptState) returns (claimed: seq<Entry>)
      requires i < |active|
      modifies this`pending
      ensures
        var b, owns := old(Contents()), OwnsSharedOutput(old(Contents()), scope, state);
        && claimed == (if owns then Unscoped(active[i], PendingOf(b, scope.profile)) else [])
        && pending == (if owns then b.pending - {scope.profile} else b.pending)
    {
      claimed := [];
      if !OwnsSharedOutput(Contents(), scope, state) {
        return;
      }
      var lines := PendingOf(Contents(), scope.profile);
      for k := 0 to |lines|
        invariant claimed == Unscoped(active[i], lines[..k])
      {
        assert lines[..k + 1][..k] == lines[..k];
        claimed := claimed + [EntryFor(active[i], lines[k], false)];
      }
      assert lines[..|lines|] == lines;
      pending := pending - {scope.profile};
    }
  }
}
