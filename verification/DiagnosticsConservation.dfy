/**
 No output line is lost or doubled by the diagnostics buffer
 (packages/cli/src/run/application-diagnostics.ts): over a well-formed stream of events, what was
 recorded for a profile is what finished attempts received, what active scenarios hold and what
 is pending.

 Multisets of lines are compared by how often each line `x` occurs.
 */
module DiagnosticsConservation {
  import opened Wrappers
  import opened Diagnostics

  // ---------------------------------------------------------------- counting lines

  function Is(line: Line, x: Line): nat {
    if line == x then 1 else 0
  }

  function Count(entries: seq<Entry>, x: Line): nat {
    if entries == [] then 0 else Is(entries[0].line, x) + Count(entries[1..], x)
  }

  function CountLines(lines: seq<Line>, x: Line): nat {
    if lines == [] then 0 else CountLines(lines[..|lines| - 1], x) + Is(lines[|lines| - 1], x)
  }

  function CountFinished(finished: seq<StepEntries>, x: Line): nat {
    if finished == [] then 0 else Count(finished[0].entries, x) + CountFinished(finished[1..], x)
  }

  function CountActive(a: Active, x: Line): nat {
    Count(a.diagnostics, x) + CountFinished(a.finished, x)
  }

  function Share(a: Active, profile: Profile, x: Line): nat {
    if a.scope.profile == profile then CountActive(a, x) else 0
  }

  /** How often the active scenarios of a profile hold the line. */
  function Held(active: seq<Active>, profile: Profile, x: Line): nat {
    if active == [] then 0 else Share(active[0], profile, x) + Held(active[1..], profile, x)
  }

  function CountSteps(steps: seq<StepResult>, x: Line): nat {
    if steps == [] then 0 else Count(steps[0].diagnostics, x) + CountSteps(steps[1..], x)
  }

  function CountAttempt(attempt: Attempt, x: Line): nat {
    Count(attempt.diagnostics, x) + CountSteps(attempt.steps, x)
  }

  function Pending(b: Buffer, profile: Profile, x: Line): nat {
    CountLines(PendingOf(b, profile), x)
  }

  // ---------------------------------------------------------------- streams

  datatype Input = Recorded(line: Line) | Emitted(event: Event)

  function Next(options: Options, b: Buffer, input: Input): Buffer {
    match input
    case Recorded(line) => RecordFor(b, options.For(line.stream), line)
    case Emitted(event) => Project(b, event).buffer
  }

  function Run(options: Options, inputs: seq<Input>): Buffer {
    if inputs == [] then Buffer([], map[])
    else Next(options, Run(options, inputs[..|inputs| - 1]), inputs[|inputs| - 1])
  }

  /** How often an input brings in the line for a profile. */
  function In(options: Options, input: Input, profile: Profile, x: Line): nat {
    match input
    case Recorded(line) => if profile in options.For(line.stream) then Is(line, x) else 0
    case Emitted(_) => 0
  }

  /** How often a finished attempt of the profile receives the line from the buffer. */
  function Out(b: Buffer, input: Input, profile: Profile, x: Line): int {
    match input
    case Recorded(_) => 0
    case Emitted(event) =>
      var projected := Project(b, event).event;
      if event.ScenarioFinished? && event.scope.profile == profile && projected.ScenarioFinished?
      then CountAttempt(projected.attempt, x) - CountAttempt(event.attempt, x)
      else 0
  }

  function TotalIn(options: Options, inputs: seq<Input>, profile: Profile, x: Line): nat {
    if inputs == [] then 0
    else TotalIn(options, inputs[..|inputs| - 1], profile, x) + In(options, inputs[|inputs| - 1], profile, x)
  }

  function TotalOut(options: Options, inputs: seq<Input>, profile: Profile, x: Line): int {
    if inputs == [] then 0
    else
      TotalOut(options, inputs[..|inputs| - 1], profile, x)
      + Out(Run(options, inputs[..|inputs| - 1]), inputs[|inputs| - 1], profile, x)
  }

  predicate DistinctSteps(steps: seq<StepResult>) {
    forall i, j :: 0 <= i < j < |steps| ==> steps[i].index != steps[j].index
  }

  predicate ListsStep(steps: seq<StepResult>, index: int) {
    exists j :: 0 <= j < |steps| && steps[j].index == index
  }

  predicate Covers(steps: seq<StepResult>, finished: seq<StepEntries>) {
    forall i :: 0 <= i < |finished| ==> ListsStep(steps, finished[i].index)
  }

  /**
   An event the runner may send: no scope starts again while it is active, no step finishes twice
   with output, and a finished attempt lists each step once and every step that finished.
   */
  predicate WellFormedEvent(b: Buffer, event: Event) {
    match event
    case ScenarioStarted(scope, _) => Find(b.active, scope).None?
    case StepFinished(scope, result) =>
      Find(b.active, scope).Some? ==> !HasStep(b.active[Find(b.active, scope).value].finished, result.index)
    case ScenarioFinished(scope, attempt) =>
      Find(b.active, scope).Some? ==>
        DistinctSteps(attempt.steps) && Covers(attempt.steps, b.active[Find(b.active, scope).value].finished)
    case _ => true
  }

  predicate WellFormedStream(options: Options, inputs: seq<Input>) {
    inputs == []
    || (&& WellFormedStream(options, inputs[..|inputs| - 1])
        && (inputs[|inputs| - 1].Emitted? ==>
              WellFormedEvent(Run(options, inputs[..|inputs| - 1]), inputs[|inputs| - 1].event)))
  }

  // ---------------------------------------------------------------- sums

  lemma {:induction false} CountSum(xs: seq<Entry>, ys: seq<Entry>, x: Line)
    ensures Count(xs + ys, x) == Count(xs, x) + Count(ys, x)
  {
    if xs == [] {
      assert xs + ys == ys;
    } else {
      CountSum(xs[1..], ys, x);
      assert (xs + ys)[1..] == xs[1..] + ys;
    }
  }

  lemma CountOne(entry: Entry, x: Line)
    ensures Count([entry], x) == Is(entry.line, x)
  {
  }

  lemma {:induction false} StepsSplit(entries: seq<Entry>, index: int, x: Line)
    ensures Count(OfStep(entries, index), x) + Count(NotOfStep(entries, index), x) == Count(entries, x)
  {
    if entries != [] {
      StepsSplit(entries[1..], index, x);
      var first, ofStep, others := [entries[0]], OfStep(entries[1..], index), NotOfStep(entries[1..], index);
      CountSum(first, ofStep, x);
      CountSum(first, others, x);
      CountOne(entries[0], x);
      assert [] + ofStep == ofStep && [] + others == others;
    }
  }

  lemma {:induction false} HeldUpdate(active: seq<Active>, i: nat, a: Active, profile: Profile, x: Line)
    requires i < |active|
    ensures Held(active[i := a], profile, x) + Share(active[i], profile, x)
         == Held(active, profile, x) + Share(a, profile, x)
    decreases i
  {
    if i == 0 {
      assert active[0 := a][1..] == active[1..];
    } else {
      HeldUpdate(active[1..], i - 1, a, profile, x);
      assert active[i := a][1..] == active[1..][i - 1 := a];
    }
  }

  lemma {:induction false} HeldRemove(active: seq<Active>, i: nat, profile: Profile, x: Line)
    requires i < |active|
    ensures Held(active, profile, x) == Held(active[..i] + active[i + 1..], profile, x) + Share(active[i], profile, x)
    decreases i
  {
    if i == 0 {
      assert active[..0] + active[1..] == active[1..];
    } else {
      HeldRemove(active[1..], i - 1, profile, x);
      var less := active[..i] + active[i + 1..];
      assert less[0] == active[0] && less[1..] == active[1..][..i - 1] + active[1..][i..];
    }
  }

  lemma {:induction false} HeldAppend(active: seq<Active>, a: Active, profile: Profile, x: Line)
    ensures Held(active + [a], profile, x) == Held(active, profile, x) + Share(a, profile, x)
  {
    if active == [] {
      assert (active + [a])[1..] == [];
    } else {
      HeldAppend(active[1..], a, profile, x);
      assert (active + [a])[1..] == active[1..] + [a];
    }
  }

  // ---------------------------------------------------------------- finished steps

  ghost predicate DistinctFinished(finished: seq<StepEntries>) {
    forall i, j :: 0 <= i < j < |finished| ==> finished[i].index != finished[j].index
  }

  lemma NotInRest(finished: seq<StepEntries>, index: int)
    requires finished != [] && !HasStep(finished, index)
    ensures finished[0].index != index && !HasStep(finished[1..], index)
  {
    assert forall i :: 0 <= i < |finished[1..]| ==> finished[1..][i] == finished[i + 1];
  }

  lemma {:induction false} PutNewStep(finished: seq<StepEntries>, index: int, entries: seq<Entry>, x: Line)
    requires !HasStep(finished, index)
    ensures PutStep(finished, index, entries) == finished + [StepEntries(index, entries)]
    ensures CountFinished(PutStep(finished, index, entries), x) == CountFinished(finished, x) + Count(entries, x)
  {
    if finished == [] {
      assert [StepEntries(index, entries)][1..] == [];
    } else {
      NotInRest(finished, index);
      PutNewStep(finished[1..], index, entries, x);
      var put := PutStep(finished, index, entries);
      assert put[1..] == PutStep(finished[1..], index, entries);
      assert finished == [finished[0]] + finished[1..];
    }
  }

  /** How often the attempt's steps pick the line up from the finished steps. */
  function Picked(steps: seq<StepResult>, finished: seq<StepEntries>, x: Line): nat {
    if steps == [] then 0 else Count(EntriesOf(finished, steps[0].index), x) + Picked(steps[1..], finished, x)
  }

  lemma {:induction false} StepsPickUp(steps: seq<StepResult>, finished: seq<StepEntries>, x: Line)
    ensures CountSteps(WithStepEntries(steps, finished), x) == CountSteps(steps, x) + Picked(steps, finished, x)
  {
    if steps != [] {
      StepsPickUp(steps[1..], finished, x);
      CountSum(steps[0].diagnostics, EntriesOf(finished, steps[0].index), x);
      assert WithStepEntries(steps, finished)[1..] == WithStepEntries(steps[1..], finished);
    }
  }

  lemma {:induction false} NoEntries(finished: seq<StepEntries>, index: int)
    requires !HasStep(finished, index)
    ensures EntriesOf(finished, index) == []
  {
    if finished != [] {
      NotInRest(finished, index);
      NoEntries(finished[1..], index);
    }
  }

  lemma ListsInRest(steps: seq<StepResult>, index: int)
    requires steps != [] && DistinctSteps(steps)
    ensures ListsStep(steps, index) <==> steps[0].index == index || ListsStep(steps[1..], index)
    ensures steps[0].index == index ==> !ListsStep(steps[1..], index)
  {
    assert forall j :: 0 <= j < |steps[1..]| ==> steps[1..][j] == steps[j + 1];
    if j :| 0 <= j < |steps| && steps[j].index == index && j > 0 {
      assert steps[1..][j - 1].index == index;
    }
  }

  /** One finished step more is picked up once, by the one step of its index. */
  lemma {:induction false} PickedOneMore(steps: seq<StepResult>, first: StepEntries, rest: seq<StepEntries>, x: Line)
    requires DistinctSteps(steps) && !HasStep(rest, first.index)
    ensures Picked(steps, [first] + rest, x)
         == Picked(steps, rest, x) + (if ListsStep(steps, first.index) then Count(first.entries, x) else 0)
  {
    if steps != [] {
      PickedOneMore(steps[1..], first, rest, x);
      ListsInRest(steps, first.index);
      hide HasStep, ListsStep;
      assert ([first] + rest)[1..] == rest;
      if steps[0].index == first.index {
        NoEntries(rest, first.index);
      }
    }
  }

  lemma {:induction false} NothingPicked(steps: seq<StepResult>, x: Line)
    ensures Picked(steps, [], x) == 0
  {
    if steps != [] {
      NothingPicked(steps[1..], x);
    }
  }

  /** An attempt that lists every finished step once picks up all their lines. */
  lemma {:induction false} AllPicked(steps: seq<StepResult>, finished: seq<StepEntries>, x: Line)
    requires DistinctSteps(steps) && DistinctFinished(finished) && Covers(steps, finished)
    ensures Picked(steps, finished, x) == CountFinished(finished, x)
  {
    if finished == [] {
      NothingPicked(steps, x);
    } else {
      var first, rest := finished[0], finished[1..];
      assert finished == [first] + rest;
      assert forall i :: 0 <= i < |rest| ==> rest[i] == finished[i + 1];
      assert !HasStep(rest, first.index) && Covers(steps, rest);
      AllPicked(steps, rest, x);
      PickedOneMore(steps, first, rest, x);
    }
  }

  // ---------------------------------------------------------------- every input conserves

  ghost predicate Tidy(b: Buffer) {
    forall i :: 0 <= i < |b.active| ==> DistinctFinished(b.active[i].finished)
  }

  /** What the buffer has of a profile: held by its active scenarios, or pending. */
  function Kept(b: Buffer, profile: Profile, x: Line): nat {
    Held(b.active, profile, x) + Pending(b, profile, x)
  }

  lemma RecordOneProfile(b: Buffer, recorded: Profile, line: Line, profile: Profile, x: Line)
    requires Tidy(b)
    ensures Tidy(RecordForProfile(b, recorded, line))
    ensures Kept(RecordForProfile(b, recorded, line), profile, x)
         == Kept(b, profile, x) + (if recorded == profile then Is(line, x) else 0)
  {
    var t := RecordForProfile(b, recorded, line);
    if OwnerCount(b.active, recorded) == 1 {
      var i := FirstOwner(b.active, recorded);
      var entry := EntryFor(b.active[i], line, true);
      HeldUpdate(b.active, i, t.active[i], profile, x);
      CountSum(b.active[i].diagnostics, [entry], x);
      CountOne(entry, x);
      hide Held, Count, CountFinished;
    } else {
      assert (PendingOf(b, recorded) + [line])[..|PendingOf(b, recorded)|] == PendingOf(b, recorded);
    }
  }

  lemma {:induction false} RecordProfiles(b: Buffer, profiles: seq<Profile>, line: Line, profile: Profile, x: Line)
    requires Tidy(b) && forall i, j :: 0 <= i < j < |profiles| ==> profiles[i] != profiles[j]
    ensures Tidy(RecordFor(b, profiles, line))
    ensures Kept(RecordFor(b, profiles, line), profile, x)
         == Kept(b, profile, x) + (if profile in profiles then Is(line, x) else 0)
  {
    if profiles != [] {
      hide RecordForProfile, Kept, Tidy;
      var before, last := profiles[..|profiles| - 1], profiles[|profiles| - 1];
      assert profiles == before + [last];
      RecordProfiles(b, before, line, profile, x);
      RecordOneProfile(RecordFor(b, before, line), last, line, profile, x);
    }
  }

  lemma {:induction false} UniqueIsDistinct(profiles: seq<Profile>)
    ensures forall i, j :: 0 <= i < j < |Unique(profiles)| ==> Unique(profiles)[i] != Unique(profiles)[j]
  {
    if profiles != [] {
      UniqueIsDistinct(profiles[..|profiles| - 1]);
    }
  }

  lemma FinishedStepKeepsLines(a: Active, index: int, x: Line)
    requires DistinctFinished(a.finished) && !HasStep(a.finished, index)
    ensures CountActive(FinishedStep(a, index), x) == CountActive(a, x)
    ensures DistinctFinished(FinishedStep(a, index).finished)
  {
    StepsSplit(a.diagnostics, index, x);
    PutNewStep(a.finished, index, OfStep(a.diagnostics, index), x);
    assert Count([], x) == 0;
  }

  lemma {:induction false} CountUnscoped(a: Active, lines: seq<Line>, x: Line)
    ensures Count(Unscoped(a, lines), x) == CountLines(lines, x)
  {
    if lines != [] {
      var n := |lines| - 1;
      var entry := EntryFor(a, lines[n], false);
      CountUnscoped(a, lines[..n], x);
      CountSum(Unscoped(a, lines[..n]), [entry], x);
      CountOne(entry, x);
    }
  }

  /** What a finished scenario claims of the pending lines. */
  function Claimed(b: Buffer, event: Event, x: Line): nat
    requires event.ScenarioFinished?
  {
    if OwnsSharedOutput(b, event.scope, event.attempt.state) then Pending(b, event.scope.profile, x) else 0
  }

  /** A finished attempt receives exactly what its scenario held and claimed. */
  lemma FinishedAttemptLines(b: Buffer, i: nat, event: Event, x: Line)
    requires event.ScenarioFinished? && i < |b.active| && Tidy(b)
    requires DistinctSteps(event.attempt.steps) && Covers(event.attempt.steps, b.active[i].finished)
    ensures CountAttempt(FinishScenario(b, i, event).event.attempt, x)
         == CountAttempt(event.attempt, x) + CountActive(b.active[i], x) + Claimed(b, event, x)
  {
    hide OwnsSharedOutput;
    var a, lines := b.active[i], PendingOf(b, event.scope.profile);
    var owns := OwnsSharedOutput(b, event.scope, event.attempt.state);
    var claimed := if owns then Unscoped(a, lines) else [];
    StepsPickUp(event.attempt.steps, a.finished, x);
    AllPicked(event.attempt.steps, a.finished, x);
    CountSum(event.attempt.diagnostics, a.diagnostics + claimed, x);
    CountSum(a.diagnostics, claimed, x);
    CountUnscoped(a, lines, x);
    assert Count([], x) == 0;
    hide DistinctSteps, Covers, Count, WithStepEntries, Picked, CountSteps, CountFinished, Unscoped, PendingOf;
  }

  lemma PendingAfterFinish(b: Buffer, i: nat, event: Event, profile: Profile, x: Line)
    requires event.ScenarioFinished? && i < |b.active|
    ensures Pending(b, profile, x)
         == Pending(FinishScenario(b, i, event).buffer, profile, x)
            + (if event.scope.profile == profile then Claimed(b, event, x) else 0)
  {
    hide OwnsSharedOutput;
  }

  lemma FinishedOut(b: Buffer, i: nat, event: Event, profile: Profile, x: Line)
    requires event.ScenarioFinished? && Find(b.active, event.scope) == Some(i) && Tidy(b) && WellFormedEvent(b, event)
    ensures Out(b, Emitted(event), profile, x)
         == Share(b.active[i], profile, x) + (if event.scope.profile == profile then Claimed(b, event, x) else 0)
  {
    FinishedAttemptLines(b, i, event, x);
    assert FinishScenario(b, i, event).event.ScenarioFinished?;
    hide CountAttempt, CountActive, Claimed, FinishScenario, Covers, DistinctSteps, Tidy;
  }

  lemma FinishedHeld(b: Buffer, i: nat, event: Event, profile: Profile, x: Line)
    requires event.ScenarioFinished? && i < |b.active| && Tidy(b)
    ensures Held(b.active, profile, x)
         == Held(FinishScenario(b, i, event).buffer.active, profile, x) + Share(b.active[i], profile, x)
    ensures Tidy(FinishScenario(b, i, event).buffer)
  {
    HeldRemove(b.active, i, profile, x);
    hide Held, Share, DistinctFinished, OwnsSharedOutput, WithStepEntries, Unscoped;
  }

  lemma FinishedScenarioConserves(b: Buffer, i: nat, event: Event, profile: Profile, x: Line)
    requires event.ScenarioFinished? && Find(b.active, event.scope) == Some(i) && Tidy(b) && WellFormedEvent(b, event)
    ensures Kept(b, profile, x) == Kept(Project(b, event).buffer, profile, x) + Out(b, Emitted(event), profile, x)
    ensures Tidy(Project(b, event).buffer)
  {
    FinishedOut(b, i, event, profile, x);
    PendingAfterFinish(b, i, event, profile, x);
    FinishedHeld(b, i, event, profile, x);
    assert Project(b, event) == FinishScenario(b, i, event);
    hide Out, Share, Held, Pending, Claimed, FinishScenario, Project, Tidy, WellFormedEvent;
  }

  lemma EventConserves(b: Buffer, event: Event, profile: Profile, x: Line)
    requires Tidy(b) && WellFormedEvent(b, event)
    ensures Kept(b, profile, x) == Kept(Project(b, event).buffer, profile, x) + Out(b, Emitted(event), profile, x)
    ensures Tidy(Project(b, event).buffer)
  {
    var found := if event.OtherEvent? then None else Find(b.active, event.scope);
    if event.ScenarioStarted? {
      StartConserves(b, event.scope, event.name, profile, x);
    } else if found.Some? && event.StepStarted? {
      UpdateConserves(b, found.value, b.active[found.value].(step := Some(event.step)), profile, x);
    } else if found.Some? && event.StepFinished? {
      FinishedStepKeepsLines(b.active[found.value], event.result.index, x);
      UpdateConserves(b, found.value, FinishedStep(b.active[found.value], event.result.index), profile, x);
    } else if found.Some? {
      FinishedScenarioConserves(b, found.value, event, profile, x);
    }
  }

  lemma StartConserves(b: Buffer, scope: Scope, name: string, profile: Profile, x: Line)
    requires Tidy(b) && Find(b.active, scope).None?
    ensures Kept(StartScenario(b, scope, name), profile, x)
       == Kept(b, profile, x) && Tidy(StartScenario(b, scope, name))
  {
    HeldAppend(b.active, Active(scope, name, None, [], []), profile, x);
  }

  lemma UpdateConserves(b: Buffer, i: nat, a: Active, profile: Profile, x: Line)
    requires Tidy(b) && i < |b.active| && a.scope == b.active[i].scope
    requires CountActive(a, x) == CountActive(b.active[i], x) && DistinctFinished(a.finished)
    ensures Kept(b.(active := b.active[i := a]), profile, x) == Kept(b, profile, x)
    ensures Tidy(b.(active := b.active[i := a]))
  {
    HeldUpdate(b.active, i, a, profile, x);
    hide Held;
  }

  /**
   Conservation: for each profile and each line, how often it was recorded is how often finished
   attempts received it, plus how often active scenarios hold it, plus how often it is pending.
   */
  lemma {:induction false} LinesAreConserved(options: Options, inputs: seq<Input>, profile: Profile, x: Line)
    requires WellFormedStream(options, inputs)
    ensures
      var b := Run(options, inputs);
      && TotalIn(options, inputs, profile, x)
         == TotalOut(options, inputs, profile, x) + Held(b.active, profile, x) + Pending(b, profile, x)
      && Tidy(b)
  {
    if inputs != [] {
      var before, last := inputs[..|inputs| - 1], inputs[|inputs| - 1];
      LinesAreConserved(options, before, profile, x);
      InputConserves(options, Run(options, before), last, profile, x);
    }
  }

  lemma InputConserves(options: Options, b: Buffer, input: Input, profile: Profile, x: Line)
    requires Tidy(b) && (input.Emitted? ==> WellFormedEvent(b, input.event))
    ensures Kept(b, profile, x) + In(options, input, profile, x)
         == Kept(Next(options, b, input), profile, x) + Out(b, input, profile, x)
    ensures Tidy(Next(options, b, input))
  {
    hide Kept, Project, RecordFor, Tidy, WellFormedEvent, Out;
    match input
    case Recorded(line) =>
      UniqueIsDistinct(if line.stream.Stdout? then options.stdout else options.stderr);
      RecordProfiles(b, options.For(line.stream), line, profile, x);
      NothingOut(b, line, profile, x);
    case Emitted(event) => EventConserves(b, event, profile, x);
  }

  lemma NothingOut(b: Buffer, line: Line, profile: Profile, x: Line)
    ensures Out(b, Recorded(line), profile, x) == 0
  {
  }

  // ---------------------------------------------------------------- what other streams lose or double

  /** A scope that starts again while it is active loses exactly the lines it held. */
  lemma RestartLosesWhatWasHeld(b: Buffer, scope: Scope, name: string, i: nat, profile: Profile, x: Line)
    requires Find(b.active, scope) == Some(i)
    ensures Kept(StartScenario(b, scope, name), profile, x) + Share(b.active[i], profile, x) == Kept(b, profile, x)
  {
    HeldUpdate(b.active, i, Active(scope, name, None, [], []), profile, x);
    hide Held;
  }

  lemma {:induction false} PutStepReplaces(finished: seq<StepEntries>, index: int, entries: seq<Entry>, x: Line)
    ensures CountFinished(PutStep(finished, index, entries), x) + Count(EntriesOf(finished, index), x)
         == CountFinished(finished, x) + Count(entries, x)
  {
    if finished == [] {
      assert [StepEntries(index, entries)][1..] == [];
    } else if finished[0].index != index {
      PutStepReplaces(finished[1..], index, entries, x);
      assert PutStep(finished, index, entries)[1..] == PutStep(finished[1..], index, entries);
    } else {
      assert PutStep(finished, index, entries)[1..] == finished[1..];
    }
  }

  /** A step that finishes again with output loses exactly what it had when it finished before. */
  lemma FinishingAgainLosesTheFirst(a: Active, index: int, x: Line)
    ensures CountActive(FinishedStep(a, index), x)
            + (if OfStep(a.diagnostics, index) == [] then 0 else Count(EntriesOf(a.finished, index), x))
         == CountActive(a, x)
  {
    StepsSplit(a.diagnostics, index, x);
    PutStepReplaces(a.finished, index, OfStep(a.diagnostics, index), x);
    assert Count([], x) == 0;
  }

  /** How often an attempt lists a step. */
  function Occurrences(steps: seq<StepResult>, index: int): nat {
    if steps == [] then 0 else (if steps[0].index == index then 1 else 0) + Occurrences(steps[1..], index)
  }

  /** The lines of the finished steps, each as often as the attempt lists its step. */
  function Listed(steps: seq<StepResult>, finished: seq<StepEntries>, x: Line): nat {
    if finished == [] then 0
    else Occurrences(steps, finished[0].index) * Count(finished[0].entries, x) + Listed(steps, finished[1..], x)
  }

  lemma {:induction false} ListedOneMore(step: StepResult, steps: seq<StepResult>, finished: seq<StepEntries>, x: Line)
    requires DistinctFinished(finished)
    ensures Listed([step] + steps, finished, x)
       == Listed(steps, finished, x) + Count(EntriesOf(finished, step.index), x)
  {
    assert ([step] + steps)[1..] == steps;
    if finished != [] {
      var first, rest := finished[0], finished[1..];
      assert forall i :: 0 <= i < |rest| ==> rest[i] == finished[i + 1];
      ListedOneMore(step, steps, rest, x);
      if first.index == step.index {
        NoEntries(rest, step.index);
      }
      TimesOneMore(Occurrences(steps, first.index), Count(first.entries, x));
    }
  }

  lemma TimesOneMore(n: nat, k: nat)
    ensures (n + 1) * k == n * k + k && (1 + n) * k == n * k + k
  {
  }

  lemma {:induction false} NothingListed(finished: seq<StepEntries>, x: Line)
    ensures Listed([], finished, x) == 0
  {
    if finished != [] {
      NothingListed(finished[1..], x);
    }
  }

  lemma {:induction false} PickedAsListed(steps: seq<StepResult>, finished: seq<StepEntries>, x: Line)
    requires DistinctFinished(finished)
    ensures Picked(steps, finished, x) == Listed(steps, finished, x)
  {
    if steps == [] {
      NothingListed(finished, x);
    } else {
      PickedAsListed(steps[1..], finished, x);
      assert steps == [steps[0]] + steps[1..];
      ListedOneMore(steps[0], steps[1..], finished, x);
    }
  }

  /** Any finished attempt receives each finished step's lines as often as it lists the step: omitted ones are lost. */
  lemma AttemptReceivesWhatItLists(b: Buffer, i: nat, event: Event, x: Line)
    requires event.ScenarioFinished? && i < |b.active| && Tidy(b)
    ensures CountAttempt(FinishScenario(b, i, event).event.attempt, x)
         == CountAttempt(event.attempt, x) + Count(b.active[i].diagnostics, x)
            + Listed(event.attempt.steps, b.active[i].finished, x) + Claimed(b, event, x)
  {
    hide OwnsSharedOutput;
    var a, lines := b.active[i], PendingOf(b, event.scope.profile);
    var claimed := if OwnsSharedOutput(b, event.scope, event.attempt.state) then Unscoped(a, lines) else [];
    StepsPickUp(event.attempt.steps, a.finished, x);
    PickedAsListed(event.attempt.steps, a.finished, x);
    CountSum(event.attempt.diagnostics, a.diagnostics + claimed, x);
    CountSum(a.diagnostics, claimed, x);
    CountUnscoped(a, lines, x);
    assert Count([], x) == 0;
    hide Count, WithStepEntries, Picked, Listed, CountSteps, CountFinished, Unscoped, PendingOf, DistinctFinished;
  }

  // A line of a scenario, after which the scenario's scope starts again.
  const A_LINE := Line(Stdout, "listening", 0)
  const A_SCOPE := Scope("checkout", "", "web", 1)
  const RESTARTED: seq<Input> :=
    [Emitted(ScenarioStarted(A_SCOPE, "Checkout")), Recorded(A_LINE), Emitted(ScenarioStarted(A_SCOPE, "Checkout"))]

  /** The line is recorded once and is nowhere afterwards. */
  lemma RestartLosesALine()
    ensures
      var options := Options(["web"], []);
      var b := Run(options, RESTARTED);
      && TotalIn(options, RESTARTED, "web", A_LINE) == 1
      && TotalOut(options, RESTARTED, "web", A_LINE) + Held(b.active, "web", A_LINE) + Pending(b, "web", A_LINE) == 0
  {
    var options := Options(["web"], []);
    WebIsRequested();
    var start := RESTARTED[0];
    var started := Active(A_SCOPE, "Checkout", None, [], []);
    var entry := EntryFor(started, A_LINE, true);
    var b1 := Buffer([started], map[]);
    var b2 := Buffer([started.(diagnostics := [entry])], map[]);
    var one, two := [start], [start, Recorded(A_LINE)];
    assert one[..0] == [] && two[..1] == one && RESTARTED[..2] == two;
    assert Run(options, one) == b1;
    assert RecordFor(b1, [], A_LINE) == b1;
    OneWebLine(b1, started);
    assert Run(options, two) == b2;
    assert Run(options, RESTARTED) == b1;
    assert TotalIn(options, one, "web", A_LINE) == 0 && TotalOut(options, one, "web", A_LINE) == 0;
    assert TotalIn(options, two, "web", A_LINE) == 1 && TotalOut(options, two, "web", A_LINE) == 0;
    assert b1.active[1..] == [];
  }

  lemma WebIsRequested()
    ensures Options(["web"], []).For(Stdout) == ["web"]
  {
    assert ["web"][..0] == [];
  }

  lemma OneWebLine(b: Buffer, a: Active)
    requires b == Buffer([a], map[]) && a.scope == A_SCOPE && a.diagnostics == []
    ensures RecordFor(b, ["web"], A_LINE) == Buffer([a.(diagnostics := [EntryFor(a, A_LINE, true)])], map[])
  {
    var web: seq<Profile> := ["web"];
    assert web[..0] == [] && RecordFor(b, web, A_LINE) == RecordForProfile(b, "web", A_LINE);
    assert OwnerCount(b.active[1..], "web") == 0;
    assert OwnerCount(b.active, "web") == 1;
    assert FirstOwner(b.active, "web") == 0;
    assert b.active[0 := a.(diagnostics := [EntryFor(a, A_LINE, true)])]
        == [a.(diagnostics := [EntryFor(a, A_LINE, true)])];
    assert a.diagnostics + [EntryFor(a, A_LINE, true)] == [EntryFor(a, A_LINE, true)];
  }
}
