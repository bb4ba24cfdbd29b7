/**
 Where an output line goes in the diagnostics buffer
 (packages/cli/src/run/application-diagnostics.ts): to the only scenario of its profile that runs, or
 to whoever may claim it.
 */
module DiagnosticsRouting {
  import opened Wrappers
  import opened Diagnostics

  /** Scenario i is the only active one of the profile. */
  predicate RunsAlone(active: seq<Active>, profile: Profile, i: nat) {
    && i < |active| && active[i].scope.profile == profile
    && forall j :: 0 <= j < |active| && active[j].scope.profile == profile ==> j == i
  }

  lemma {:induction false} NoOwner(active: seq<Active>, profile: Profile)
    ensures OwnerCount(active, profile) == 0 <==> forall j :: 0 <= j < |active| ==> active[j].scope.profile != profile
  {
    if active != [] {
      NoOwner(active[1..], profile);
      assert forall j :: 1 <= j < |active| ==> active[j] == active[1..][j - 1];
    }
  }

  lemma {:induction false} OneOwner(active: seq<Active>, profile: Profile)
    ensures OwnerCount(active, profile) == 1 <==> exists i: nat :: RunsAlone(active, profile, i)
  {
    if active != [] {
      var rest := active[1..];
      OneOwner(rest, profile);
      NoOwner(rest, profile);
      assert forall j :: 1 <= j < |active| ==> active[j] == rest[j - 1];
      if active[0].scope.profile == profile {
        if OwnerCount(active, profile) == 1 {
          assert RunsAlone(active, profile, 0);
        }
        if i: nat :| RunsAlone(active, profile, i) {
          assert i == 0;
        }
      } else {
        if i: nat :| RunsAlone(active, profile, i) {
          assert RunsAlone(rest, profile, i - 1);
        }
        if i: nat :| RunsAlone(rest, profile, i) {
          assert RunsAlone(active, profile, i + 1);
        }
      }
    }
  }

  /** The lines that wait for a profile. */
  predicate Wait(b: Buffer, profile: Profile, lines: seq<Line>) {
    if profile in b.pending then b.pending[profile] == lines else lines == []
  }

  /** A line goes to the only active scenario of its profile, with the scenario's name and current step. */
  lemma LineOfOnlyScenario(b: Buffer, profile: Profile, line: Line, i: nat)
    requires RunsAlone(b.active, profile, i)
    ensures
      var a := b.active[i];
      var entry := Entry(line, profile, Some(a.name), a.step);
      RecordForProfile(b, profile, line)
      == Buffer(b.active[i := a.(diagnostics := a.diagnostics + [entry])], b.pending)
  {
    OneOwner(b.active, profile);
  }

  /** With no scenario of the profile, or with two, it waits behind the lines that wait already. */
  lemma LineOfNobodyWaits(b: Buffer, profile: Profile, line: Line, lines: seq<Line>)
    requires (forall i: nat :: !RunsAlone(b.active, profile, i)) && Wait(b, profile, lines)
    ensures RecordForProfile(b, profile, line) == Buffer(b.active, b.pending[profile := lines + [line]])
  {
    OneOwner(b.active, profile);
  }

  /** The profiles that want a stream. */
  lemma WantsStream(options: Options, stream: Stream, profile: Profile)
    ensures profile in options.For(stream)
       <==> if stream == Stdout then profile in options.stdout else profile in options.stderr
  {
    InUnique(if stream == Stdout then options.stdout else options.stderr, profile);
  }

  lemma {:induction false} InUnique(profiles: seq<Profile>, profile: Profile)
    ensures profile in Unique(profiles) <==> profile in profiles
  {
    if profiles != [] {
      var n := |profiles| - 1;
      InUnique(profiles[..n], profile);
      assert profiles == profiles[..n] + [profiles[n]];
    }
  }

  /** Entries that name the scenario and the step of nobody. */
  predicate Unnamed(entries: seq<Entry>, lines: seq<Line>, profile: Profile) {
    && |entries| == |lines|
    && forall k :: 0 <= k < |lines| ==> entries[k] == Entry(lines[k], profile, None, None)
  }

  lemma {:induction false} UnscopedAreUnnamed(a: Active, lines: seq<Line>)
    ensures Unnamed(Unscoped(a, lines), lines, a.scope.profile)
  {
    if lines != [] {
      UnscopedAreUnnamed(a, lines[..|lines| - 1]);
    }
  }

  /** A failed attempt, one that the infrastructure broke, or one that no other scenario of the profile runs beside. */
  predicate MayClaim(b: Buffer, i: nat, state: AttemptState)
    requires i < |b.active|
  {
    || state == AttemptFailed || state == InfrastructureError
    || forall j :: 0 <= j < |b.active| && j != i ==> b.active[j].scope.profile != b.active[i].scope.profile
  }

  /**
   What an attempt gets when it finishes: its own entries, and all waiting lines of its profile in
   order if it may claim them; otherwise they go on waiting.
   */
  lemma FinishedAttemptClaims(b: Buffer, i: nat, event: Event, lines: seq<Line>) returns (claimed: seq<Entry>)
    requires event.ScenarioFinished? && i < |b.active| && b.active[i].scope == event.scope
    requires Wait(b, event.scope.profile, lines)
    ensures
      var may := MayClaim(b, i, event.attempt.state);
      var result := FinishScenario(b, i, event);
      && Unnamed(claimed, if may then lines else [], event.scope.profile)
      && result.event.attempt.diagnostics == event.attempt.diagnostics + b.active[i].diagnostics + claimed
      && result.buffer.active == b.active[..i] + b.active[i + 1..]
      && result.buffer.pending == if may then b.pending - {event.scope.profile} else b.pending
  {
    var a, profile := b.active[i], event.scope.profile;
    OneOwner(b.active, profile);
    assert (exists k: nat :: RunsAlone(b.active, profile, k)) <==> RunsAlone(b.active, profile, i);
    var state := event.attempt.state;
    var may := RunsAlone(b.active, profile, i) || state == AttemptFailed || state == InfrastructureError;
    assert may == MayClaim(b, i, state);
    UnscopedAreUnnamed(a, lines);
    claimed := if OwnsSharedOutput(b, event.scope, event.attempt.state) then Unscoped(a, lines) else [];
    hide Unscoped, WithStepEntries;
    assert event.attempt.diagnostics + (a.diagnostics + claimed) == event.attempt.diagnostics + a.diagnostics + claimed;
  }

  lemma InStepExactly(e: Entry, index: int)
    ensures InStep(e, index) <==> exists text :: e.step == Some(StepInfo(index, text))
  {
    if InStep(e, index) {
      assert e.step == Some(StepInfo(index, e.step.value.text));
    }
  }

  lemma Regroup(x: seq<Entry>, y: seq<Entry>, z: seq<Entry>)
    ensures x + (y + z) == x + y + z
  {
  }

  lemma NextEntry(x: Entry, xs: seq<Entry>, index: int)
    ensures OfStep([x] + xs, index) == (if InStep(x, index) then [x] else []) + OfStep(xs, index)
    ensures NotOfStep([x] + xs, index) == (if InStep(x, index) then [] else [x]) + NotOfStep(xs, index)
  {
    assert ([x] + xs)[0] == x && ([x] + xs)[1..] == xs;
  }

  lemma {:induction false} TakenLast(xs: seq<Entry>, e: Entry, index: int)
    ensures OfStep(xs + [e], index) == OfStep(xs, index) + (if InStep(e, index) then [e] else [])
    ensures NotOfStep(xs + [e], index) == NotOfStep(xs, index) + (if InStep(e, index) then [] else [e])
  {
    hide InStep;
    var own, other := if InStep(e, index) then [e] else [], if InStep(e, index) then [] else [e];
    if xs == [] {
      assert xs + [e] == [e] + [];
      NextEntry(e, [], index);
    } else {
      var x, rest := xs[0], xs[1..];
      TakenLast(rest, e, index);
      assert xs == [x] + rest && xs + [e] == [x] + (rest + [e]);
      NextEntry(x, rest, index);
      NextEntry(x, rest + [e], index);
      hide OfStep, NotOfStep;
      Regroup(if InStep(x, index) then [x] else [], OfStep(rest, index), own);
      Regroup(if InStep(x, index) then [] else [x], NotOfStep(rest, index), other);
    }
  }

  /** What of a scenario's entries goes to a finished step: those recorded in it, in order; the others stay. */
  lemma StepTakesItsEntries(xs: seq<Entry>, e: Entry, index: int)
    ensures OfStep([], index) == NotOfStep([], index) == []
    ensures
      var own := exists text :: e.step == Some(StepInfo(index, text));
      && OfStep(xs + [e], index) == OfStep(xs, index) + (if own then [e] else [])
      && NotOfStep(xs + [e], index) == NotOfStep(xs, index) + (if own then [] else [e])
  {
    hide InStep;
    InStepExactly(e, index);
    TakenLast(xs, e, index);
  }
}
