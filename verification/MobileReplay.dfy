/**
 What the mobile compiler writes is what the mobile cache accepts, and a step that diverges in a
 replay is found again (packages/mobile/src/agent-device/mobile-ad-script.ts,
 packages/mobile/src/execution-cache/mobile-execution-cache.ts and
 packages/mobile/src/agent-device/agent-device-gateway.ts).
 */
module MobileReplay {
  import opened Wrappers
  import opened JsonText
  import opened MobileScript
  import opened MobileExecutionCache
  import opened MobileLines
  import opened MobileMeaning
  import opened MobileRuntime
  import opened MobileEnvironment
  import opened MobileVariables
  import opened MobilePlacement

  /** The cache accepts what the compiler writes, for the variables it says are required. */
  ghost predicate CompiledIsAccepted(platform: Platform, applicationId: Text, s: Scenario, variables: Variables) {
    var compiled := CompileMobileScenario(platform, applicationId, s, variables);
    Accepted(compiled.payload, compiled.requiredVariables, platform, applicationId, variables)
  }

  // ---------------------------------------------------------------- exactly when a compiled scenario is accepted

  lemma PlanStepsFit(script: Text, n: nat)
    requires script != [] && |ScriptLinesOf(script)| == n + 2
    ensures ValidRanges(PlanSteps(n)) && RangesMatchScenarioOperations(script, PlanSteps(n))
    ensures MatchesSchema(Payload(script, PlanSteps(n))) <==> n > 0
  {
    hide ScriptLinesOf;
  }

  /**
   A compiled scenario is accepted exactly when it has a step, the used names are acceptable and
   the script has no placeholder but those of the bindings.
   */
  lemma AcceptedExactlyWhen(platform: Platform, applicationId: Text, s: Scenario, variables: Variables)
    requires AreReplayVariables(variables)
    ensures
      var compiled := CompileMobileScenario(platform, applicationId, s, variables);
      CompiledIsAccepted(platform, applicationId, s, variables) <==>
        && s.templateSteps != []
        && AcceptableNames(compiled.requiredVariables)
        && OnlyPlaceholdersOf(compiled.payload.script, Names(s.bindings), variables)
  {
    var operations := Operations(s, variables);
    var script := Lines(ScriptLines(platform, applicationId, operations));
    ScriptIsSupported(platform, applicationId, operations);
    ExactVariablesWhen(script, Names(s.bindings), variables);
    assert script != [];
    hide ValidRanges, SupportsScenarioScript, HasExactVariables, AcceptableNames, OnlyPlaceholdersOf, PlanSteps, Lines,
      ScriptLinesOf, UsedVariableNames, AreReplayVariables, MatchesSchema, RangesMatchScenarioOperations, OperationFor,
      OperationLine, ContextLine, OpenLine;
    PlanStepsFit(script, |operations|);
  }

  // ---------------------------------------------------------------- texts in which a `${` has its place

  lemma OperationPlacedExactlyWhen(template: MobileStep, runtime: MobileStep, names: seq<Text>, variables: Variables)
    requires AreReplayVariables(variables) && AllNames(names)
    ensures PlacedCommand(CommandOf(OperationFor(template, runtime, names, variables)), names, variables)
       <==> WellPlaced(template.text, names, variables)
    ensures Closed(template.text) ==> ClosedCommand(CommandOf(OperationFor(template, runtime, names, variables)))
  {
    var command := TemplateCommand(template, runtime);
    OperationSaysTemplate(template, runtime, names, variables);
    hide OperationFor, TemplateCommand, PlacedCommand, ClosedCommand, CommandOf, ReplaceCommand, AllNames,
      AreReplayVariables, ClosedOr;
    TemplateCommandPlacedExactlyWhen(template, runtime, names, variables);
    ReplacedCommandPlacedExactlyWhen(command, names, variables);
    if Closed(template.text) {
      TemplateCommandCloses(template, runtime);
      ReplacedCommandCloses(command, names, variables);
    }
  }

  // Texts that can stand beside any other without a `${` arising.
  ghost predicate Walled(t: Text, names: seq<Text>, variables: Variables) {
    WellPlaced(t, names, variables) && t != [] && t[0] != OPEN_BRACE && t[|t| - 1] != DOLLAR
  }

  lemma WalledSum(s: Text, t: Text, names: seq<Text>, variables: Variables)
    requires Walled(s, names, variables) && Walled(t, names, variables)
    ensures Walled(s + t, names, variables)
  {
    WellPlacedSum(s, t, names, variables);
  }

  lemma WordIsWalled(t: Text, names: seq<Text>, variables: Variables)
    requires t != [] && DOLLAR !in t && t[0] != OPEN_BRACE
    ensures Walled(t, names, variables)
  {
    NoDollarIsWellPlaced(t, names, variables);
  }

  lemma QuotedIsWalled(t: Text, names: seq<Text>, variables: Variables)
    requires AreReplayVariables(variables) && WellPlaced(t, names, variables)
    ensures Walled(WriteString(t), names, variables)
  {
    WrittenIsWellPlaced(t, names, variables);
    OneIsWellPlaced(QUOTE, names, variables);
    WellPlacedSum([QUOTE], WriteUnits(t), names, variables);
    WellPlacedSum([QUOTE] + WriteUnits(t), [QUOTE], names, variables);
  }

  lemma LineIsWalled(operation: Operation, names: seq<Text>, variables: Variables)
    requires AreReplayVariables(variables) && PlacedCommand(CommandOf(operation), names, variables)
    ensures Walled(OperationLine(operation), names, variables)
  {
    var q := WriteString(operation.target.template);
    QuotedIsWalled(operation.target.template, names, variables);
    match operation
    case WaitText(_) =>
      WordIsWalled(Ascii("wait text "), names, variables);
      WalledSum(Ascii("wait text "), q, names, variables);
    case FindClick(_) =>
      WordIsWalled(Ascii("find "), names, variables);
      WordIsWalled(Ascii(" click"), names, variables);
      hide Walled, AreReplayVariables, PlacedCommand;
      WalledSum(Ascii("find "), q, names, variables);
      WalledSum(Ascii("find ") + q, Ascii(" click"), names, variables);
    case Assert(what, _, expected) =>
      if what == TextIs {
        QuotedIsWalled(ExpectedTemplate(expected), names, variables);
        AssertionIsWalled(what, q, WriteString(ExpectedTemplate(expected)), names, variables);
      } else {
        AssertionIsWalled(what, q, q, names, variables);
      }
  }

  lemma AssertionIsWalled(what: Predicate, q: Text, expected: Text, names: seq<Text>, variables: Variables)
    requires Walled(q, names, variables) && Walled(expected, names, variables)
    ensures
      Walled(Ascii("is ") + Ascii(Name(what)) + Ascii(" ") + q + (if what == TextIs then Ascii(" ") + expected else []),
             names, variables)
  {
    var space, start := Ascii(" "), Ascii("is ") + Ascii(Name(what));
    WordIsWalled(space, names, variables);
    WordIsWalled(start, names, variables);
    hide Walled, Ascii;
    WalledSum(start, space, names, variables);
    WalledSum(start + space, q, names, variables);
    WalledSum(space, expected, names, variables);
    WalledSum(start + space + q, space + expected, names, variables);
    assert start + space + q + [] == start + space + q;
  }

  lemma OpenLineIsWalled(applicationId: Text, names: seq<Text>, variables: Variables)
    requires AreReplayVariables(variables) && WellPlaced(applicationId, names, variables)
    ensures Walled(OpenLine(applicationId), names, variables)
  {
    QuotedIsWalled(applicationId, names, variables);
    WordIsWalled(Ascii("open "), names, variables);
    WordIsWalled(Ascii(" --relaunch"), names, variables);
    hide Walled, AreReplayVariables;
    WalledSum(Ascii("open "), WriteString(applicationId), names, variables);
    WalledSum(Ascii("open ") + WriteString(applicationId), Ascii(" --relaunch"), names, variables);
  }

  lemma {:induction false} LinesAreWellPlaced(lines: seq<Text>, names: seq<Text>, variables: Variables)
    requires forall line :: line in lines ==> Walled(line, names, variables)
    ensures lines == [] || Walled(Lines(lines), names, variables)
    ensures WellPlaced(Lines(lines), names, variables)
  {
    if lines != [] {
      assert Walled(lines[0], names, variables);
      LinesAreWellPlaced(lines[1..], names, variables);
      WordIsWalled([NEWLINE], names, variables);
      WalledSum(lines[0], [NEWLINE], names, variables);
      if |lines| > 1 {
        WalledSum(lines[0] + [NEWLINE], Lines(lines[1..]), names, variables);
      } else {
        assert lines[0] + [NEWLINE] + [] == lines[0] + [NEWLINE];
      }
    }
  }

  /** None of the scenario's own texts has a `${`. */
  predicate HasLiteralTexts(applicationId: Text, s: Scenario) {
    IsLiteral(applicationId) && forall i :: 0 <= i < |s.templateSteps| ==> IsLiteral(s.templateSteps[i].text)
  }

  lemma ContextLineIsWalled(platform: Platform, names: seq<Text>, variables: Variables)
    ensures Walled(ContextLine(platform), names, variables)
  {
    var line := ContextLine(platform);
    assert DOLLAR !in line && line[0] != OPEN_BRACE;
    hide ContextLine;
    WordIsWalled(line, names, variables);
  }

  lemma KindsOfLine(platform: Platform, applicationId: Text, operations: seq<Operation>, line: Text)
    requires line in ScriptLines(platform, applicationId, operations)
    ensures line == ContextLine(platform) || line == OpenLine(applicationId)
         || exists k: nat :: k < |operations| && line == OperationLine(operations[k])
  {
    hide ContextLine, OpenLine, OperationLine;
    var lines := ScriptLines(platform, applicationId, operations);
    var i :| 0 <= i < |lines| && lines[i] == line;
    assert i >= 2 ==> line == OperationLine(operations[i - 2]);
  }

  /** Wherever `${` stands in a text of the scenario, a placeholder of one of the bindings does. */
  ghost predicate PlacedTexts(applicationId: Text, s: Scenario, variables: Variables) {
    && WellPlaced(applicationId, Names(s.bindings), variables)
    && forall i :: 0 <= i < |s.templateSteps| ==> WellPlaced(s.templateSteps[i].text, Names(s.bindings), variables)
  }

  /** Wherever `${` stands in a text of the scenario, something and a closing brace follow in the text. */
  predicate ClosedTexts(applicationId: Text, s: Scenario) {
    Closed(applicationId) && forall i :: 0 <= i < |s.templateSteps| ==> Closed(s.templateSteps[i].text)
  }

  lemma StepLineIsWalled(applicationId: Text, s: Scenario, variables: Variables, i: nat)
    requires AreReplayVariables(variables) && AllNames(Names(s.bindings))
    requires PlacedTexts(applicationId, s, variables) && i < |s.templateSteps|
    ensures Walled(OperationLine(Operations(s, variables)[i]), Names(s.bindings), variables)
  {
    var template, runtime := s.templateSteps[i], RuntimeStep(s, i);
    var operation := OperationFor(template, runtime, Names(s.bindings), variables);
    assert Operations(s, variables)[i] == operation;
    OperationPlacedExactlyWhen(template, runtime, Names(s.bindings), variables);
    hide Operations, OperationFor, PlacedCommand, AreReplayVariables, Walled, OperationLine;
    LineIsWalled(operation, Names(s.bindings), variables);
  }

  lemma ScriptIsWellPlaced(platform: Platform, applicationId: Text, s: Scenario, variables: Variables)
    requires AreReplayVariables(variables) && AllNames(Names(s.bindings)) && PlacedTexts(applicationId, s, variables)
    ensures
      var script := CompileMobileScenario(platform, applicationId, s, variables).payload.script;
      OnlyPlaceholdersOf(script, Names(s.bindings), variables)
  {
    var names, operations := Names(s.bindings), Operations(s, variables);
    var lines := ScriptLines(platform, applicationId, operations);
    assert |operations| == |s.templateSteps| && WellPlaced(applicationId, names, variables);
    hide Walled, ScriptLines, ContextLine, OpenLine, OperationLine, Operations, AreReplayVariables, PlacedTexts,
      OnlyPlaceholdersOf, WellPlaced, AllNames;
    ContextLineIsWalled(platform, names, variables);
    OpenLineIsWalled(applicationId, names, variables);
    forall line | line in lines ensures Walled(line, names, variables) {
      KindsOfLine(platform, applicationId, operations, line);
      if line != ContextLine(platform) && line != OpenLine(applicationId) {
        var k: nat :| k < |operations| && line == OperationLine(operations[k]);
        StepLineIsWalled(applicationId, s, variables, k);
      }
    }
    LinesAreWellPlaced(lines, names, variables);
    WellPlacedOnlyNames(Lines(lines), names, variables);
  }

  lemma StepTextIsPlaced(platform: Platform, applicationId: Text, s: Scenario, variables: Variables, i: nat)
    requires AreReplayVariables(variables) && AllNames(Names(s.bindings)) && i < |s.templateSteps|
    requires Closed(s.templateSteps[i].text)
    requires
      var lines := ScriptLines(platform, applicationId, Operations(s, variables));
      Settled(Lines(lines), Names(s.bindings), variables)
    ensures WellPlaced(s.templateSteps[i].text, Names(s.bindings), variables)
  {
    hide Operations, OperationFor, OperationLine, ScriptLines, Settled, AreReplayVariables, AllNames, PlacedCommand,
      ClosedCommand, CommandOf, WellPlaced, ClosedOr, Lines;
    var names, operations := Names(s.bindings), Operations(s, variables);
    var operation := OperationFor(s.templateSteps[i], RuntimeStep(s, i), names, variables);
    LineOfStep(platform, applicationId, s, variables, i);
    OperationPlacedExactlyWhen(s.templateSteps[i], RuntimeStep(s, i), names, variables);
    var rest := LineSettles(ScriptLines(platform, applicationId, operations), i + 2, names, variables);
    LineIsPlaced(operation, rest, names, variables);
  }

  lemma LineOfStep(platform: Platform, applicationId: Text, s: Scenario, variables: Variables, i: nat)
    requires i < |s.templateSteps|
    ensures
      var lines := ScriptLines(platform, applicationId, Operations(s, variables));
      && |lines| == |s.templateSteps| + 2
      && lines[i + 2]
         == OperationLine(OperationFor(s.templateSteps[i], RuntimeStep(s, i), Names(s.bindings), variables))
  {
    hide ContextLine, OpenLine, OperationLine, OperationFor;
  }

  lemma SecondLine(platform: Platform, applicationId: Text, operations: seq<Operation>)
    ensures
      var lines := ScriptLines(platform, applicationId, operations);
      |lines| > 1 && lines[1] == OpenLine(applicationId)
  {
  }

  lemma ApplicationIsPlaced(applicationId: Text, lines: seq<Text>, names: seq<Text>, variables: Variables)
    requires AreReplayVariables(variables) && Closed(applicationId)
    requires |lines| > 1 && lines[1] == OpenLine(applicationId) && Settled(Lines(lines), names, variables)
    ensures WellPlaced(applicationId, names, variables)
  {
    hide Settled, AreReplayVariables, WellPlaced, ClosedOr, Ascii, WriteString, Lines;
    var front, written, end := Ascii("open "), WriteString(applicationId), Ascii(" --relaunch");
    var rest := LineSettles(lines, 1, names, variables);
    assert front + written + end + rest == front + (written + (end + rest));
    TargetIsPlaced(front, applicationId, end + rest, false, names, variables);
  }

  lemma ScriptTellsPlaces(platform: Platform, applicationId: Text, s: Scenario, variables: Variables)
    requires AreReplayVariables(variables) && AllNames(Names(s.bindings)) && ClosedTexts(applicationId, s)
    requires
      var script := CompileMobileScenario(platform, applicationId, s, variables).payload.script;
      OnlyPlaceholdersOf(script, Names(s.bindings), variables)
    ensures PlacedTexts(applicationId, s, variables)
  {
    hide Operations, ScriptLines, AreReplayVariables, AllNames, WellPlaced, ClosedOr, Settled, OnlyPlaceholdersOf;
    var lines := ScriptLines(platform, applicationId, Operations(s, variables));
    OnlyPlaceholdersSettle(Lines(lines), Names(s.bindings), variables);
    SecondLine(platform, applicationId, Operations(s, variables));
    ApplicationIsPlaced(applicationId, lines, Names(s.bindings), variables);
    forall i | 0 <= i < |s.templateSteps| ensures WellPlaced(s.templateSteps[i].text, Names(s.bindings), variables) {
      StepTextIsPlaced(platform, applicationId, s, variables, i);
    }
  }

  lemma RequiredAreAcceptable(script: Text, names: seq<Text>, variables: Variables)
    requires AcceptableNames(names)
    ensures AcceptableNames(UsedVariableNames(script, names, variables))
  {
    UsedStayDistinct(script, names, variables);
    forall name | name in UsedVariableNames(script, names, variables)
      ensures IsVariableName(name) && !IsReserved(name)
    {
      UsedAreContained(script, names, variables, name);
    }
  }

  /**
   Of a scenario with acceptable binding names in whose texts every `${` is closed: the cache accepts
   what is compiled exactly when there is a step, and every `${` in a text starts the placeholder of
   a binding.
   */
  lemma TextsAcceptedExactlyWhen(platform: Platform, applicationId: Text, s: Scenario, variables: Variables)
    requires AreReplayVariables(variables) && AcceptableNames(Names(s.bindings)) && ClosedTexts(applicationId, s)
    ensures CompiledIsAccepted(platform, applicationId, s, variables)
       <==> s.templateSteps != [] && PlacedTexts(applicationId, s, variables)
  {
    var compiled := CompileMobileScenario(platform, applicationId, s, variables);
    AcceptedExactlyWhen(platform, applicationId, s, variables);
    RequiredAreAcceptable(compiled.payload.script, Names(s.bindings), variables);
    assert AllNames(Names(s.bindings));
    hide CompiledIsAccepted, AreReplayVariables, AcceptableNames, AllNames, PlacedTexts, ClosedTexts,
      OnlyPlaceholdersOf;
    if PlacedTexts(applicationId, s, variables) {
      ScriptIsWellPlaced(platform, applicationId, s, variables);
    } else if CompiledIsAccepted(platform, applicationId, s, variables) {
      ScriptTellsPlaces(platform, applicationId, s, variables);
    }
  }

  /**
   The compiler's output passes the cache's validation: of a scenario with at least one step, no
   `${` in its own texts, and distinct, well-formed binding names that are not reserved.
   */
  lemma CompilerOutputIsAccepted(platform: Platform, applicationId: Text, s: Scenario, variables: Variables)
    requires AreReplayVariables(variables) && s.templateSteps != []
    requires HasLiteralTexts(applicationId, s) && AcceptableNames(Names(s.bindings))
    ensures CompiledIsAccepted(platform, applicationId, s, variables)
  {
    LiteralCloses(applicationId);
    LiteralIsWellPlaced(applicationId, Names(s.bindings), variables);
    forall i | 0 <= i < |s.templateSteps|
      ensures Closed(s.templateSteps[i].text) && WellPlaced(s.templateSteps[i].text, Names(s.bindings), variables)
    {
      LiteralCloses(s.templateSteps[i].text);
      LiteralIsWellPlaced(s.templateSteps[i].text, Names(s.bindings), variables);
    }
    TextsAcceptedExactlyWhen(platform, applicationId, s, variables);
  }

  lemma {:induction false} LiteralCloses(t: Text)
    requires IsLiteral(t)
    ensures Closed(t)
  {
    if t != [] {
      LiteralCloses(t[1..]);
    }
  }

  lemma {:induction false} UsedStayDistinct(script: Text, names: seq<Text>, variables: Variables)
    requires NoneTwice(names)
    ensures NoneTwice(UsedVariableNames(script, names, variables))
  {
    if names != [] {
      UsedStayDistinct(script, names[1..], variables);
      UsedAreContained(script, names[1..], variables, names[0]);
    }
  }

  /** A placeholder that no binding gives, written out in a text, makes the cache refuse the script. */
  lemma ForeignPlaceholderIsRefused(platform: Platform, applicationId: Text, s: Scenario, variables: Variables, v: Text)
    requires AreReplayVariables(variables) && v != [] && CLOSE_BRACE !in v && !Stands(v, Names(s.bindings), variables)
    requires Contains(CompileMobileScenario(platform, applicationId, s, variables).payload.script, Placeholder(v))
    ensures !CompiledIsAccepted(platform, applicationId, s, variables)
  {
    var script := CompileMobileScenario(platform, applicationId, s, variables).payload.script;
    AcceptedExactlyWhen(platform, applicationId, s, variables);
    if OnlyPlaceholdersOf(script, Names(s.bindings), variables) {
      forall w | w in Placeholders(script) ensures DOLLAR !in w {
        assert Stands(w, Names(s.bindings), variables);
        ReplayableIsPlain(w);
      }
      ContainedIsFound(script, v);
    }
  }

  lemma {:induction false} NothingToReplace(t: Text, names: seq<Text>, variables: Variables)
    requires LESS !in t
    ensures ReplaceVariables(t, names, variables) == t
  {
    if t != [] {
      assert t[0] in t;
      NothingToReplace(t[1..], names, variables);
    }
  }

  lemma ContainsWithin(before: Text, part: Text, after: Text)
    ensures Contains(before + part + after, part)
  {
    ContainsAt(before + part + after, |before|, part);
  }

  lemma {:induction false} ContainsLine(lines: seq<Text>, i: nat, part: Text)
    requires i < |lines| && Contains(lines[i], part)
    ensures Contains(Lines(lines), part)
    decreases i
  {
    var first, rest := lines[0] + [NEWLINE], Lines(lines[1..]);
    if i == 0 {
      var k := PositionOf(lines[0], part);
      assert (first + rest)[k..k + |part|] == lines[0][k..k + |part|];
      ContainsAt(first + rest, k, part);
    } else {
      ContainsLine(lines[1..], i - 1, part);
      assert (first + rest)[|first|..] == rest;
      ContainsLater(first + rest, |first|, part);
    }
  }

  const SOME_NAME: Text := [0x78]

  lemma LiteralLine(t: Text, variables: Variables)
    requires t == Placeholder(SOME_NAME)
    ensures
      var step := MobileStep(Action, t);
      Contains(OperationLine(OperationFor(step, step, [], variables)), t)
  {
    NothingToReplace(t, [], variables);
    PlainIsWritten(t, []);
    assert t + [] == t && WriteString(t) == [QUOTE] + t + [QUOTE];
    hide ReplaceVariables, WriteString;
    var before, after := Ascii("find ") + [QUOTE], [QUOTE] + Ascii(" click");
    ContainsWithin(before, t, after);
    hide Contains, Ascii, Placeholder;
    assert Ascii("find ") + ([QUOTE] + t + [QUOTE]) + Ascii(" click") == before + t + after;
  }

  /** Such a text is `${x}`: an action of that text compiles to a script that is refused. */
  lemma LiteralPlaceholderIsRefused(platform: Platform, applicationId: Text, variables: Variables)
    requires AreReplayVariables(variables)
    ensures
      var step := MobileStep(Action, Placeholder(SOME_NAME));
      !CompiledIsAccepted(platform, applicationId, Scenario([step], [step], []), variables)
  {
    var t := Placeholder(SOME_NAME);
    var step := MobileStep(Action, t);
    var s := Scenario([step], [step], []);
    LiteralLine(t, variables);
    assert Names(s.bindings) == [];
    hide OperationFor, OperationLine, ContextLine, OpenLine, AreReplayVariables, Accepted, Placeholder, Contains;
    var lines := ScriptLines(platform, applicationId, Operations(s, variables));
    assert lines[2] == OperationLine(OperationFor(step, step, [], variables));
    ContainsLine(lines, 2, t);
    ForeignPlaceholderIsRefused(platform, applicationId, s, variables, SOME_NAME);
  }

  // ---------------------------------------------------------------- the script does what the scenario asks

  /** The step with the values in it. */
  function RuntimeStep(s: Scenario, i: nat): MobileStep
    requires i < |s.templateSteps|
  {
    if i < |s.steps| then s.steps[i] else s.templateSteps[i]
  }

  lemma StepLine(platform: Platform, applicationId: Text, s: Scenario, variables: Variables, i: nat)
    requires i < |s.templateSteps|
    ensures
      var lines := ScriptLinesOf(CompileMobileScenario(platform, applicationId, s, variables).payload.script);
      && |lines| == |s.templateSteps| + 2
      && lines[i + 2]
         == OperationLine(OperationFor(s.templateSteps[i], RuntimeStep(s, i), Names(s.bindings), variables))
  {
    var operations := Operations(s, variables);
    ScriptIsSupported(platform, applicationId, operations);
    hide SupportsScenarioScript, ScriptLinesOf, Lines, OperationFor, OperationLine, ContextLine, OpenLine;
    assert ScriptLines(platform, applicationId, operations)[i + 2] == OperationLine(operations[i]);
  }

  lemma LineIsInScript(platform: Platform, applicationId: Text, s: Scenario, variables: Variables, i: nat)
    requires i < |s.templateSteps|
    ensures
      var operation := OperationFor(s.templateSteps[i], RuntimeStep(s, i), Names(s.bindings), variables);
      var script := CompileMobileScenario(platform, applicationId, s, variables).payload.script;
      forall p :: Contains(OperationLine(operation), p) ==> Contains(script, p)
  {
    var operation := OperationFor(s.templateSteps[i], RuntimeStep(s, i), Names(s.bindings), variables);
    var lines := ScriptLines(platform, applicationId, Operations(s, variables));
    LineOfStep(platform, applicationId, s, variables, i);
    hide OperationFor, OperationLine, ScriptLines, Operations, Contains, Lines;
    forall p | Contains(OperationLine(operation), p) ensures Contains(Lines(lines), p) {
      ContainsLine(lines, i + 2, p);
    }
  }

  /** A line of the script replays, with the compiled environment, what it does with the values of all bindings. */
  lemma CompiledEnvironmentSuffices(platform: Platform, applicationId: Text, s: Scenario, variables: Variables, i: nat,
                                    command: Command)
    requires AreReplayVariables(variables) && i < |s.templateSteps|
    ensures
      var compiled := CompileMobileScenario(platform, applicationId, s, variables);
      var line := OperationLine(OperationFor(s.templateSteps[i], RuntimeStep(s, i), Names(s.bindings), variables));
      ReplaysIn(line, command, compiled.runtimeEnv) <==> Replays(line, command, s.bindings, variables)
  {
    hide CompileMobileScenario, OperationFor, OperationLine, CommandOf, ExpandCommand, ExpandCommandIn, Contains, Gives,
      AreReplayVariables, Replays, ReplaysIn, UsedVariableNames, RuntimeStep;
    var compiled := CompileMobileScenario(platform, applicationId, s, variables);
    var operation := OperationFor(s.templateSteps[i], RuntimeStep(s, i), Names(s.bindings), variables);
    CompiledGives(platform, applicationId, s, variables);
    LineIsInScript(platform, applicationId, s, variables, i);
    CommandExpandsAlike(operation, compiled.runtimeEnv, compiled.payload.script, s.bindings, variables);
    ReplaysInWhatItSays(operation, command, compiled.runtimeEnv);
    ReplaysWhatItSays(operation, command, s.bindings, variables);
  }

  /**
   Line i + 2 of the compiled script does what step i asks for, once its variables have the values of
   the compiled environment, exactly when the values leave the step's form and arguments alone.  That
   is so of every context and action step, whatever its names and values are.
   */
  lemma StepIsReplayedExactlyWhen(platform: Platform, applicationId: Text, s: Scenario, variables: Variables, i: nat)
    requires AreReplayVariables(variables) && i < |s.templateSteps| && IsLiteral(s.templateSteps[i].text)
    requires RuntimeStep(s, i) == MobileStep(s.templateSteps[i].kind, Substitute(s.templateSteps[i].text, s.bindings))
    requires NamesFit(s.templateSteps[i], RuntimeStep(s, i), s.bindings)
    ensures
      var compiled := CompileMobileScenario(platform, applicationId, s, variables);
      var lines, template, runtime := ScriptLinesOf(compiled.payload.script), s.templateSteps[i], RuntimeStep(s, i);
      && |lines| == |s.templateSteps| + 2
      && (ReplaysIn(lines[i + 2], Asked(runtime), compiled.runtimeEnv) <==> AsAsked(template, runtime, s.bindings))
      && (!template.kind.Outcome? ==> ReplaysIn(lines[i + 2], Asked(runtime), compiled.runtimeEnv))
  {
    StepLine(platform, applicationId, s, variables, i);
    LineReplaysExactlyWhen(s.templateSteps[i], RuntimeStep(s, i), s.bindings, variables);
    hide ScriptLinesOf, CompileMobileScenario, Replays, ReplaysIn, Asked, OperationFor, OperationLine,
      AreReplayVariables, IsLiteral, NamesFit, RuntimeStep, Substitute;
    CompiledEnvironmentSuffices(platform, applicationId, s, variables, i, Asked(RuntimeStep(s, i)));
  }

  // ---------------------------------------------------------------- runtime values stay out of the script

  /** Whether a text asserts something, and whether it has a separator, is all the script takes from a runtime text. */
  predicate SameShape(x: Text, y: Text) {
    match (AssertionOf(x), AssertionOf(y))
    case (None, None) => true
    case (Some(a), Some(b)) => SeparatorIn(a.body).Some? == SeparatorIn(b.body).Some?
    case _ => false
  }

  predicate SameTemplate(s: Scenario, t: Scenario) {
    && s.templateSteps == t.templateSteps && Names(s.bindings) == Names(t.bindings) && |s.steps| == |t.steps|
    && forall i :: 0 <= i < |s.steps| ==> SameShape(s.steps[i].text, t.steps[i].text)
  }

  lemma AssertionIgnoresRuntime(template: MobileStep, x: MobileStep, y: MobileStep, names: seq<Text>,
          variables: Variables)
    requires SameShape(x.text, y.text)
    ensures CommandOf(AssertionOperation(template, x, names, variables))
       == CommandOf(AssertionOperation(template, y, names, variables))
  {
    hide AssertionOf, ReplaceVariables, EscapedTextSelector, SeparatorIn;
    match (AssertionOf(x.text), AssertionOf(y.text))
    case (Some(a), Some(b)) =>
    case _ =>
  }

  /** Operations that say the same are written the same. */
  lemma SameCommandSameLine(a: Operation, b: Operation)
    requires CommandOf(a) == CommandOf(b)
    ensures OperationLine(a) == OperationLine(b)
  {
    hide WriteString, Ascii;
  }

  lemma LineIgnoresRuntime(template: MobileStep, x: MobileStep, y: MobileStep, names: seq<Text>, variables: Variables)
    requires SameShape(x.text, y.text)
    ensures OperationLine(OperationFor(template, x, names, variables))
       == OperationLine(OperationFor(template, y, names, variables))
  {
    AssertionIgnoresRuntime(template, x, y, names, variables);
    hide AssertionOperation, ReplaceVariables, OperationLine;
    SameCommandSameLine(OperationFor(template, x, names, variables), OperationFor(template, y, names, variables));
  }

  /** The values bound to the variables, and the texts made with them, do not reach the cached payload. */
  lemma PayloadHidesRuntimeValues(platform: Platform, applicationId: Text, s: Scenario, t: Scenario,
          variables: Variables)
    requires SameTemplate(s, t)
    ensures CompileMobileScenario(platform, applicationId, s, variables).payload
         == CompileMobileScenario(platform, applicationId, t, variables).payload
    ensures CompileMobileScenario(platform, applicationId, s, variables).requiredVariables
         == CompileMobileScenario(platform, applicationId, t, variables).requiredVariables
  {
    var xs, ys := Operations(s, variables), Operations(t, variables);
    forall i | 0 <= i < |xs| ensures OperationLine(xs[i]) == OperationLine(ys[i]) {
      if i < |s.steps| {
        LineIgnoresRuntime(s.templateSteps[i], s.steps[i], t.steps[i], Names(s.bindings), variables);
      }
    }
    hide OperationLine, OperationFor, OpenLine, ContextLine;
    assert ScriptLines(platform, applicationId, xs) == ScriptLines(platform, applicationId, ys);
  }

  // ---------------------------------------------------------------- replay divergence

  /** In an accepted payload, plan step i + 2 is scenario step i, and no other. */
  lemma PlanStepIsScenarioStep(payload: Payload, required: seq<Text>, platform: Platform, applicationId: Text,
                               variables: Variables, p: int)
    requires Accepted(payload, required, platform, applicationId, variables)
    ensures
      var ranges := payload.stepRanges;
      ReplayScenarioStepIndex(Some(p), ranges) == if p < 2 then 0 else if p < |ranges| + 2 then p - 2 else |ranges| - 1
  {
    var ranges := payload.stepRanges;
    assert forall i :: 0 <= i < |ranges| ==> ranges[i] == StepRange(i + 2, i + 2);
    hide SupportsScenarioScript, HasExactVariables, ValidRanges, MatchesSchema, ScriptLinesOf;
    if 2 <= p < |ranges| + 2 {
      assert ranges[p - 2].from <= p <= ranges[p - 2].to;
    }
  }

  lemma DivergedAt(steps: nat, planStep: Option<int>, ranges: seq<StepRange>, i: nat)
    requires ReplayScenarioStepIndex(planStep, ranges) == i
    ensures DivergentScenarioExecution(steps, planStep, ranges)
         == if i < steps then seq(i, _ => Passed) + [Diverged] else seq(steps, _ => Passed)
  {
    hide ReplayScenarioStepIndex;
  }

  /** A divergence without a plan step is reported at the first step. */
  lemma UnplacedDivergence(steps: nat, ranges: seq<StepRange>)
    requires steps > 0
    ensures DivergentScenarioExecution(steps, None, ranges) == [Diverged]
  {
    DivergedAt(steps, None, ranges, 0);
  }

  /** A replay that diverges at plan step i + 2 is reported as i passed steps and a diverged one. */
  lemma DivergenceIsReportedAtItsStep(platform: Platform, applicationId: Text, s: Scenario, variables: Variables,
          i: nat)
    requires CompiledIsAccepted(platform, applicationId, s, variables) && i < |s.templateSteps|
    ensures
      var ranges := CompileMobileScenario(platform, applicationId, s, variables).payload.stepRanges;
      DivergentScenarioExecution(|s.templateSteps|, Some(i + 2), ranges) == seq(i, _ => Passed) + [Diverged]
  {
    var compiled := CompileMobileScenario(platform, applicationId, s, variables);
    assert |compiled.payload.stepRanges| == |s.templateSteps|;
    hide CompileMobileScenario, Accepted, ReplayScenarioStepIndex, DivergentScenarioExecution;
    PlanStepIsScenarioStep(compiled.payload, compiled.requiredVariables, platform, applicationId, variables, i + 2);
    DivergedAt(|s.templateSteps|, Some(i + 2), compiled.payload.stepRanges, i);
  }
}
