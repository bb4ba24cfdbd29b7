/**
 The validation of a cached script before it is replayed, of
 packages/mobile/src/execution-cache/mobile-execution-cache.ts.
 */
module MobileExecutionCache {
  import opened Wrappers
  import opened JsonText
  import opened MobileScript
  import JsonGrammar

  // ---------------------------------------------------------------- step ranges

  /** The ranges start after plan step 1, none is empty, and each starts after the one before. */
  ghost predicate ValidRanges(ranges: seq<StepRange>) {
    && (forall i :: 0 <= i < |ranges| ==> 1 < ranges[i].from <= ranges[i].to)
    && (forall i, j :: 0 <= i < j < |ranges| ==> ranges[i].to < ranges[j].from)
  }

  method HasValidRanges(ranges: seq<StepRange>) returns (valid: bool)
    ensures valid <==> ValidRanges(ranges)
  {
    var previous := 1;
    for i := 0 to |ranges|
      invariant ValidRanges(ranges[..i])
      invariant previous == if i == 0 then 1 else ranges[i - 1].to
    {
      if ranges[i].from > ranges[i].to || ranges[i].from <= previous {
        assert i > 0 ==> ranges[i - 1].to == previous;
        return false;
      }
      previous := ranges[i].to;
    }
    assert ranges[..|ranges|] == ranges;
    return true;
  }

  // ---------------------------------------------------------------- placeholders

  /** The length of a `${variable}` at the start of the text. */
  function PlaceholderLength(t: Text): (r: Option<nat>)
    ensures r.Some? ==> 4 <= r.value <= |t| && CLOSE_BRACE !in t[2..r.value - 1]
    ensures r.Some? ==> t[..r.value] == Placeholder(t[2..r.value - 1])
  {
    if |t| < 2 || t[0] != DOLLAR || t[1] != OPEN_BRACE then None
    else
      match IndexOf(t[2..], CLOSE_BRACE)
      case None => None
      case Some(k) =>
        if k == 0 then None
        else
          assert t[2..k + 2] == t[2..][..k];
          Some(k + 3)
  }

  /** What the placeholder pattern matches in turn. */
  function Placeholders(t: Text): seq<Text> {
    if t == [] then []
    else
      match PlaceholderLength(t)
      case None => Placeholders(t[1..])
      case Some(n) => [t[2..n - 1]] + Placeholders(t[n..])
  }

  predicate IsUpper(u: nat) {
    0x41 <= u <= 0x5A
  }

  predicate IsLetter(u: nat) {
    IsUpper(u) || 0x61 <= u <= 0x7A
  }

  predicate IsReplayVariable(t: Text) {
    && t != []
    && (IsUpper(t[0]) || t[0] == 0x5F)
    && forall i :: 1 <= i < |t| ==> IsUpper(t[i]) || IsDigit(t[i]) || t[i] == 0x5F
  }

  predicate IsVariableName(t: Text) {
    && t != []
    && (IsLetter(t[0]) || t[0] == 0x5F)
    && forall i :: 1 <= i < |t| ==> IsLetter(t[i]) || IsDigit(t[i]) || t[i] == 0x5F || t[i] == DOT || t[i] == MINUS
  }

  predicate IsReserved(t: Text) {
    StartsWith(t, Ascii("AD_"))
  }

  predicate Replayable(t: Text) {
    IsReplayVariable(t) && !IsReserved(t)
  }

  /** A Set of the texts: each once, where it is first. */
  function Distinct(ts: seq<Text>): seq<Text> {
    if ts == [] then []
    else
      var before := Distinct(ts[..|ts| - 1]);
      if ts[|ts| - 1] in before then before else before + [ts[|ts| - 1]]
  }

  function VariablesOf(script: Text): Option<seq<Text>> {
    if forall v :: v in Placeholders(script) ==> Replayable(v) then Some(Distinct(Placeholders(script))) else None
  }

  method ScriptVariables(script: Text) returns (r: Option<seq<Text>>)
    ensures r == VariablesOf(script)
  {
    var variables: seq<Text> := [];
    var matches := Placeholders(script);
    for i := 0 to |matches|
      invariant variables == matches[..i]
      invariant forall v :: v in matches[..i] ==> Replayable(v)
    {
      if !Replayable(matches[i]) {
        return None;
      }
      variables := variables + [matches[i]];
    }
    assert matches[..|matches|] == matches;
    return Some(Distinct(variables));
  }

  function Unique(ts: seq<Text>): (unique: bool) {
    |Distinct(ts)| == |ts|
  }

  predicate HasExactVariables(script: Text, required: seq<Text>, variables: Variables) {
    && Unique(required)
    && (forall name :: name in required ==> IsVariableName(name) && !IsReserved(name))
    && VariablesOf(script).Some?
    && |VariablesOf(script).value| == |required|
    && (forall v :: v in VariablesOf(script).value ==> Stands(v, required, variables))
  }

  /** The variable stands for one of the names. */
  predicate Stands(v: Text, names: seq<Text>, variables: Variables) {
    exists name :: name in names && v == variables(name)
  }

  // ---------------------------------------------------------------- script lines

  function Split(t: Text): (lines: seq<Text>)
    ensures lines != []
  {
    match IndexOf(t, NEWLINE)
    case None => [t]
    case Some(i) => [t[..i]] + Split(t[i + 1..])
  }

  function NonEmpty(lines: seq<Text>): seq<Text> {
    if lines == [] then [] else (if lines[0] == [] then [] else [lines[0]]) + NonEmpty(lines[1..])
  }

  function ScriptLinesOf(script: Text): seq<Text> {
    NonEmpty(Split(script))
  }

  /** The length of a quoted argument, from inside it: `(?:\\.|[^"\\])*"`. */
  function QuotedRest(t: Text): (r: Option<nat>)
    ensures r.Some? ==> 0 < r.value <= |t|
  {
    if t == [] then None
    else if t[0] == QUOTE then Some(1)
    else
      var n := if t[0] == BACKSLASH then 2 else 1;
      if n > |t| || (n == 2 && IsLineEnd(t[1])) then None
      else match QuotedRest(t[n..]) case None => None case Some(k) => Some(n + k)
  }

  function QuotedLength(t: Text): (r: Option<nat>)
    ensures r.Some? ==> 2 <= r.value <= |t| && t[0] == QUOTE
  {
    if t == [] || t[0] != QUOTE then None
    else match QuotedRest(t[1..]) case None => None case Some(k) => Some(k + 1)
  }

  /** What follows the prefix and a quoted argument. */
  function AfterQuoted(line: Text, prefix: Text): Option<Text> {
    if !StartsWith(line, prefix) then None
    else
      var rest := line[|prefix|..];
      match QuotedLength(rest)
      case None => None
      case Some(n) => Some(rest[n..])
  }

  predicate IsWaitText(line: Text) {
    AfterQuoted(line, Ascii("wait text ")) == Some([])
  }

  predicate IsFindClick(line: Text) {
    AfterQuoted(line, Ascii("find ")) == Some(Ascii(" click"))
  }

  predicate IsStateAssertion(line: Text) {
    exists p: Predicate :: p != TextIs && AfterQuoted(line, AssertionPrefix(p)) == Some([])
  }

  function AssertionPrefix(p: Predicate): Text {
    Ascii("is ") + Ascii(Name(p)) + Ascii(" ")
  }

  predicate IsTextAssertion(line: Text) {
    match AfterQuoted(line, AssertionPrefix(TextIs))
    case None => false
    case Some(rest) => AfterQuoted(rest, Ascii(" ")) == Some([])
  }

  predicate IsOperation(line: Text) {
    IsWaitText(line) || IsFindClick(line) || IsStateAssertion(line) || IsTextAssertion(line)
  }

  predicate OpensApplication(line: Text, applicationId: Text) {
    && AfterQuoted(line, Ascii("open ")) == Some(Ascii(" --relaunch"))
    && JsonGrammar.DecodeString(line[5..|line| - 11]) == Some(applicationId)
  }

  function CountContexts(lines: seq<Text>): nat {
    if lines == [] then 0 else (if StartsWith(lines[0], Ascii("context ")) then 1 else 0) + CountContexts(lines[1..])
  }

  predicate SupportsScenarioScript(script: Text, platform: Platform, applicationId: Text) {
    var lines := ScriptLinesOf(script);
    && script != [] && script[|script| - 1] == NEWLINE && 0 !in script
    && |lines| >= 2 && lines[0] == ContextLine(platform)
    && CountContexts(lines) == 1
    && OpensApplication(lines[1], applicationId)
    && (forall i :: 2 <= i < |lines| ==> IsOperation(lines[i]))
  }

  predicate RangesMatchScenarioOperations(script: Text, ranges: seq<StepRange>) {
    && |ranges| == |ScriptLinesOf(script)| - 2
    && forall i :: 0 <= i < |ranges| ==> ranges[i] == StepRange(i + 2, i + 2)
  }

  // ---------------------------------------------------------------- parsing a payload

  /** The payload's schema: something to run, at least one step, positive plan steps. */
  predicate MatchesSchema(payload: Payload) {
    && payload.script != [] && payload.stepRanges != []
    && forall i :: 0 <= i < |payload.stepRanges| ==> payload.stepRanges[i].from > 0 && payload.stepRanges[i].to > 0
  }

  ghost predicate Accepted(payload: Payload, required: seq<Text>, platform: Platform, applicationId: Text,
          variables: Variables) {
    && MatchesSchema(payload)
    && ValidRanges(payload.stepRanges)
    && RangesMatchScenarioOperations(payload.script, payload.stepRanges)
    && SupportsScenarioScript(payload.script, platform, applicationId)
    && HasExactVariables(payload.script, required, variables)
  }

  method Parse(payload: Payload, required: seq<Text>, platform: Platform, applicationId: Text, variables: Variables)
      returns (parsed: Option<Payload>)
    ensures parsed == if Accepted(payload, required, platform, applicationId, variables) then Some(payload) else None
  {
    if !MatchesSchema(payload) {
      return None;
    }
    var valid := HasValidRanges(payload.stepRanges);
    if !valid || !RangesMatchScenarioOperations(payload.script, payload.stepRanges)
       || !SupportsScenarioScript(payload.script, platform, applicationId) {
      return None;
    }
    var exact := CheckExactVariables(payload.script, required, variables);
    return if exact then Some(payload) else None;
  }

  method CheckExactVariables(script: Text, required: seq<Text>, variables: Variables) returns (exact: bool)
    ensures exact == HasExactVariables(script, required, variables)
  {
    if !Unique(required) || exists name :: name in required && (!IsVariableName(name) || IsReserved(name)) {
      return false;
    }
    var found := ScriptVariables(script);
    if found.None? || |found.value| != |required| {
      return false;
    }
    return forall v :: v in found.value ==> Stands(v, required, variables);
  }

  // ---------------------------------------------------------------- replay divergence

  /** The scenario step at which a replay diverged, by the plan step it reports, if it reports one. */
  function ReplayScenarioStepIndex(planStep: Option<int>, ranges: seq<StepRange>): (index: nat) {
    match planStep
    case None => 0
    case Some(p) =>
      match RangeOf(p, ranges)
      case Some(i) => i
      case None =>
        if ranges == [] || p < ranges[0].from then 0 else |ranges| - 1
  }

  function RangeOf(p: int, ranges: seq<StepRange>): (r: Option<nat>)
    ensures r.Some? ==> r.value < |ranges| && ranges[r.value].from <= p <= ranges[r.value].to
    ensures r.None? ==> forall i :: 0 <= i < |ranges| ==> !(ranges[i].from <= p <= ranges[i].to)
  {
    if ranges == [] then None
    else if ranges[0].from <= p <= ranges[0].to then Some(0)
    else match RangeOf(p, ranges[1..]) case None => None case Some(i) => Some(i + 1)
  }

  datatype StepState = Passed | Diverged

  /** The step executions a diverged replay reports for a scenario with that many steps. */
  function DivergentScenarioExecution(steps: nat, planStep: Option<int>, ranges: seq<StepRange>): seq<StepState> {
    var failed := ReplayScenarioStepIndex(planStep, ranges);
    seq(if failed < steps then failed + 1 else steps, i => if i == failed then Diverged else Passed)
  }
}
