/**
 The compiler of packages/mobile/src/agent-device/mobile-ad-script.ts: a scenario becomes a script
 with one operation line for each step, in which bound variables are placeholders.

 Text is a sequence of UTF-16 code units.  `Variables` says how a binding's name becomes the name
 of a replay variable, for which the program takes a SHA-256 digest.
 */
module MobileScript {
  import opened Wrappers
  import opened JsonText

  function Ascii(s: string): (t: Text)
    ensures |t| == |s| && forall i :: 0 <= i < |s| ==> t[i] == s[i] as nat
  {
    seq(|s|, i requires 0 <= i < |s| => s[i] as nat)
  }

  predicate StartsWith(t: Text, prefix: Text) {
    |prefix| <= |t| && t[..|prefix|] == prefix
  }

  predicate Contains(t: Text, part: Text) {
    StartsWith(t, part) || (t != [] && Contains(t[1..], part))
  }

  function IndexOf(t: Text, u: nat): (r: Option<nat>)
    ensures r.Some? ==> r.value < |t| && t[r.value] == u && forall j :: 0 <= j < r.value ==> t[j] != u
    ensures r.None? ==> u !in t
  {
    if t == [] then None
    else if t[0] == u then Some(0)
    else match IndexOf(t[1..], u) case None => None case Some(i) => Some(i + 1)
  }

  // ---------------------------------------------------------------- variables

  const DOLLAR: nat := 0x24
  const LESS: nat := 0x3C
  const GREATER: nat := 0x3E

  // How a binding's name becomes the name of its replay variable.
  type Variables = Text -> Text

  function Placeholder(variable: Text): Text {
    [DOLLAR, OPEN_BRACE] + variable + [CLOSE_BRACE]
  }

  /** The length of a `<name>` at the start of the text. */
  function TagLength(t: Text): (r: Option<nat>)
    ensures r.Some? ==> 3 <= r.value <= |t| && t[0] == LESS && t[r.value - 1] == GREATER
  {
    if t == [] || t[0] != LESS then None
    else
      match IndexOf(t[1..], GREATER)
      case None => None
      case Some(k) => if k == 0 then None else Some(k + 2)
  }

  /** Every `<name>` of a bound name becomes its placeholder; any other stays. */
  function ReplaceVariables(t: Text, names: seq<Text>, variables: Variables): Text {
    if t == [] then []
    else
      match TagLength(t)
      case None => [t[0]] + ReplaceVariables(t[1..], names, variables)
      case Some(n) =>
        var name := t[1..n - 1];
        (if name in names then Placeholder(variables(name)) else t[..n]) + ReplaceVariables(t[n..], names, variables)
  }

  // ---------------------------------------------------------------- assertions

  datatype Predicate = TextIs | Visible | Hidden | Exists | Editable | Selected | Focused

  function Name(p: Predicate): string {
    match p
    case TextIs => "text"
    case Visible => "visible"
    case Hidden => "hidden"
    case Exists => "exists"
    case Editable => "editable"
    case Selected => "selected"
    case Focused => "focused"
  }

  const PREDICATES: seq<Predicate> := [TextIs, Visible, Hidden, Exists, Editable, Selected, Focused]

  predicate IsLineEnd(u: nat) {
    u == 0x0A || u == 0x0D || u == 0x2028 || u == 0x2029
  }

  predicate IsSpace(u: nat) {
    || IsLineEnd(u) || u == 0x09 || u == 0x0B || u == 0x0C || u == 0x20 || u == 0xA0 || u == 0x1680
    || 0x2000 <= u <= 0x200A || u == 0x202F || u == 0x205F || u == 0x3000 || u == 0xFEFF
  }

  function SpaceLength(t: Text): (n: nat)
    ensures n <= |t| && forall i :: 0 <= i < n ==> IsSpace(t[i])
  {
    if t != [] && IsSpace(t[0]) then 1 + SpaceLength(t[1..]) else 0
  }

  /** `\s*(.+)$`: the body after the spaces, of which a body of spaces only needs the last one. */
  function BodyOf(t: Text): Option<Text> {
    var spaces := SpaceLength(t);
    var body := if spaces < |t| || spaces == 0 then t[spaces..] else t[spaces - 1..];
    if body == [] || exists u :: u in body && IsLineEnd(u) then None else Some(body)
  }

  datatype Assertion = Assertion(what: Predicate, body: Text)

  function AssertionIn(t: Text, predicates: seq<Predicate>): Option<Assertion> {
    if predicates == [] then None
    else
      var prefix := Ascii(Name(predicates[0])) + [COLON];
      if StartsWith(t, prefix) then
        match BodyOf(t[|prefix|..])
        case None => None
        case Some(body) => Some(Assertion(predicates[0], body))
      else AssertionIn(t, predicates[1..])
  }

  /** The text of an outcome that names one of the closed set of assertions. */
  function AssertionOf(t: Text): Option<Assertion> {
    AssertionIn(t, PREDICATES)
  }

  // ---------------------------------------------------------------- operations

  datatype StepType = Context | Action | Outcome

  datatype MobileStep = MobileStep(kind: StepType, text: Text)

  datatype Binding = Binding(name: Text, value: Text)

  datatype Scenario = Scenario(steps: seq<MobileStep>, templateSteps: seq<MobileStep>, bindings: seq<Binding>)

  datatype Platform = Ios | Android

  datatype Argument = Argument(template: Text, runtime: Text)

  datatype Operation =
    | WaitText(target: Argument)
    | FindClick(target: Argument)
    | Assert(what: Predicate, target: Argument, expected: Option<Argument>)

  /** Inside `text="..."`, quotes and backslashes are escaped. */
  function EscapeSelector(t: Text): Text {
    if t == [] then []
    else (if t[0] == QUOTE || t[0] == BACKSLASH then [BACKSLASH, t[0]] else [t[0]]) + EscapeSelector(t[1..])
  }

  function EscapedTextSelector(t: Text): Text {
    Ascii("text=") + [QUOTE] + EscapeSelector(t) + [QUOTE]
  }

  const EQUALS: Text := [0x20, 0x3D, 0x20]

  /** Where ` = ` first stands in the text. */
  function SeparatorIn(t: Text): (r: Option<nat>)
    ensures r.Some? ==> r.value + 3 <= |t|
  {
    if StartsWith(t, EQUALS) then Some(0)
    else if t == [] then None
    else match SeparatorIn(t[1..]) case None => None case Some(i) => Some(i + 1)
  }

  function AssertionOperation(template: MobileStep, runtime: MobileStep, names: seq<Text>,
          variables: Variables): Operation {
    match (AssertionOf(template.text), AssertionOf(runtime.text))
    case (Some(t), Some(r)) =>
      if t.what != TextIs then
        Assert(t.what, Argument(ReplaceVariables(t.body, names, variables), r.body), None)
      else
        (match (SeparatorIn(t.body), SeparatorIn(r.body))
         case (Some(i), Some(j)) =>
           Assert(TextIs,
                  Argument(ReplaceVariables(t.body[..i], names, variables), r.body[..j]),
                  Some(Argument(ReplaceVariables(t.body[i + 3..], names, variables), r.body[j + 3..])))
         case _ =>
           Assert(TextIs, Argument(ReplaceVariables(t.body, names, variables), r.body), Some(Argument([], []))))
    case _ =>
      var selector := ReplaceVariables(EscapedTextSelector(template.text), names, variables);
      Assert(Visible, Argument(selector, EscapedTextSelector(runtime.text)), None)
  }

  function OperationFor(template: MobileStep, runtime: MobileStep, names: seq<Text>, variables: Variables): Operation {
    match template.kind
    case Context => WaitText(Argument(ReplaceVariables(template.text, names, variables), runtime.text))
    case Action => FindClick(Argument(ReplaceVariables(template.text, names, variables), runtime.text))
    case Outcome => AssertionOperation(template, runtime, names, variables)
  }

  function ExpectedTemplate(expected: Option<Argument>): Text {
    match expected case None => [] case Some(argument) => argument.template
  }

  function OperationLine(operation: Operation): Text {
    match operation
    case WaitText(target) => Ascii("wait text ") + WriteString(target.template)
    case FindClick(target) => Ascii("find ") + WriteString(target.template) + Ascii(" click")
    case Assert(what, target, expected) =>
      Ascii("is ") + Ascii(Name(what)) + Ascii(" ") + WriteString(target.template)
      + (if what == TextIs then Ascii(" ") + WriteString(ExpectedTemplate(expected)) else [])
  }

  // ---------------------------------------------------------------- the compiled scenario

  datatype StepRange = StepRange(from: int, to: int)

  // The payload's format is always agent-device-ad.
  datatype Payload = Payload(script: Text, stepRanges: seq<StepRange>)

  datatype Compiled = Compiled(payload: Payload, requiredVariables: seq<Text>, runtimeEnv: seq<Text>)

  function Names(bindings: seq<Binding>): seq<Text> {
    seq(|bindings|, i requires 0 <= i < |bindings| => bindings[i].name)
  }

  function Operations(s: Scenario, variables: Variables): seq<Operation> {
    seq(|s.templateSteps|, i requires 0 <= i < |s.templateSteps| =>
      OperationFor(s.templateSteps[i], if i < |s.steps| then s.steps[i] else s.templateSteps[i], Names(s.bindings),
          variables))
  }

  /** The lines, each with its newline. */
  function Lines(lines: seq<Text>): Text {
    if lines == [] then [] else lines[0] + [NEWLINE] + Lines(lines[1..])
  }

  function ContextLine(platform: Platform): Text {
    Ascii(if platform.Ios? then "context platform=ios" else "context platform=android")
  }

  function OpenLine(applicationId: Text): Text {
    Ascii("open ") + WriteString(applicationId) + Ascii(" --relaunch")
  }

  function ScriptLines(platform: Platform, applicationId: Text, operations: seq<Operation>): seq<Text> {
    [ContextLine(platform), OpenLine(applicationId)]
    + seq(|operations|, i requires 0 <= i < |operations| => OperationLine(operations[i]))
  }

  /** The names whose placeholder occurs in the script, in their order. */
  function UsedVariableNames(script: Text, names: seq<Text>, variables: Variables): seq<Text> {
    if names == [] then []
    else
      (if Contains(script, Placeholder(variables(names[0]))) then [names[0]] else [])
      + UsedVariableNames(script, names[1..], variables)
  }

  /** The value of a name: a Map keeps the last binding. */
  function ValueOf(bindings: seq<Binding>, name: Text): Text {
    if bindings == [] then []
    else if bindings[|bindings| - 1].name == name then bindings[|bindings| - 1].value
    else ValueOf(bindings[..|bindings| - 1], name)
  }

  function PlanSteps(n: nat): seq<StepRange> {
    seq(n, i => StepRange(i + 2, i + 2))
  }

  function CompileMobileScenario(platform: Platform, applicationId: Text, s: Scenario, variables: Variables): Compiled {
    var operations := Operations(s, variables);
    var script := Lines(ScriptLines(platform, applicationId, operations));
    var required := UsedVariableNames(script, Names(s.bindings), variables);
    Compiled(
      Payload(script, PlanSteps(|operations|)),
      required,
      seq(|required|, i requires 0 <= i < |required| =>
        variables(required[i]) + [0x3D] + ValueOf(s.bindings, required[i])))
  }
}
