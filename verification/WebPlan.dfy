/**
 Web execution plans: the payload of packages/web/src/execution-cache/web-cache-schema.ts, the
 editor that replaces one locator (web-plan-editor.ts) and the role check of a step
 (web-cache-instructions.ts).
 */
module WebPlan {
  import opened Wrappers

  // ---------------------------------------------------------------- payloads

  datatype Segment = Literal(text: string) | Variable(name: string)

  datatype Template = Template(segments: seq<Segment>)

  datatype Locator = Locator(selector: Template, nth: Option<nat>)

  datatype WaitState = Attached | Detached | BecomesVisible | BecomesHidden

  datatype Count = Exactly(n: nat) | Bound(name: string)

  datatype Instruction =
    | Navigate(url: Template)
    | Click(locator: Locator)
    | Fill(locator: Locator, value: Template)
    | TypeText(locator: Locator, value: Template)
    | Hover(locator: Locator)
    | SelectOption(locator: Locator, values: seq<Template>)
    | WaitFor(locator: Locator, state: WaitState)
    | Exists(locator: Locator)
    | Visible(locator: Locator)
    | Hidden(locator: Locator)
    | TextEquals(locator: Locator, expected: Template)
    | TextContains(locator: Locator, expected: Template)
    | ValueEquals(locator: Locator, expected: Template)
    | CountEquals(counted: Template, count: Count)
    | UrlEquals(expected: Template)

  datatype Step = Step(instructions: seq<Instruction>)

  datatype Payload = Payload(steps: seq<Step>)

  datatype StepIdentity = StepIdentity(scenarioRevision: string, index: int)

  // planDigest is injective: the digest of a value is the value under a constructor.
  datatype Digest<+T> = DigestOf(value: T)

  datatype Reason = InvalidPayload | AssertionChange | WriteConflict | IncompletePlan

  // ---------------------------------------------------------------- schema

  predicate IsLetter(c: char) {
    'A' <= c <= 'Z' || 'a' <= c <= 'z' || c == '_'
  }

  predicate IsVariableName(name: string) {
    name != [] && IsLetter(name[0])
    && forall c | c in name :: IsLetter(c) || '0' <= c <= '9' || c == '.' || c == '-'
  }

  predicate ValidTemplate(t: Template) {
    t.segments != [] && forall s | s in t.segments :: s.Variable? ==> IsVariableName(s.name)
  }

  predicate ValidLocator(l: Locator) {
    ValidTemplate(l.selector)
  }

  predicate ValidInstruction(i: Instruction) {
    match i
    case Navigate(url) => ValidTemplate(url)
    case Click(l) => ValidLocator(l)
    case Fill(l, value) => ValidLocator(l) && ValidTemplate(value)
    case TypeText(l, value) => ValidLocator(l) && ValidTemplate(value)
    case Hover(l) => ValidLocator(l)
    case SelectOption(l, values) => ValidLocator(l) && values != [] && forall v | v in values :: ValidTemplate(v)
    case WaitFor(l, _) => ValidLocator(l)
    case Exists(l) => ValidLocator(l)
    case Visible(l) => ValidLocator(l)
    case Hidden(l) => ValidLocator(l)
    case TextEquals(l, expected) => ValidLocator(l) && ValidTemplate(expected)
    case TextContains(l, expected) => ValidLocator(l) && ValidTemplate(expected)
    case ValueEquals(l, expected) => ValidLocator(l) && ValidTemplate(expected)
    case CountEquals(counted, count) => ValidTemplate(counted) && (count.Bound? ==> IsVariableName(count.name))
    case UrlEquals(expected) => ValidTemplate(expected)
  }

  /** webExecutionCachePayloadSchema, beyond what the types say. */
  predicate ValidPayload(p: Payload) {
    forall step | step in p.steps ::
      step.instructions != [] && forall i | i in step.instructions :: ValidInstruction(i)
  }

  // ---------------------------------------------------------------- variables

  function TemplateVariables(t: Template): set<string> {
    set s | s in t.segments && s.Variable? :: s.name
  }

  function TemplatesVariables(ts: seq<Template>): set<string> {
    set t, v | t in ts && v in TemplateVariables(t) :: v
  }

  function LocatorVariables(l: Locator): set<string> {
    TemplateVariables(l.selector)
  }

  /** The variables that an editable instruction enters into the page. */
  function ValueVariables(i: Instruction): set<string> {
    match i
    case Fill(_, value) => TemplateVariables(value)
    case TypeText(_, value) => TemplateVariables(value)
    case SelectOption(_, values) => TemplatesVariables(values)
    case _ => {}
  }

  /** webInstructionVariables: every variable of an instruction. */
  function InstructionVariables(i: Instruction): set<string> {
    match i
    case Navigate(url) => TemplateVariables(url)
    case Click(l) => LocatorVariables(l)
    case Fill(l, value) => LocatorVariables(l) + TemplateVariables(value)
    case TypeText(l, value) => LocatorVariables(l) + TemplateVariables(value)
    case Hover(l) => LocatorVariables(l)
    case SelectOption(l, values) => LocatorVariables(l) + TemplatesVariables(values)
    case WaitFor(l, _) => LocatorVariables(l)
    case Exists(l) => LocatorVariables(l)
    case Visible(l) => LocatorVariables(l)
    case Hidden(l) => LocatorVariables(l)
    case TextEquals(l, expected) => LocatorVariables(l) + TemplateVariables(expected)
    case TextContains(l, expected) => LocatorVariables(l) + TemplateVariables(expected)
    case ValueEquals(l, expected) => LocatorVariables(l) + TemplateVariables(expected)
    case CountEquals(counted, count) => TemplateVariables(counted) + (if count.Bound? then {count.name} else {})
    case UrlEquals(expected) => TemplateVariables(expected)
  }

  /** parseWebExecutionCachePayload accepts a valid payload when its variables are all required ones. */
  predicate KnownVariables(p: Payload, required: set<string>) {
    forall step | step in p.steps :: forall i | i in step.instructions :: InstructionVariables(i) <= required
  }

  function LowerCase(s: string): string {
    seq(|s|, i requires 0 <= i < |s| => if 'A' <= s[i] <= 'Z' then s[i] + 32 as char else s[i])
  }

  predicate Contains(s: string, part: string) {
    part <= s || (s != [] && Contains(s[1..], part))
  }

  predicate IsSensitive(name: string) {
    var lower := LowerCase(name);
    || Contains(lower, "password") || Contains(lower, "secret") || Contains(lower, "token")
    || Contains(lower, "credential") || Contains(lower, "auth")
    || Contains(lower, "apikey") || Contains(lower, "api-key") || Contains(lower, "api_key")
    || Contains(lower, "api.key")
  }

  predicate HasSensitiveInput(i: Instruction) {
    exists v | v in ValueVariables(i) :: IsSensitive(v)
  }

  // ---------------------------------------------------------------- step roles

  datatype StepType = Context | Action | OutcomeStep

  predicate IsAssertion(i: Instruction) {
    || i.Exists? || i.Visible? || i.Hidden? || i.TextEquals? || i.TextContains?
    || i.ValueEquals? || i.CountEquals? || i.UrlEquals?
  }

  predicate ValidInstructionsForStep(instructions: seq<Instruction>, stepType: StepType) {
    instructions != []
    && var substantive := if instructions[0].Navigate? then instructions[1..] else instructions;
       if stepType.OutcomeStep?
       then substantive != [] && forall i | i in substantive :: IsAssertion(i)
       else forall i | i in instructions :: !IsAssertion(i)
  }

  /** projectWebExecutionPlan does not throw. */
  predicate Projects(p: Payload, scenarioSteps: seq<StepType>) {
    forall i | 0 <= i < |p.steps| ::
      i < |scenarioSteps| && ValidInstructionsForStep(p.steps[i].instructions, scenarioSteps[i])
  }

  // ---------------------------------------------------------------- the editor

  datatype Edit = Edit(step: StepIdentity, instructionIndex: int, expected: Digest<Instruction>, locator: Locator)

  predicate IsEditable(i: Instruction) {
    i.Click? || i.Fill? || i.TypeText? || i.Hover? || i.SelectOption?
  }

  function WithLocator(i: Instruction, locator: Locator): Instruction
    requires IsEditable(i)
  {
    match i
    case Click(_) => Click(locator)
    case Fill(_, value) => Fill(locator, value)
    case TypeText(_, value) => TypeText(locator, value)
    case Hover(_) => Hover(locator)
    case SelectOption(_, values) => SelectOption(locator, values)
  }

  function ValidateInstruction(i: Instruction, required: set<string>, edit: Edit): Result<(), Reason> {
    if !IsEditable(i) then Err(AssertionChange)
    else if DigestOf(i) != edit.expected then Err(WriteConflict)
    else if !(LocatorVariables(edit.locator) <= required) then Err(InvalidPayload)
    else if HasSensitiveInput(i) then Err(AssertionChange)
    else Ok(())
  }

  predicate StepMatches(steps: seq<StepIdentity>, expected: StepIdentity) {
    0 <= expected.index < |steps| && steps[expected.index] == expected
  }

  predicate HasInstruction(p: Payload, step: int, index: int) {
    0 <= step < |p.steps| && 0 <= index < |p.steps[step].instructions|
  }

  function ValidateEdit(p: Payload, steps: seq<StepIdentity>, required: set<string>,
          edit: Edit): Result<Instruction, Reason> {
    if edit.instructionIndex < 0 then Err(InvalidPayload)
    else if !StepMatches(steps, edit.step) then Err(InvalidPayload)
    else if !HasInstruction(p, edit.step.index, edit.instructionIndex) then Err(InvalidPayload)
    else
      var instruction := p.steps[edit.step.index].instructions[edit.instructionIndex];
      var _ :- ValidateInstruction(instruction, required, edit);
      Ok(instruction)
  }

  function Put(p: Payload, step: nat, index: nat, i: Instruction): Payload
    requires HasInstruction(p, step, index)
  {
    Payload(p.steps[step := Step(p.steps[step].instructions[index := i])])
  }

  /** replaceWebInteractionTarget: one action's locator is replaced, the rest is preserved. */
  function ReplaceTarget(p: Payload, steps: seq<StepIdentity>, required: set<string>,
          edit: Edit): Result<Payload, Reason> {
    var instruction :- ValidateEdit(p, steps, required, edit);
    var edited := Put(p, edit.step.index, edit.instructionIndex, WithLocator(instruction, edit.locator));
    if ValidPayload(edited) then Ok(edited) else Err(InvalidPayload)
  }

  function ApplyEdits(p: Payload, steps: seq<StepIdentity>, required: set<string>,
          edits: seq<Edit>): Result<Payload, Reason>
    decreases edits
  {
    if edits == [] then Ok(p)
    else
      var edited :- ReplaceTarget(p, steps, required, edits[0]);
      ApplyEdits(edited, steps, required, edits[1..])
  }

  // ---------------------------------------------------------------- what an edit can change

  /** `candidate` is `baseline` or differs from it in the locator of an action without sensitive input. */
  predicate AllowedChange(baseline: Instruction, candidate: Instruction) {
    || candidate == baseline
    || (&& IsEditable(baseline) && !HasSensitiveInput(baseline)
        && IsEditable(candidate) && candidate == WithLocator(baseline, candidate.locator))
  }

  /** The payloads differ in nothing but such locators. */
  predicate OnlyLocatorEdits(baseline: Payload, candidate: Payload) {
    && |candidate.steps| == |baseline.steps|
    && forall i | 0 <= i < |baseline.steps| ::
      && |candidate.steps[i].instructions| == |baseline.steps[i].instructions|
      && forall j | 0 <= j < |baseline.steps[i].instructions| ::
        AllowedChange(baseline.steps[i].instructions[j], candidate.steps[i].instructions[j])
  }

  /** Every instruction but one is as it was. */
  predicate OthersStay(p: Payload, q: Payload, step: int, index: int) {
    && |q.steps| == |p.steps|
    && forall i | 0 <= i < |p.steps| ::
      && |q.steps[i].instructions| == |p.steps[i].instructions|
      && forall j | 0 <= j < |p.steps[i].instructions| ::
        (i == step && j == index) || q.steps[i].instructions[j] == p.steps[i].instructions[j]
  }

  lemma ReplaceChangesOneLocator(p: Payload, steps: seq<StepIdentity>, required: set<string>, edit: Edit)
    requires ReplaceTarget(p, steps, required, edit).Ok?
    ensures
      var edited := ReplaceTarget(p, steps, required, edit).value;
      && OnlyLocatorEdits(p, edited) && ValidPayload(edited)
      && OthersStay(p, edited, edit.step.index, edit.instructionIndex)
      && HasInstruction(p, edit.step.index, edit.instructionIndex)
      && HasInstruction(edited, edit.step.index, edit.instructionIndex)
      && p.steps[edit.step.index].instructions[edit.instructionIndex] == edit.expected.value
      && IsEditable(edit.expected.value)
      && edited.steps[edit.step.index].instructions[edit.instructionIndex]
         == WithLocator(edit.expected.value, edit.locator)
      && LocatorVariables(edit.locator) <= required
  {
  }

  lemma AllowedChangeTransitive(a: Instruction, b: Instruction, c: Instruction)
    requires AllowedChange(a, b) && AllowedChange(b, c)
    ensures AllowedChange(a, c)
  {
  }

  lemma OnlyLocatorEditsTransitive(a: Payload, b: Payload, c: Payload)
    requires OnlyLocatorEdits(a, b) && OnlyLocatorEdits(b, c)
    ensures OnlyLocatorEdits(a, c)
  {
    forall i, j | 0 <= i < |a.steps| && 0 <= j < |a.steps[i].instructions|
      ensures AllowedChange(a.steps[i].instructions[j], c.steps[i].instructions[j])
    {
      AllowedChangeTransitive(a.steps[i].instructions[j], b.steps[i].instructions[j], c.steps[i].instructions[j]);
    }
  }

  lemma AllowedChangeKeepsVariables(a: Instruction, b: Instruction, required: set<string>)
    requires AllowedChange(a, b) && InstructionVariables(a) <= required
    requires a != b ==> LocatorVariables(b.locator) <= required
    ensures InstructionVariables(b) <= required
  {
  }

  lemma ReplaceKeepsVariables(p: Payload, steps: seq<StepIdentity>, required: set<string>, edit: Edit)
    requires KnownVariables(p, required) && ReplaceTarget(p, steps, required, edit).Ok?
    ensures KnownVariables(ReplaceTarget(p, steps, required, edit).value, required)
  {
    var edited := ReplaceTarget(p, steps, required, edit).value;
    ReplaceChangesOneLocator(p, steps, required, edit);
    hide ReplaceTarget, OthersStay, AllowedChange, InstructionVariables, LocatorVariables, ValidPayload;
    forall i, j | 0 <= i < |edited.steps| && 0 <= j < |edited.steps[i].instructions|
      ensures InstructionVariables(edited.steps[i].instructions[j]) <= required
    {
      var before := p.steps[i].instructions[j];
      assert p.steps[i] in p.steps && before in p.steps[i].instructions;
      AllowedChangeKeepsVariables(before, edited.steps[i].instructions[j], required);
    }
  }

  lemma AllowedChangeKeepsKind(a: Instruction, b: Instruction)
    requires AllowedChange(a, b)
    ensures IsAssertion(a) == IsAssertion(b) && a.Navigate? == b.Navigate? && IsEditable(a) == IsEditable(b)
  {
  }

  lemma RoleKept(before: seq<Instruction>, after: seq<Instruction>, stepType: StepType)
    requires |before| == |after| && forall j :: 0 <= j < |before| ==> AllowedChange(before[j], after[j])
    requires ValidInstructionsForStep(before, stepType)
    ensures ValidInstructionsForStep(after, stepType)
  {
    forall j | 0 <= j < |before|
      ensures IsAssertion(before[j]) == IsAssertion(after[j]) && before[j].Navigate? == after[j].Navigate?
    {
      AllowedChangeKeepsKind(before[j], after[j]);
    }
    hide AllowedChange, IsAssertion;
    if stepType.OutcomeStep? {
      var k := if before[0].Navigate? then 1 else 0;
      var s, t := before[k..], after[k..];
      forall i | i in t ensures IsAssertion(i) {
        var j :| 0 <= j < |t| && t[j] == i;
        assert s[j] in s;
      }
    } else {
      forall i | i in after ensures !IsAssertion(i) {
        var j :| 0 <= j < |after| && after[j] == i;
        assert before[j] in before;
      }
    }
  }

  lemma OnlyLocatorEditsKeepRoles(p: Payload, q: Payload, scenarioSteps: seq<StepType>)
    requires OnlyLocatorEdits(p, q) && Projects(p, scenarioSteps)
    ensures Projects(q, scenarioSteps)
  {
    forall i | 0 <= i < |q.steps|
      ensures i < |scenarioSteps| && ValidInstructionsForStep(q.steps[i].instructions, scenarioSteps[i])
    {
      RoleKept(p.steps[i].instructions, q.steps[i].instructions, scenarioSteps[i]);
    }
  }

  lemma NoEdits(p: Payload)
    ensures OnlyLocatorEdits(p, p)
  {
  }

  /** Every chain of successful edits only changes locators, and keeps the payload acceptable. */
  lemma {:induction false} EditChain(p: Payload, steps: seq<StepIdentity>, required: set<string>, edits: seq<Edit>)
    requires ValidPayload(p) && KnownVariables(p, required) && ApplyEdits(p, steps, required, edits).Ok?
    ensures
      var edited := ApplyEdits(p, steps, required, edits).value;
      OnlyLocatorEdits(p, edited) && ValidPayload(edited) && KnownVariables(edited, required)
    decreases edits
  {
    hide ReplaceTarget, OnlyLocatorEdits, ValidPayload, KnownVariables;
    if edits == [] {
      NoEdits(p);
    } else {
      var first := ReplaceTarget(p, steps, required, edits[0]).value;
      ReplaceChangesOneLocator(p, steps, required, edits[0]);
      ReplaceKeepsVariables(p, steps, required, edits[0]);
      EditChain(first, steps, required, edits[1..]);
      OnlyLocatorEditsTransitive(p, first, ApplyEdits(first, steps, required, edits[1..]).value);
    }
  }
}
