/**
 Which instructions an edit may touch
 (packages/web/src/execution-cache/web-plan-editor.ts and web-plan-validator.ts): actions on the
 page, unless they enter a variable whose name tells a secret.
 */
module WebPlanSecrets {
  import opened Wrappers
  import opened WebPlan
  import opened WebPlanValidator

  // ---------------------------------------------------------------- names that tell a secret

  const SECRETS: set<string> :=
    {"password", "secret", "token", "credential", "auth", "apikey", "api-key", "api_key", "api.key"}

  /** The character is the letter, in either case. */
  predicate IsLetterIn(c: char, letter: char) {
    c == letter || ('a' <= letter <= 'z' && c as int == letter as int - 32)
  }

  predicate SpelledAt(name: string, at: nat, word: string) {
    at + |word| <= |name| && forall j :: 0 <= j < |word| ==> IsLetterIn(name[at + j], word[j])
  }

  ghost predicate TellsSecret(name: string) {
    exists word, at: nat :: word in SECRETS && SpelledAt(name, at, word)
  }

  predicate IsLower(word: string) {
    forall j :: 0 <= j < |word| ==> !('A' <= word[j] <= 'Z')
  }

  lemma LowerLetter(c: char, letter: char)
    requires !('A' <= letter <= 'Z')
    ensures LowerCase([c])[0] == letter <==> IsLetterIn(c, letter)
  {
  }

  lemma StartSpelled(name: string, word: string)
    requires IsLower(word)
    ensures word <= LowerCase(name) <==> SpelledAt(name, 0, word)
  {
    var lower := LowerCase(name);
    forall j | 0 <= j < |word| && j < |name| ensures lower[j] == word[j] <==> IsLetterIn(name[j], word[j]) {
      LowerLetter(name[j], word[j]);
    }
    if SpelledAt(name, 0, word) {
      assert lower[..|word|] == word;
    }
    if word <= lower {
      assert forall j :: 0 <= j < |word| ==> lower[j] == word[j] && IsLetterIn(name[0 + j], word[j]);
    }
  }

  lemma {:induction false} ContainsSpelled(name: string, word: string)
    requires IsLower(word)
    ensures Contains(LowerCase(name), word) <==> exists at: nat :: SpelledAt(name, at, word)
    decreases |name|
  {
    StartSpelled(name, word);
    if name == [] {
      if at: nat :| SpelledAt(name, at, word) {
        assert SpelledAt(name, 0, word);
      }
    } else {
      ContainsSpelled(name[1..], word);
      assert LowerCase(name)[1..] == LowerCase(name[1..]);
      if at: nat :| SpelledAt(name, at, word) {
        assert at > 0 ==> SpelledAt(name[1..], at - 1, word);
      }
      if at: nat :| SpelledAt(name[1..], at, word) {
        assert SpelledAt(name, at + 1, word);
      }
    }
  }

  lemma SensitiveExactlyWhen(name: string)
    ensures IsSensitive(name) <==> TellsSecret(name)
  {
    forall word | word in SECRETS
      ensures Contains(LowerCase(name), word) <==> exists at: nat :: SpelledAt(name, at, word)
    {
      ContainsSpelled(name, word);
    }
    hide Contains, LowerCase, SpelledAt;
  }

  // ---------------------------------------------------------------- instructions that enter a secret

  ghost predicate HoldsSecret(t: Template) {
    exists k :: 0 <= k < |t.segments| && t.segments[k].Variable? && TellsSecret(t.segments[k].name)
  }

  /** The instruction enters a variable with such a name into the page. */
  ghost predicate EntersSecret(i: Instruction) {
    || ((i.Fill? || i.TypeText?) && HoldsSecret(i.value))
    || (i.SelectOption? && exists k :: 0 <= k < |i.values| && HoldsSecret(i.values[k]))
  }

  lemma TemplateHolds(t: Template)
    ensures HoldsSecret(t) <==> exists v :: v in TemplateVariables(t) && IsSensitive(v)
  {
    forall name ensures IsSensitive(name) <==> TellsSecret(name) {
      SensitiveExactlyWhen(name);
    }
    hide IsSensitive, TellsSecret;
    if v :| v in TemplateVariables(t) && IsSensitive(v) {
      var k :| 0 <= k < |t.segments| && t.segments[k] == Variable(v);
      assert t.segments[k].Variable?;
    }
    if k :| 0 <= k < |t.segments| && t.segments[k].Variable? && TellsSecret(t.segments[k].name) {
      assert t.segments[k] in t.segments && t.segments[k].name in TemplateVariables(t);
    }
  }

  lemma EntersExactlyWhen(i: Instruction)
    ensures HasSensitiveInput(i) <==> EntersSecret(i)
  {
    forall t ensures HoldsSecret(t) <==> exists v :: v in TemplateVariables(t) && IsSensitive(v) {
      TemplateHolds(t);
    }
    hide HoldsSecret, IsSensitive, TemplateVariables;
    if i.SelectOption? {
      if v :| v in TemplatesVariables(i.values) && IsSensitive(v) {
        var t :| t in i.values && v in TemplateVariables(t);
        var k :| 0 <= k < |i.values| && i.values[k] == t;
      }
      if k :| 0 <= k < |i.values| && HoldsSecret(i.values[k]) {
        var v :| v in TemplateVariables(i.values[k]) && IsSensitive(v);
        assert i.values[k] in i.values;
        assert v in TemplatesVariables(i.values);
      }
    }
  }

  // ---------------------------------------------------------------- what an edit may do

  /** An action on the page; assertions, waits and navigation are protected. */
  predicate IsAction(i: Instruction) {
    i.Click? || i.Fill? || i.TypeText? || i.Hover? || i.SelectOption?
  }

  /** The same action with the same values, at another locator. */
  predicate Moved(before: Instruction, after: Instruction, l: Locator) {
    match before
    case Click(_) => after == Click(l)
    case Fill(_, value) => after == Fill(l, value)
    case TypeText(_, value) => after == TypeText(l, value)
    case Hover(_) => after == Hover(l)
    case SelectOption(_, values) => after == SelectOption(l, values)
    case _ => false
  }

  predicate UsesOnly(l: Locator, required: set<string>) {
    forall k :: 0 <= k < |l.selector.segments| && l.selector.segments[k].Variable? ==>
      l.selector.segments[k].name in required
  }

  lemma UsesOnlyExactlyWhen(l: Locator, required: set<string>)
    ensures LocatorVariables(l) <= required <==> UsesOnly(l, required)
  {
    var segments := l.selector.segments;
    if LocatorVariables(l) <= required {
      forall k | 0 <= k < |segments| && segments[k].Variable? ensures segments[k].name in required {
        assert segments[k] in segments && segments[k].name in LocatorVariables(l);
      }
    }
    if UsesOnly(l, required) {
      forall v | v in LocatorVariables(l) ensures v in required {
        var k :| 0 <= k < |segments| && segments[k] == Variable(v);
        assert segments[k].name == v;
      }
    }
  }

  /** A name as the schema wants it: a letter or underscore, and then letters, digits and `_.-`. */
  predicate IsName(name: string) {
    && name != [] && (name[0] == '_' || IsAsciiLetter(name[0]))
    && forall k :: 0 <= k < |name| ==>
      IsAsciiLetter(name[k]) || '0' <= name[k] <= '9' || name[k] == '_' || name[k] == '.' || name[k] == '-'
  }

  predicate IsAsciiLetter(c: char) {
    65 <= c as int <= 90 || 97 <= c as int <= 122
  }

  predicate IsSelector(t: Template) {
    && |t.segments| > 0
    && forall k :: 0 <= k < |t.segments| && t.segments[k].Variable? ==> IsName(t.segments[k].name)
  }

  lemma NameExactlyWhen(name: string)
    ensures IsVariableName(name) <==> IsName(name)
  {
    if IsName(name) {
      assert forall c :: c in name ==> exists k :: 0 <= k < |name| && name[k] == c;
    }
    if IsVariableName(name) {
      assert forall k :: 0 <= k < |name| ==> name[k] in name;
    }
  }

  lemma SelectorExactlyWhen(t: Template)
    ensures ValidTemplate(t) <==> IsSelector(t)
  {
    forall name ensures IsVariableName(name) <==> IsName(name) {
      NameExactlyWhen(name);
    }
    hide IsVariableName, IsName;
    if ValidTemplate(t) {
      assert forall k :: 0 <= k < |t.segments| ==> t.segments[k] in t.segments;
    }
    if IsSelector(t) {
      assert forall s :: s in t.segments ==> exists k :: 0 <= k < |t.segments| && t.segments[k] == s;
    }
  }

  // ---------------------------------------------------------------- what a plan may hold

  /** Every template in an instruction. */
  function TemplatesIn(i: Instruction): seq<Template> {
    match i
    case Navigate(url) => [url]
    case Click(l) => [l.selector]
    case Fill(l, value) => [l.selector, value]
    case TypeText(l, value) => [l.selector, value]
    case Hover(l) => [l.selector]
    case SelectOption(l, values) => [l.selector] + values
    case WaitFor(l, _) => [l.selector]
    case Exists(l) => [l.selector]
    case Visible(l) => [l.selector]
    case Hidden(l) => [l.selector]
    case TextEquals(l, expected) => [l.selector, expected]
    case TextContains(l, expected) => [l.selector, expected]
    case ValueEquals(l, expected) => [l.selector, expected]
    case CountEquals(counted, _) => [counted]
    case UrlEquals(expected) => [expected]
  }

  predicate MayHold(i: Instruction) {
    && (forall k :: 0 <= k < |TemplatesIn(i)| ==> IsSelector(TemplatesIn(i)[k]))
    && (i.SelectOption? ==> |i.values| > 0)
    && (i.CountEquals? && i.count.Bound? ==> IsName(i.count.name))
  }

  lemma SelectionExactlyWhen(l: Locator, values: seq<Template>)
    requires forall t :: ValidTemplate(t) <==> IsSelector(t)
    ensures ValidInstruction(SelectOption(l, values)) <==> MayHold(SelectOption(l, values))
  {
    hide IsSelector, ValidTemplate;
    var i, ts := SelectOption(l, values), [l.selector] + values;
    assert TemplatesIn(i) == ts && ts[0] == l.selector;
    if MayHold(i) {
      forall v | v in values ensures ValidTemplate(v) {
        var k :| 0 <= k < |values| && values[k] == v;
        assert ts[k + 1] == v;
      }
    }
    if ValidInstruction(i) {
      forall k | 0 <= k < |ts| ensures IsSelector(ts[k]) {
        assert k > 0 ==> ts[k] == values[k - 1] && values[k - 1] in values;
      }
    }
  }

  lemma InstructionExactlyWhen(i: Instruction)
    ensures ValidInstruction(i) <==> MayHold(i)
  {
    forall t ensures ValidTemplate(t) <==> IsSelector(t) {
      SelectorExactlyWhen(t);
    }
    if i.SelectOption? {
      SelectionExactlyWhen(i.locator, i.values);
    } else {
      if i.CountEquals? && i.count.Bound? {
        NameExactlyWhen(i.count.name);
      }
      hide IsSelector, ValidTemplate, IsName, IsVariableName;
      var ts := TemplatesIn(i);
      assert MayHold(i) ==> IsSelector(ts[0]) && (|ts| > 1 ==> IsSelector(ts[1]));
    }
  }

  /** A plan's steps all have instructions, and every instruction is one that a plan may hold. */
  lemma PlanExactlyWhen(p: Payload)
    ensures ValidPayload(p)
       <==> forall i | 0 <= i < |p.steps| ::
              && |p.steps[i].instructions| > 0
              && forall j | 0 <= j < |p.steps[i].instructions| :: MayHold(p.steps[i].instructions[j])
  {
    forall i ensures ValidInstruction(i) <==> MayHold(i) {
      InstructionExactlyWhen(i);
    }
    hide ValidInstruction, MayHold;
    if ValidPayload(p) {
      forall i | 0 <= i < |p.steps|
        ensures |p.steps[i].instructions| > 0
        ensures forall j | 0 <= j < |p.steps[i].instructions| :: MayHold(p.steps[i].instructions[j])
      {
        assert p.steps[i] in p.steps;
        assert forall j :: 0 <= j < |p.steps[i].instructions| ==> p.steps[i].instructions[j] in p.steps[i].instructions;
      }
    } else {
      var step :| step in p.steps
        && !(step.instructions != [] && forall x | x in step.instructions :: ValidInstruction(x));
      var i :| 0 <= i < |p.steps| && p.steps[i] == step;
      if step.instructions != [] {
        var x :| x in step.instructions && !ValidInstruction(x);
        var j :| 0 <= j < |step.instructions| && step.instructions[j] == x;
      }
    }
  }

  /** What checks the page: neither an action, nor navigation, nor a wait. */
  predicate IsCheck(i: Instruction) {
    !IsAction(i) && !i.Navigate? && !i.WaitFor?
  }

  /**
   An outcome step checks the page, after at most one navigation, and does nothing else; any other
   step does something and checks nothing.
   */
  predicate HasRole(instructions: seq<Instruction>, stepType: StepType) {
    && |instructions| > 0
    && if stepType == OutcomeStep then
         var k := if instructions[0].Navigate? then 1 else 0;
         k < |instructions| && forall j :: k <= j < |instructions| ==> IsCheck(instructions[j])
       else forall j :: 0 <= j < |instructions| ==> !IsCheck(instructions[j])
  }

  lemma RolesExactly(instructions: seq<Instruction>, stepType: StepType)
    ensures ValidInstructionsForStep(instructions, stepType) <==> HasRole(instructions, stepType)
  {
    if instructions != [] {
      var k := if instructions[0].Navigate? then 1 else 0;
      var rest := instructions[k..];
      assert forall j :: k <= j < |instructions| ==> rest[j - k] == instructions[j];
      assert forall i :: IsAssertion(i) <==> IsCheck(i);
      if stepType == OutcomeStep && ValidInstructionsForStep(instructions, stepType) {
        forall j | k <= j < |instructions| ensures IsCheck(instructions[j]) {
          assert rest[j - k] in rest;
        }
      }
    }
  }

  /** The edit names an instruction of the plan that it has seen, and a locator that the plan may have. */
  predicate IsMeant(p: Payload, steps: seq<StepIdentity>, required: set<string>, edit: Edit) {
    var i, j := edit.step.index, edit.instructionIndex;
    && 0 <= i < |steps| && steps[i] == edit.step
    && 0 <= i < |p.steps| && 0 <= j < |p.steps[i].instructions|
    && edit.expected == DigestOf(p.steps[i].instructions[j])
    && UsesOnly(edit.locator, required) && IsSelector(edit.locator.selector)
  }

  lemma MovedIsValid(i: Instruction, l: Locator)
    requires ValidInstruction(i) && IsEditable(i)
    ensures ValidInstruction(WithLocator(i, l)) <==> ValidTemplate(l.selector)
  {
  }

  lemma PutIsValid(p: Payload, i: nat, j: nat, instruction: Instruction)
    requires HasInstruction(p, i, j) && ValidPayload(p)
    ensures ValidPayload(Put(p, i, j, instruction)) <==> ValidInstruction(instruction)
  {
    var q := Put(p, i, j, instruction);
    assert q.steps[i] in q.steps && q.steps[i].instructions[j] in q.steps[i].instructions;
    assert q.steps[i].instructions[j] == instruction;
    if ValidInstruction(instruction) {
      forall step | step in q.steps
        ensures step.instructions != [] && forall x | x in step.instructions :: ValidInstruction(x)
      {
        var a :| 0 <= a < |q.steps| && q.steps[a] == step;
        assert p.steps[a] in p.steps;
        forall x | x in step.instructions ensures ValidInstruction(x) {
          var b :| 0 <= b < |step.instructions| && step.instructions[b] == x;
          assert p.steps[a].instructions[b] in p.steps[a].instructions;
        }
      }
    }
  }

  /**
   An edit of a valid plan succeeds exactly when it is meant for an action of the plan that enters no
   secret; what is put there is the same action at the edit's locator.
   */
  lemma EditSucceedsExactlyWhen(p: Payload, steps: seq<StepIdentity>, required: set<string>, edit: Edit)
    requires ValidPayload(p)
    ensures
      var i, j := edit.step.index, edit.instructionIndex;
      ReplaceTarget(p, steps, required, edit).Ok?
      <==> && IsMeant(p, steps, required, edit)
           && IsAction(p.steps[i].instructions[j]) && !EntersSecret(p.steps[i].instructions[j])
    ensures
      var i, j, edited := edit.step.index, edit.instructionIndex, ReplaceTarget(p, steps, required, edit);
      edited.Ok? ==>
        && HasInstruction(edited.value, i, j)
        && Moved(p.steps[i].instructions[j], edited.value.steps[i].instructions[j], edit.locator)
  {
    var i, j := edit.step.index, edit.instructionIndex;
    UsesOnlyExactlyWhen(edit.locator, required);
    SelectorExactlyWhen(edit.locator.selector);
    if HasInstruction(p, i, j) {
      var instruction := p.steps[i].instructions[j];
      assert p.steps[i] in p.steps && instruction in p.steps[i].instructions;
      EntersExactlyWhen(instruction);
      if IsEditable(instruction) {
        MovedIsValid(instruction, edit.locator);
        PutIsValid(p, i, j, WithLocator(instruction, edit.locator));
      }
    }
    hide HasSensitiveInput, EntersSecret, ValidTemplate, IsSelector, UsesOnly, LocatorVariables, ValidPayload;
  }

  /** The edit names an instruction of the plan. */
  predicate Names(p: Payload, steps: seq<StepIdentity>, edit: Edit) {
    var i, j := edit.step.index, edit.instructionIndex;
    && 0 <= i < |steps| && steps[i] == edit.step
    && 0 <= i < |p.steps| && 0 <= j < |p.steps[i].instructions|
  }

  /**
   Why an edit is refused: as a change of an assertion when it names what is no action, or, with the
   right digest and known variables, an action that enters a secret; as a conflict when it names an
   action with another digest; and else as invalid.
   */
  lemma EditRefusedAs(p: Payload, steps: seq<StepIdentity>, required: set<string>, edit: Edit)
    requires ReplaceTarget(p, steps, required, edit).Err?
    ensures
      var reason := ReplaceTarget(p, steps, required, edit).error;
      if !Names(p, steps, edit) then reason.InvalidPayload?
      else
        var instruction := p.steps[edit.step.index].instructions[edit.instructionIndex];
        if !IsAction(instruction) then reason.AssertionChange?
        else if edit.expected != DigestOf(instruction) then reason.WriteConflict?
        else if UsesOnly(edit.locator, required) && EntersSecret(instruction) then reason.AssertionChange?
        else reason.InvalidPayload?
  {
    var i, j := edit.step.index, edit.instructionIndex;
    UsesOnlyExactlyWhen(edit.locator, required);
    if HasInstruction(p, i, j) {
      EntersExactlyWhen(p.steps[i].instructions[j]);
    }
    hide HasSensitiveInput, EntersSecret, UsesOnly, LocatorVariables, ValidPayload;
  }

  // ---------------------------------------------------------------- what a candidate may do

  /** Unchanged, or the same action, without a secret, at another locator. */
  ghost predicate MayBecome(before: Instruction, after: Instruction) {
    before == after || (IsAction(before) && !EntersSecret(before) && exists l :: Moved(before, after, l))
  }

  lemma AllowedExactlyWhen(before: Instruction, after: Instruction)
    ensures AllowedChange(before, after) <==> MayBecome(before, after)
  {
    EntersExactlyWhen(before);
    hide HasSensitiveInput, EntersSecret;
    if IsEditable(before) && IsEditable(after) && after == WithLocator(before, after.locator) {
      assert Moved(before, after, after.locator);
    }
  }

  /** All variables of the instruction are among the required ones. */
  predicate UsesKnown(i: Instruction, required: set<string>) {
    && (forall k :: 0 <= k < |TemplatesIn(i)| ==> KnownTemplate(TemplatesIn(i)[k], required))
    && (i.CountEquals? && i.count.Bound? ==> i.count.name in required)
  }

  predicate KnownTemplate(t: Template, required: set<string>) {
    forall n :: 0 <= n < |t.segments| && t.segments[n].Variable? ==> t.segments[n].name in required
  }

  lemma KnownTemplateExactlyWhen(t: Template, required: set<string>)
    ensures TemplateVariables(t) <= required <==> KnownTemplate(t, required)
  {
    if TemplateVariables(t) <= required {
      forall n | 0 <= n < |t.segments| && t.segments[n].Variable? ensures t.segments[n].name in required {
        assert t.segments[n] in t.segments && t.segments[n].name in TemplateVariables(t);
      }
    }
    if KnownTemplate(t, required) {
      forall v | v in TemplateVariables(t) ensures v in required {
        var n :| 0 <= n < |t.segments| && t.segments[n] == Variable(v);
        assert t.segments[n].name == v;
      }
    }
  }

  lemma KnownValuesExactlyWhen(values: seq<Template>, required: set<string>)
    ensures TemplatesVariables(values) <= required
       <==> forall k :: 0 <= k < |values| ==> KnownTemplate(values[k], required)
  {
    forall t ensures TemplateVariables(t) <= required <==> KnownTemplate(t, required) {
      KnownTemplateExactlyWhen(t, required);
    }
    hide KnownTemplate, TemplateVariables;
    if TemplatesVariables(values) <= required {
      forall k | 0 <= k < |values| ensures TemplateVariables(values[k]) <= required {
        assert values[k] in values;
        assert forall v :: v in TemplateVariables(values[k]) ==> v in TemplatesVariables(values);
      }
    }
    if forall k :: 0 <= k < |values| ==> KnownTemplate(values[k], required) {
      forall v | v in TemplatesVariables(values) ensures v in required {
        var t :| t in values && v in TemplateVariables(t);
        var k :| 0 <= k < |values| && values[k] == t;
      }
    }
  }

  lemma KnownExactlyWhen(i: Instruction, required: set<string>)
    ensures InstructionVariables(i) <= required <==> UsesKnown(i, required)
  {
    forall t ensures TemplateVariables(t) <= required <==> KnownTemplate(t, required) {
      KnownTemplateExactlyWhen(t, required);
    }
    hide KnownTemplate, TemplateVariables;
    var ts := TemplatesIn(i);
    if i.SelectOption? {
      KnownValuesExactlyWhen(i.values, required);
      assert ts == [i.locator.selector] + i.values;
      assert ts[0] == i.locator.selector && forall k :: 0 <= k < |i.values| ==> ts[k + 1] == i.values[k];
      assert forall k :: 1 <= k < |ts| ==> ts[k] == i.values[k - 1];
    } else {
      assert |ts| == 1 || |ts| == 2;
      assert KnownTemplate(ts[0], required) || !KnownTemplate(ts[0], required);
      assert |ts| > 1 ==> KnownTemplate(ts[1], required) || !KnownTemplate(ts[1], required);
    }
  }

  /** Each step of the plan has a role in the scenario, and its instructions hold what a plan may hold. */
  predicate FitsScenario(p: Payload, scenarioSteps: seq<StepType>, required: set<string>) {
    && |p.steps| <= |scenarioSteps|
    && forall i | 0 <= i < |p.steps| ::
         && HasRole(p.steps[i].instructions, scenarioSteps[i])
         && forall j | 0 <= j < |p.steps[i].instructions| ::
              MayHold(p.steps[i].instructions[j]) && UsesKnown(p.steps[i].instructions[j], required)
  }

  /** The candidate and the step identities are those of the whole scenario. */
  predicate IsComplete(input: Input) {
    && |input.candidate.steps| == |input.scenarioSteps| && |input.steps| == |input.scenarioSteps|
    && forall i | 0 <= i < |input.steps| ::
         input.steps[i].index == i && input.steps[i].scenarioRevision == input.scenarioRevision
  }

  lemma FitsExactlyWhen(p: Payload, scenarioSteps: seq<StepType>, required: set<string>)
    ensures ValidPayload(p) && KnownVariables(p, required) && Projects(p, scenarioSteps)
       <==> FitsScenario(p, scenarioSteps, required)
  {
    PlanExactlyWhen(p);
    KnownPlanExactlyWhen(p, required);
    forall i | 0 <= i < |p.steps| && i < |scenarioSteps|
      ensures ValidInstructionsForStep(p.steps[i].instructions, scenarioSteps[i])
         <==> HasRole(p.steps[i].instructions, scenarioSteps[i])
    {
      RolesExactly(p.steps[i].instructions, scenarioSteps[i]);
    }
    hide ValidPayload, KnownVariables, ValidInstructionsForStep, MayHold, UsesKnown;
    if Projects(p, scenarioSteps) {
      ProjectedIsShort(p, scenarioSteps);
    }
    forall i | 0 <= i < |p.steps| && i < |scenarioSteps| && HasRole(p.steps[i].instructions, scenarioSteps[i])
      ensures |p.steps[i].instructions| > 0
    {
    }
    hide HasRole;
  }

  lemma KnownPlanExactlyWhen(p: Payload, required: set<string>)
    ensures KnownVariables(p, required)
       <==> forall i | 0 <= i < |p.steps| ::
              forall j | 0 <= j < |p.steps[i].instructions| :: UsesKnown(p.steps[i].instructions[j], required)
  {
    forall x ensures InstructionVariables(x) <= required <==> UsesKnown(x, required) {
      KnownExactlyWhen(x, required);
    }
    hide InstructionVariables, UsesKnown;
    if KnownVariables(p, required) {
      forall i, j | 0 <= i < |p.steps| && 0 <= j < |p.steps[i].instructions|
        ensures InstructionVariables(p.steps[i].instructions[j]) <= required
      {
        assert p.steps[i] in p.steps && p.steps[i].instructions[j] in p.steps[i].instructions;
      }
    } else {
      var step, x :| step in p.steps && x in step.instructions && !(InstructionVariables(x) <= required);
      var i :| 0 <= i < |p.steps| && p.steps[i] == step;
      var j :| 0 <= j < |step.instructions| && step.instructions[j] == x;
    }
  }

  /**
   A candidate is accepted exactly when it and the baseline fit the scenario, it is complete, and each
   of its instructions is what the baseline's may become.
   */
  lemma CandidateAcceptedExactlyWhen(input: Input)
    ensures
      var before, after := input.baseline.steps, input.candidate.steps;
      Validation(input).Ok?
      <==> && FitsScenario(input.baseline, input.scenarioSteps, input.required)
           && FitsScenario(input.candidate, input.scenarioSteps, input.required)
           && IsComplete(input)
           && |after| == |before|
           && forall i | 0 <= i < |before| ::
                && |after[i].instructions| == |before[i].instructions|
                && forall j | 0 <= j < |before[i].instructions| ::
                     MayBecome(before[i].instructions[j], after[i].instructions[j])
  {
    ValidationExact(input);
    FitsExactlyWhen(input.baseline, input.scenarioSteps, input.required);
    FitsExactlyWhen(input.candidate, input.scenarioSteps, input.required);
    forall before, after ensures AllowedChange(before, after) <==> MayBecome(before, after) {
      AllowedExactlyWhen(before, after);
    }
    assert WellPlaced(input) <==> IsComplete(input);
    hide AllowedChange, MayBecome, Validation, FitsScenario, ValidPayload, KnownVariables, Projects, WellPlaced,
      IsComplete;
  }

  /** No step of the plan is empty, and its instructions hold what a plan may hold. */
  predicate IsPlan(p: Payload, required: set<string>) {
    forall i | 0 <= i < |p.steps| ::
      && |p.steps[i].instructions| > 0
      && forall j | 0 <= j < |p.steps[i].instructions| ::
           MayHold(p.steps[i].instructions[j]) && UsesKnown(p.steps[i].instructions[j], required)
  }

  /**
   Why a candidate is refused: as incomplete when both are plans but it is not complete; as a change of
   an assertion when all fits and is complete; and else as invalid.
   */
  lemma CandidateRefusedAs(input: Input)
    requires Validation(input).Err?
    ensures
      var reason := Validation(input).error;
      if !IsPlan(input.baseline, input.required) || !IsPlan(input.candidate, input.required) then
        reason.InvalidPayload?
      else if !IsComplete(input) then reason.IncompletePlan?
      else if FitsScenario(input.baseline, input.scenarioSteps, input.required)
              && FitsScenario(input.candidate, input.scenarioSteps, input.required) then reason.AssertionChange?
      else reason.InvalidPayload?
  {
    ValidationExact(input);
    FitsExactlyWhen(input.baseline, input.scenarioSteps, input.required);
    FitsExactlyWhen(input.candidate, input.scenarioSteps, input.required);
    IsPlanExactlyWhen(input.baseline, input.required);
    IsPlanExactlyWhen(input.candidate, input.required);
    assert WellPlaced(input) <==> IsComplete(input);
    hide FitsScenario, ValidPayload, KnownVariables, Projects, WellPlaced, IsComplete, IsPlan, Reconstructed;
  }

  lemma IsPlanExactlyWhen(p: Payload, required: set<string>)
    ensures ValidPayload(p) && KnownVariables(p, required) <==> IsPlan(p, required)
  {
    PlanExactlyWhen(p);
    KnownPlanExactlyWhen(p, required);
    hide ValidPayload, KnownVariables, MayHold, UsesKnown;
  }

  // ---------------------------------------------------------------- the basis of the assertions

  /** An instruction that no edit may touch, at its place in the plan. */
  predicate IsProtectedAt(p: Payload, c: Check) {
    && c.stepIndex < |p.steps| && c.instructionIndex < |p.steps[c.stepIndex].instructions|
    && c.instruction == p.steps[c.stepIndex].instructions[c.instructionIndex] && !IsAction(c.instruction)
  }

  predicate Earlier(c: Check, d: Check) {
    c.stepIndex < d.stepIndex || (c.stepIndex == d.stepIndex && c.instructionIndex < d.instructionIndex)
  }

  ghost predicate InPlanOrder(checks: seq<Check>) {
    forall k, n :: 0 <= k < n < |checks| ==> Earlier(checks[k], checks[n])
  }

  /** The instructions are those of step i from j on. */
  predicate IsProtectedIn(instructions: seq<Instruction>, i: nat, j: nat, c: Check) {
    && c.stepIndex == i && j <= c.instructionIndex < j + |instructions|
    && c.instruction == instructions[c.instructionIndex - j] && !IsAction(c.instruction)
  }

  /** The steps are those from i on. */
  predicate IsProtectedFrom(steps: seq<Step>, i: nat, c: Check) {
    && i <= c.stepIndex < i + |steps| && c.instructionIndex < |steps[c.stepIndex - i].instructions|
    && c.instruction == steps[c.stepIndex - i].instructions[c.instructionIndex] && !IsAction(c.instruction)
  }

  lemma {:induction false} StepChecksExactly(instructions: seq<Instruction>, i: nat, j: nat)
    ensures InPlanOrder(StepChecks(instructions, i, j))
    ensures forall c :: c in StepChecks(instructions, i, j) <==> IsProtectedIn(instructions, i, j, c)
    decreases instructions
  {
    if instructions != [] {
      var rest := StepChecks(instructions[1..], i, j + 1);
      StepChecksExactly(instructions[1..], i, j + 1);
      var first := if IsEditable(instructions[0]) then [] else [Check(i, j, instructions[0])];
      assert StepChecks(instructions, i, j) == first + rest;
      forall n | 0 <= n < |rest| ensures first != [] ==> Earlier(first[0], rest[n]) {
        assert rest[n] in rest;
      }
      hide StepChecks;
    }
  }

  lemma {:induction false} PlanChecksExactly(steps: seq<Step>, i: nat)
    ensures InPlanOrder(PlanChecks(steps, i))
    ensures forall c :: c in PlanChecks(steps, i) <==> IsProtectedFrom(steps, i, c)
    decreases steps
  {
    if steps != [] {
      var first, rest := StepChecks(steps[0].instructions, i, 0), PlanChecks(steps[1..], i + 1);
      StepChecksExactly(steps[0].instructions, i, 0);
      PlanChecksExactly(steps[1..], i + 1);
      assert PlanChecks(steps, i) == first + rest;
      hide StepChecks, PlanChecks, IsAction;
      forall k, n | 0 <= k < |first| && 0 <= n < |rest| ensures Earlier(first[k], rest[n]) {
        assert first[k] in first && rest[n] in rest;
      }
      forall c ensures IsProtectedFrom(steps, i, c)
        <==> IsProtectedIn(steps[0].instructions, i, 0, c) || IsProtectedFrom(steps[1..], i + 1, c)
      {
        assert i + 1 <= c.stepIndex < i + |steps| ==> steps[1..][c.stepIndex - (i + 1)] == steps[c.stepIndex - i];
      }
    }
  }

  /** The basis of the assertions lists every protected instruction with its place, in the plan's order. */
  lemma BasisExactly(p: Payload, scenarioSteps: seq<StepType>)
    ensures BasisOf(p, scenarioSteps).scenarioSteps == scenarioSteps
    ensures InPlanOrder(BasisOf(p, scenarioSteps).checks)
    ensures forall c :: c in BasisOf(p, scenarioSteps).checks <==> IsProtectedAt(p, c)
  {
    PlanChecksExactly(p.steps, 0);
    hide PlanChecks, InPlanOrder, IsAction;
  }

  /** A candidate that changes anything in an instruction that enters a secret is refused. */
  lemma SecretsStayInPlace(input: Input, i: nat, j: nat)
    requires HasInstruction(input.baseline, i, j) && HasInstruction(input.candidate, i, j)
    requires EntersSecret(input.baseline.steps[i].instructions[j])
    requires input.candidate.steps[i].instructions[j] != input.baseline.steps[i].instructions[j]
    ensures Validation(input).Err?
  {
    ValidationExact(input);
    hide EntersSecret, Validation, WellShaped;
    AllowedExactlyWhen(input.baseline.steps[i].instructions[j], input.candidate.steps[i].instructions[j]);
  }
}
