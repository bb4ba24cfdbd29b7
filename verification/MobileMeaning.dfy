/**
 What the lines of a compiled script say, and what their placeholders stand for
 (packages/mobile/src/agent-device/mobile-ad-script.ts).
 */
module MobileMeaning {
  import opened Wrappers
  import opened JsonText
  import opened MobileScript
  import opened MobileExecutionCache
  import opened MobileLines
  import opened MobileVariables
  import JsonGrammar
  import JsonRoundTrip

  // ---------------------------------------------------------------- what a line says

  // A command to the device.
  datatype Command =
    | Waits(text: Text)
    | Clicks(text: Text)
    | Checks(what: Predicate, text: Text)
    | ChecksText(text: Text, expected: Text)

  /** The text of the quoted argument after the prefix. */
  function ArgumentText(line: Text, prefix: Text): Option<Text> {
    if StartsWith(line, prefix) && QuotedLength(line[|prefix|..]).Some?
    then JsonGrammar.DecodeString(line[|prefix|..][..QuotedLength(line[|prefix|..]).value])
    else None
  }

  predicate Says(line: Text, command: Command) {
    match command
    case Waits(text) => ArgumentText(line, Ascii("wait text ")) == Some(text) && IsWaitText(line)
    case Clicks(text) => ArgumentText(line, Ascii("find ")) == Some(text) && IsFindClick(line)
    case Checks(what, text) =>
      && what != TextIs && ArgumentText(line, AssertionPrefix(what)) == Some(text)
      && AfterQuoted(line, AssertionPrefix(what)) == Some([])
    case ChecksText(text, expected) =>
      && ArgumentText(line, AssertionPrefix(TextIs)) == Some(text)
      && AfterQuoted(line, AssertionPrefix(TextIs)).Some?
      && ArgumentText(AfterQuoted(line, AssertionPrefix(TextIs)).value, Ascii(" ")) == Some(expected)
      && IsTextAssertion(line)
  }

  lemma PrefixTellsPredicate(line: Text, p: Predicate, q: Predicate)
    requires StartsWith(line, AssertionPrefix(p)) && StartsWith(line, AssertionPrefix(q))
    ensures p == q
  {
    var x, y := AssertionPrefix(p), AssertionPrefix(q);
    assert x[3] == Name(p)[0] as nat && x[4] == Name(p)[1] as nat;
    assert y[3] == Name(q)[0] as nat && y[4] == Name(q)[1] as nat;
    assert line[..|x|][3] == line[..|y|][3] && line[..|x|][4] == line[..|y|][4];
  }

  lemma FirstOfPrefix(line: Text, prefix: Text)
    requires StartsWith(line, prefix) && prefix != []
    ensures line != [] && line[0] == prefix[0]
  {
    assert line[..|prefix|][0] == line[0];
  }

  function PrefixOf(command: Command): Text {
    match command
    case Waits(_) => Ascii("wait text ")
    case Clicks(_) => Ascii("find ")
    case Checks(what, _) => AssertionPrefix(what)
    case ChecksText(_, _) => AssertionPrefix(TextIs)
  }

  /** A line says one thing at most. */
  lemma SaysOneThing(line: Text, x: Command, y: Command)
    requires Says(line, x) && Says(line, y)
    ensures x == y
  {
    FirstOfPrefix(line, PrefixOf(x));
    FirstOfPrefix(line, PrefixOf(y));
    if !x.Waits? && !x.Clicks? && !y.Waits? && !y.Clicks? {
      PrefixTellsPredicate(line, if x.Checks? then x.what else TextIs, if y.Checks? then y.what else TextIs);
    }
    hide ArgumentText, AfterQuoted, IsWaitText, IsFindClick, IsTextAssertion, StartsWith;
  }

  lemma WrittenLength(s: Text, rest: Text)
    ensures QuotedLength(WriteString(s) + rest) == Some(|WriteString(s)|)
  {
    WrittenIsQuoted(s, rest);
    assert (WriteString(s) + rest)[1..] == WriteUnits(s) + ([QUOTE] + rest);
    hide WriteUnits, QuotedRest;
  }

  lemma WrittenDecodes(s: Text)
    ensures JsonGrammar.DecodeString(WriteString(s)) == Some(s)
  {
    JsonRoundTrip.DecodeWrittenUnits(s);
    assert WriteString(s)[1..] == WriteUnits(s) + [QUOTE];
  }

  lemma ArgumentWritten(prefix: Text, s: Text, rest: Text)
    ensures ArgumentText(prefix + (WriteString(s) + rest), prefix) == Some(s)
  {
    var q, line := WriteString(s), prefix + (WriteString(s) + rest);
    WrittenLength(s, rest);
    WrittenDecodes(s);
    assert q[0] == QUOTE;
    hide WriteString, QuotedLength, JsonGrammar.DecodeString;
    assert line[..|prefix|] == prefix && line[|prefix|..] == q + rest;
    assert (q + rest)[..|q|] == q;
  }

  /** What an operation's line says. */
  function CommandOf(operation: Operation): Command {
    match operation
    case WaitText(target) => Waits(target.template)
    case FindClick(target) => Clicks(target.template)
    case Assert(what, target, expected) =>
      if what == TextIs then ChecksText(target.template, ExpectedTemplate(expected)) else Checks(what, target.template)
  }

  lemma TargetSays(target: Text)
    ensures Says(Ascii("wait text ") + WriteString(target), Waits(target))
    ensures Says(Ascii("find ") + WriteString(target) + Ascii(" click"), Clicks(target))
  {
    var q := WriteString(target);
    TargetIsOperation(target);
    ArgumentWritten(Ascii("wait text "), target, []);
    ArgumentWritten(Ascii("find "), target, Ascii(" click"));
    hide ArgumentText, WriteString, Ascii, IsWaitText, IsFindClick;
    assert q + [] == q;
    assert Ascii("find ") + q + Ascii(" click") == Ascii("find ") + (q + Ascii(" click"));
  }

  lemma AssertionSays(what: Predicate, target: Text, expected: Text)
    ensures what != TextIs ==> Says(AssertionPrefix(what) + WriteString(target), Checks(what, target))
    ensures what == TextIs ==>
      Says(AssertionPrefix(what) + WriteString(target) + (Ascii(" ") + WriteString(expected)),
           ChecksText(target, expected))
  {
    var prefix, q, more := AssertionPrefix(what), WriteString(target), Ascii(" ") + WriteString(expected);
    AssertionIsOperation(what, target, expected);
    AfterWritten(prefix, target, []);
    AfterWritten(prefix, target, more);
    ArgumentWritten(prefix, target, []);
    ArgumentWritten(prefix, target, more);
    ArgumentWritten(Ascii(" "), expected, []);
    hide ArgumentText, AfterQuoted, WriteString, AssertionPrefix, Ascii, IsTextAssertion, IsStateAssertion;
    assert q + [] == q && WriteString(expected) + [] == WriteString(expected);
    assert prefix + q + more == prefix + (q + more);
  }

  lemma LineSays(operation: Operation)
    ensures Says(OperationLine(operation), CommandOf(operation))
  {
    var line, q := OperationLine(operation), WriteString(operation.target.template);
    TargetSays(operation.target.template);
    if operation.Assert? {
      AssertionSays(operation.what, operation.target.template, ExpectedTemplate(operation.expected));
      hide WriteString, Ascii, Says;
      assert operation.what != TextIs ==> line == AssertionPrefix(operation.what) + q;
    }
    hide WriteString, Ascii, Says;
  }

  // ---------------------------------------------------------------- what a placeholder stands for

  /** The value that the runtime environment gives a variable. */
  function EnvironmentValue(v: Text, names: seq<Text>, bindings: seq<Binding>, variables: Variables): Option<Text> {
    if names == [] then None
    else if variables(names[0]) == v then Some(ValueOf(bindings, names[0]))
    else EnvironmentValue(v, names[1..], bindings, variables)
  }

  /** The text with its placeholders replaced by their values. */
  function Expand(t: Text, bindings: seq<Binding>, variables: Variables): Text {
    if t == [] then []
    else
      match PlaceholderLength(t)
      case None => [t[0]] + Expand(t[1..], bindings, variables)
      case Some(n) =>
        (match EnvironmentValue(t[2..n - 1], Names(bindings), bindings, variables)
         case None => t[..n]
         case Some(value) => value)
        + Expand(t[n..], bindings, variables)
  }

  /** The text with each `<name>` of a bound name replaced by its value. */
  function Substitute(t: Text, bindings: seq<Binding>): Text {
    if t == [] then []
    else
      match TagLength(t)
      case None => [t[0]] + Substitute(t[1..], bindings)
      case Some(n) =>
        var name := t[1..n - 1];
        (if name in Names(bindings) then ValueOf(bindings, name) else t[..n]) + Substitute(t[n..], bindings)
  }

  lemma {:induction false} ValueOfName(name: Text, names: seq<Text>, bindings: seq<Binding>, variables: Variables)
    requires AreReplayVariables(variables) && name in names
    ensures EnvironmentValue(variables(name), names, bindings, variables) == Some(ValueOf(bindings, name))
  {
    if names[0] != name {
      ValueOfName(name, names[1..], bindings, variables);
    }
  }

  lemma {:induction false} ExpandLiteral(s: Text, rest: Text, bindings: seq<Binding>, variables: Variables)
    requires IsLiteral(s) && MeetWell(s, rest)
    ensures Expand(s + rest, bindings, variables) == s + Expand(rest, bindings, variables)
  {
    if s == [] {
      NothingBefore(rest);
      NothingBefore(Expand(rest, bindings, variables));
    } else {
      var all, first, others, expanded := s + rest, [s[0]], s[1..], Expand(rest, bindings, variables);
      assert !Opens(all) && all[1..] == others + rest && first + others == s;
      assert PlaceholderLength(all).None?;
      ExpandLiteral(others, rest, bindings, variables);
      assert Expand(all, bindings, variables) == first + Expand(others + rest, bindings, variables);
      hide Expand, IsLiteral, PlaceholderLength;
      Regroup(first, others, expanded);
    }
  }

  lemma ExpandPlaceholder(name: Text, rest: Text, bindings: seq<Binding>, variables: Variables)
    requires AreReplayVariables(variables) && name in Names(bindings)
    ensures Expand(Placeholder(variables(name)) + rest, bindings, variables)
         == ValueOf(bindings, name) + Expand(rest, bindings, variables)
  {
    var p := Placeholder(variables(name));
    var all := p + rest;
    ReplayableIsPlain(variables(name));
    assert all[..|p|] == p && all[|p|..] == rest;
    StartIsPlaceholder(all, variables(name));
    ValueOfName(name, Names(bindings), bindings, variables);
  }

  /** With the bound values in place of the placeholders, a compiled text is the template with the bound values. */
  lemma {:induction false} ExpandUndoesReplacing(t: Text, bindings: seq<Binding>, variables: Variables)
    requires AreReplayVariables(variables) && IsLiteral(t)
    ensures Expand(ReplaceVariables(t, Names(bindings), variables), bindings, variables) == Substitute(t, bindings)
  {
    if t != [] {
      var names := Names(bindings);
      match TagLength(t)
      case None =>
        var rest := ReplaceVariables(t[1..], names, variables);
        if |t| > 1 {
          FirstReplaced(t[1..], names, variables);
        }
        ExpandUndoesReplacing(t[1..], bindings, variables);
        LiteralPart(t, 0, 1);
        assert t[0..1] == [t[0]] && !Opens(t);
        assert MeetWell([t[0]], rest) && ReplaceVariables(t, names, variables) == [t[0]] + rest;
        assert Substitute(t, bindings) == [t[0]] + Substitute(t[1..], bindings);
        hide Expand, Substitute, ReplaceVariables, IsLiteral, AreReplayVariables;
        ExpandLiteral([t[0]], rest, bindings, variables);
      case Some(n) =>
        LiteralPart(t, n, |t|);
        assert t[n..|t|] == t[n..];
        ExpandUndoesReplacing(t[n..], bindings, variables);
        ExpandTag(t, n, bindings, variables);
    }
  }

  lemma TagSubstituted(t: Text, n: nat, bindings: seq<Binding>)
    requires TagLength(t) == Some(n)
    ensures Substitute(t, bindings)
         == (if t[1..n - 1] in Names(bindings) then ValueOf(bindings, t[1..n - 1]) else t[..n])
            + Substitute(t[n..], bindings)
  {
  }

  lemma ExpandTag(t: Text, n: nat, bindings: seq<Binding>, variables: Variables)
    requires AreReplayVariables(variables) && IsLiteral(t) && TagLength(t) == Some(n)
    requires Expand(ReplaceVariables(t[n..], Names(bindings), variables), bindings, variables)
          == Substitute(t[n..], bindings)
    ensures Expand(ReplaceVariables(t, Names(bindings), variables), bindings, variables) == Substitute(t, bindings)
  {
    var name, rest := t[1..n - 1], ReplaceVariables(t[n..], Names(bindings), variables);
    hide Expand, IsLiteral, TagLength, AreReplayVariables, Placeholder, ReplaceVariables, Substitute, ValueOf;
    TagIsReplaced(t, n, Names(bindings), variables);
    TagSubstituted(t, n, bindings);
    LiteralPart(t, 0, n);
    assert t[0..n] == t[..n];
    if name in Names(bindings) {
      ExpandPlaceholder(name, rest, bindings, variables);
    } else {
      ExpandLiteral(t[..n], rest, bindings, variables);
    }
  }

  // ---------------------------------------------------------------- what the compiler takes from a template

  /** The command the compiler makes of a step, in the words of its template. */
  function TemplateCommand(template: MobileStep, runtime: MobileStep): Command {
    match template.kind
    case Context => Waits(template.text)
    case Action => Clicks(template.text)
    case Outcome =>
      match (AssertionOf(template.text), AssertionOf(runtime.text))
      case (Some(t), Some(r)) =>
        if t.what != TextIs then Checks(t.what, t.body)
        else if SeparatorIn(t.body).Some? && SeparatorIn(r.body).Some? then
          var i := SeparatorIn(t.body).value;
          ChecksText(t.body[..i], t.body[i + 3..])
        else ChecksText(t.body, [])
      case _ => Checks(Visible, EscapedTextSelector(template.text))
  }

  function ExpandCommand(command: Command, bindings: seq<Binding>, variables: Variables): Command {
    match command
    case Waits(text) => Waits(Expand(text, bindings, variables))
    case Clicks(text) => Clicks(Expand(text, bindings, variables))
    case Checks(what, text) => Checks(what, Expand(text, bindings, variables))
    case ChecksText(text, expected) =>
      ChecksText(Expand(text, bindings, variables), Expand(expected, bindings, variables))
  }

  function SubstituteCommand(command: Command, bindings: seq<Binding>): Command {
    match command
    case Waits(text) => Waits(Substitute(text, bindings))
    case Clicks(text) => Clicks(Substitute(text, bindings))
    case Checks(what, text) => Checks(what, Substitute(text, bindings))
    case ChecksText(text, expected) => ChecksText(Substitute(text, bindings), Substitute(expected, bindings))
  }

  predicate LiteralCommand(command: Command) {
    IsLiteral(command.text) && (command.ChecksText? ==> IsLiteral(command.expected))
  }

  /** The command with placeholders in its texts. */
  function ReplaceCommand(command: Command, names: seq<Text>, variables: Variables): Command {
    match command
    case Waits(text) => Waits(ReplaceVariables(text, names, variables))
    case Clicks(text) => Clicks(ReplaceVariables(text, names, variables))
    case Checks(what, text) => Checks(what, ReplaceVariables(text, names, variables))
    case ChecksText(text, expected) =>
      ChecksText(ReplaceVariables(text, names, variables), ReplaceVariables(expected, names, variables))
  }

  lemma AssertionSaysTemplate(template: MobileStep, runtime: MobileStep, names: seq<Text>, variables: Variables)
    requires template.kind.Outcome?
    ensures CommandOf(AssertionOperation(template, runtime, names, variables))
         == ReplaceCommand(TemplateCommand(template, runtime), names, variables)
  {
    assert ReplaceVariables([], names, variables) == [];
    hide AssertionOf, ReplaceVariables, EscapedTextSelector, SeparatorIn;
    match (AssertionOf(template.text), AssertionOf(runtime.text))
    case (Some(t), Some(r)) =>
    case _ =>
  }

  lemma OperationSaysTemplate(template: MobileStep, runtime: MobileStep, names: seq<Text>, variables: Variables)
    ensures CommandOf(OperationFor(template, runtime, names, variables))
         == ReplaceCommand(TemplateCommand(template, runtime), names, variables)
  {
    if template.kind.Outcome? {
      AssertionSaysTemplate(template, runtime, names, variables);
    }
    hide AssertionOperation, AssertionOf, ReplaceVariables, EscapedTextSelector, SeparatorIn;
  }

  lemma BodyIsSuffix(t: Text)
    requires IsLiteral(t) && BodyOf(t).Some?
    ensures IsLiteral(BodyOf(t).value)
  {
    var spaces := SpaceLength(t);
    var i := if spaces < |t| || spaces == 0 then spaces else spaces - 1;
    assert BodyOf(t).value == t[i..] == t[i..|t|];
    LiteralPart(t, i, |t|);
  }

  lemma {:induction false} AssertionPart(t: Text, predicates: seq<Predicate>)
    requires IsLiteral(t) && AssertionIn(t, predicates).Some?
    ensures IsLiteral(AssertionIn(t, predicates).value.body)
  {
    var prefix := Ascii(Name(predicates[0])) + [COLON];
    hide IsLiteral, BodyOf, Ascii, Name;
    if StartsWith(t, prefix) {
      LiteralPart(t, |prefix|, |t|);
      assert t[|prefix|..|t|] == t[|prefix|..];
      BodyIsSuffix(t[|prefix|..]);
    } else {
      AssertionPart(t, predicates[1..]);
    }
  }

  lemma LiteralSides(body: Text)
    requires IsLiteral(body) && SeparatorIn(body).Some?
    ensures IsLiteral(body[..SeparatorIn(body).value]) && IsLiteral(body[SeparatorIn(body).value + 3..])
  {
    var i := SeparatorIn(body).value;
    LiteralPart(body, 0, i);
    LiteralPart(body, i + 3, |body|);
    assert body[0..i] == body[..i] && body[i + 3..|body|] == body[i + 3..];
  }

  lemma TemplateCommandIsLiteral(template: MobileStep, runtime: MobileStep)
    requires IsLiteral(template.text)
    ensures LiteralCommand(TemplateCommand(template, runtime))
  {
    EscapedSelectorIsLiteral(template.text);
    assert IsLiteral([]);
    var assertion := AssertionOf(template.text);
    if assertion.Some? {
      AssertionPart(template.text, PREDICATES);
    }
    hide IsLiteral, AssertionOf, SeparatorIn, EscapedTextSelector;
    if assertion.Some? && SeparatorIn(assertion.value.body).Some? {
      LiteralSides(assertion.value.body);
    }
  }

  /** With the values in its placeholders, a compiled step is its template's command with the bound values. */
  lemma ExpandedOperation(template: MobileStep, runtime: MobileStep, bindings: seq<Binding>, variables: Variables)
    requires AreReplayVariables(variables) && LiteralCommand(TemplateCommand(template, runtime))
    ensures ExpandCommand(CommandOf(OperationFor(template, runtime, Names(bindings), variables)), bindings, variables)
         == SubstituteCommand(TemplateCommand(template, runtime), bindings)
  {
    var command := TemplateCommand(template, runtime);
    OperationSaysTemplate(template, runtime, Names(bindings), variables);
    ExpandUndoesReplacing(command.text, bindings, variables);
    if command.ChecksText? {
      ExpandUndoesReplacing(command.expected, bindings, variables);
    }
    hide OperationFor, TemplateCommand, CommandOf, Expand, Substitute, ReplaceVariables, AreReplayVariables;
  }

  // ---------------------------------------------------------------- what a script does

  /** The line says the command, once its variables have their values. */
  ghost predicate Replays(line: Text, command: Command, bindings: seq<Binding>, variables: Variables) {
    exists said: Command :: Says(line, said) && ExpandCommand(said, bindings, variables) == command
  }

  /** A line that says a command replays what that command expands to, and nothing else. */
  lemma ReplaysWhatItSays(operation: Operation, command: Command, bindings: seq<Binding>, variables: Variables)
    ensures Replays(OperationLine(operation), command, bindings, variables)
       <==> ExpandCommand(CommandOf(operation), bindings, variables) == command
  {
    var line := OperationLine(operation);
    LineSays(operation);
    hide Says, OperationLine, CommandOf, ExpandCommand;
    if Replays(line, command, bindings, variables) {
      var said: Command :| Says(line, said) && ExpandCommand(said, bindings, variables) == command;
      SaysOneThing(line, said, CommandOf(operation));
    }
  }
}
