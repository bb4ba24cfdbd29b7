/**
 The environment that a compiled scenario is replayed with
 (packages/mobile/src/agent-device/mobile-ad-script.ts and
 packages/mobile/src/agent-device/agent-device-gateway.ts): one `variable=value` entry for each
 required name.
 */
module MobileEnvironment {
  import opened Wrappers
  import opened JsonText
  import opened MobileScript
  import opened MobileExecutionCache
  import opened MobileVariables
  import opened MobileMeaning

  const EQUAL_SIGN: nat := 0x3D

  // ---------------------------------------------------------------- the value of a binding

  /** Binding k gives the name its value: no later one has the name. */
  predicate IsLastOf(bindings: seq<Binding>, name: Text, k: nat) {
    && k < |bindings| && bindings[k].name == name
    && forall j :: k < j < |bindings| ==> bindings[j].name != name
  }

  lemma {:induction false} ValueIsLast(bindings: seq<Binding>, name: Text) returns (k: nat)
    requires name in Names(bindings)
    ensures IsLastOf(bindings, name, k) && ValueOf(bindings, name) == bindings[k].value
  {
    var n := |bindings| - 1;
    if bindings[n].name == name {
      return n;
    }
    var i :| 0 <= i < |bindings| && Names(bindings)[i] == name;
    assert Names(bindings[..n])[i] == name;
    k := ValueIsLast(bindings[..n], name);
  }

  // ---------------------------------------------------------------- reading an environment

  /** An entry is split at its first `=`. */
  function EntryName(entry: Text): Text {
    match IndexOf(entry, EQUAL_SIGN)
    case None => entry
    case Some(i) => entry[..i]
  }

  function EntryValue(entry: Text): Text {
    match IndexOf(entry, EQUAL_SIGN)
    case None => []
    case Some(i) => entry[i + 1..]
  }

  /** The value that an environment gives a variable. */
  function LookUp(environment: seq<Text>, v: Text): Option<Text> {
    if environment == [] then None
    else if EntryName(environment[0]) == v then Some(EntryValue(environment[0]))
    else LookUp(environment[1..], v)
  }

  /** The text with its placeholders replaced by the values in the environment. */
  function ExpandIn(t: Text, environment: seq<Text>): Text {
    if t == [] then []
    else
      match PlaceholderLength(t)
      case None => [t[0]] + ExpandIn(t[1..], environment)
      case Some(n) =>
        (match LookUp(environment, t[2..n - 1])
         case None => t[..n]
         case Some(value) => value)
        + ExpandIn(t[n..], environment)
  }

  function ExpandCommandIn(command: Command, environment: seq<Text>): Command {
    match command
    case Waits(text) => Waits(ExpandIn(text, environment))
    case Clicks(text) => Clicks(ExpandIn(text, environment))
    case Checks(what, text) => Checks(what, ExpandIn(text, environment))
    case ChecksText(text, expected) => ChecksText(ExpandIn(text, environment), ExpandIn(expected, environment))
  }

  /** The line says the command, once its variables have the environment's values. */
  ghost predicate ReplaysIn(line: Text, command: Command, environment: seq<Text>) {
    exists said: Command :: Says(line, said) && ExpandCommandIn(said, environment) == command
  }

  // ---------------------------------------------------------------- the compiled environment

  lemma EntryParts(v: Text, value: Text)
    requires EQUAL_SIGN !in v
    ensures EntryName(v + [EQUAL_SIGN] + value) == v && EntryValue(v + [EQUAL_SIGN] + value) == value
  {
    var entry, more := v + [EQUAL_SIGN] + value, [EQUAL_SIGN] + value;
    assert entry == v + more && entry[|v|] == EQUAL_SIGN;
    assert forall i :: 0 <= i < |v| ==> entry[i] == v[i] && v[i] in v;
    assert IndexOf(entry, EQUAL_SIGN) == Some(|v|);
    assert entry[..|v|] == v && entry[|v| + 1..] == value;
  }

  /** Entry i is that of the required name i: its variable, and the value of the name's last binding. */
  lemma EnvironmentGivesLast(platform: Platform, applicationId: Text, s: Scenario, variables: Variables, i: nat)
      returns (k: nat)
    requires AreReplayVariables(variables)
    requires i < |CompileMobileScenario(platform, applicationId, s, variables).requiredVariables|
    ensures
      var compiled := CompileMobileScenario(platform, applicationId, s, variables);
      var name := compiled.requiredVariables[i];
      && |compiled.runtimeEnv| == |compiled.requiredVariables|
      && IsLastOf(s.bindings, name, k)
      && EntryName(compiled.runtimeEnv[i]) == variables(name)
      && EntryValue(compiled.runtimeEnv[i]) == s.bindings[k].value
  {
    hide Operations, ScriptLines, Lines;
    var compiled := CompileMobileScenario(platform, applicationId, s, variables);
    var name := compiled.requiredVariables[i];
    UsedAreContained(compiled.payload.script, Names(s.bindings), variables, name);
    k := ValueIsLast(s.bindings, name);
    ReplayableIsPlain(variables(name));
    EntryParts(variables(name), s.bindings[k].value);
  }

  ghost predicate Gives(environment: seq<Text>, names: seq<Text>, bindings: seq<Binding>, variables: Variables) {
    && |environment| == |names|
    && forall i :: 0 <= i < |names| ==>
      EntryName(environment[i]) == variables(names[i]) && EntryValue(environment[i]) == ValueOf(bindings, names[i])
  }

  lemma {:induction false} LookUpGiven(environment: seq<Text>, names: seq<Text>, bindings: seq<Binding>,
                                       variables: Variables, name: Text)
    requires AreReplayVariables(variables) && Gives(environment, names, bindings, variables)
    ensures LookUp(environment, variables(name)) == if name in names then Some(ValueOf(bindings, name)) else None
  {
    if names != [] {
      assert names[0] != name ==> variables(names[0]) != variables(name);
      assert forall i :: 0 <= i < |names[1..]| ==> environment[1..][i] == environment[i + 1];
      LookUpGiven(environment[1..], names[1..], bindings, variables, name);
      assert names == [names[0]] + names[1..];
    }
  }

  lemma {:induction false} LookUpForeign(environment: seq<Text>, names: seq<Text>, bindings: seq<Binding>,
                                         variables: Variables, v: Text)
    requires Gives(environment, names, bindings, variables) && forall name :: name in names ==> variables(name) != v
    ensures LookUp(environment, v).None?
  {
    if names != [] {
      assert names[0] in names;
      assert forall i :: 0 <= i < |names[1..]| ==> environment[1..][i] == environment[i + 1];
      LookUpForeign(environment[1..], names[1..], bindings, variables, v);
    }
  }

  lemma {:induction false} ForeignValue(v: Text, names: seq<Text>, bindings: seq<Binding>, variables: Variables)
    requires forall name :: name in names ==> variables(name) != v
    ensures EnvironmentValue(v, names, bindings, variables).None?
  {
    if names != [] {
      assert names[0] in names;
      ForeignValue(v, names[1..], bindings, variables);
    }
  }

  /** The placeholders of the text that stand for bound names are in the script. */
  ghost predicate OccurIn(t: Text, script: Text, names: seq<Text>, variables: Variables) {
    forall v :: v in Placeholders(t) && Stands(v, names, variables) ==> Contains(script, Placeholder(v))
  }

  lemma SameValue(environment: seq<Text>, script: Text, bindings: seq<Binding>, variables: Variables, v: Text)
    requires AreReplayVariables(variables)
    requires Gives(environment, UsedVariableNames(script, Names(bindings), variables), bindings, variables)
    requires Stands(v, Names(bindings), variables) ==> Contains(script, Placeholder(v))
    ensures LookUp(environment, v) == EnvironmentValue(v, Names(bindings), bindings, variables)
  {
    var names, used := Names(bindings), UsedVariableNames(script, Names(bindings), variables);
    if Stands(v, names, variables) {
      var name :| name in names && v == variables(name);
      UsedAreContained(script, names, variables, name);
      LookUpGiven(environment, used, bindings, variables, name);
      ValueOfName(name, names, bindings, variables);
    } else {
      forall name | name in used ensures variables(name) != v {
        UsedAreContained(script, names, variables, name);
      }
      LookUpForeign(environment, used, bindings, variables, v);
      ForeignValue(v, names, bindings, variables);
    }
  }

  /** With the compiled environment a text of the script expands as with the values of all bindings. */
  lemma {:induction false} ExpandsAlike(t: Text, environment: seq<Text>, script: Text, bindings: seq<Binding>,
                                        variables: Variables)
    requires AreReplayVariables(variables) && OccurIn(t, script, Names(bindings), variables)
    requires Gives(environment, UsedVariableNames(script, Names(bindings), variables), bindings, variables)
    ensures ExpandIn(t, environment) == Expand(t, bindings, variables)
    decreases |t|
  {
    if t != [] {
      match PlaceholderLength(t)
      case None =>
        assert forall v :: v in Placeholders(t[1..]) ==> v in Placeholders(t);
        ExpandsAlike(t[1..], environment, script, bindings, variables);
      case Some(n) =>
        assert t[2..n - 1] in Placeholders(t);
        assert forall v :: v in Placeholders(t[n..]) ==> v in Placeholders(t);
        SameValue(environment, script, bindings, variables, t[2..n - 1]);
        ExpandsAlike(t[n..], environment, script, bindings, variables);
    }
  }

  // ---------------------------------------------------------------- placeholders of an argument are in the script

  lemma OtherFirst(t: Text, p: Text)
    requires t != [] && p != [] && t[0] != p[0]
    ensures !StartsWith(t, p)
  {
    assert |p| <= |t| ==> t[..|p|][0] == t[0];
  }

  lemma {:induction false} WrittenContains(t: Text, p: Text)
    requires Contains(t, p) && p != [] && AllWrittenAsIs(p)
    ensures Contains(WriteUnits(t), p)
    decreases |t|
  {
    if StartsWith(t, p) {
      PlainIsWritten(p, t[|p|..]);
      assert t == p + t[|p|..];
      assert WriteUnits(t)[..|p|] == p;
    } else if StartsWithPair(t) {
      assert p[0] in p;
      OtherFirst(t[1..], p);
      assert t[1..][1..] == t[2..];
      WrittenContains(t[2..], p);
      assert WriteUnits(t)[2..] == WriteUnits(t[2..]);
      ContainsLater(WriteUnits(t), 2, p);
    } else {
      var w := WriteUnit(t[0]);
      WrittenContains(t[1..], p);
      assert WriteUnits(t)[|w|..] == WriteUnits(t[1..]);
      ContainsLater(WriteUnits(t), |w|, p);
    }
  }

  lemma PlaceholderIsWritten(v: Text)
    requires Replayable(v)
    ensures AllWrittenAsIs(Placeholder(v))
  {
    ReplayableIsPlain(v);
  }

  lemma ContainsAround(before: Text, t: Text, after: Text, p: Text)
    requires Contains(t, p)
    ensures Contains(before + (t + after), p)
  {
    var all, i := before + (t + after), PositionOf(t, p);
    assert all[|before| + i..|before| + i + |p|] == t[i..i + |p|];
    ContainsAt(all, |before| + i, p);
  }

  lemma QuotedContains(before: Text, t: Text, after: Text, p: Text)
    requires Contains(t, p) && p != [] && AllWrittenAsIs(p)
    ensures Contains(before + (WriteString(t) + after), p)
  {
    WrittenContains(t, p);
    hide Contains, WriteUnits;
    ContainsAround([QUOTE], WriteUnits(t), [QUOTE], p);
    assert [QUOTE] + (WriteUnits(t) + [QUOTE]) == WriteString(t);
    ContainsAround(before, WriteString(t), after, p);
  }

  /** A text of the operation's command: its target, or what it is to be. */
  predicate IsTextOf(t: Text, command: Command) {
    t == command.text || (command.ChecksText? && t == command.expected)
  }

  lemma LineContains(operation: Operation, t: Text, p: Text)
    requires IsTextOf(t, CommandOf(operation)) && Contains(t, p) && p != [] && AllWrittenAsIs(p)
    ensures Contains(OperationLine(operation), p)
  {
    hide Contains, WriteString, Ascii, AllWrittenAsIs;
    var q := operation.target.template;
    match operation
    case WaitText(_) =>
      QuotedContains(Ascii("wait text "), t, [], p);
      assert WriteString(q) + [] == WriteString(q);
    case FindClick(_) =>
      QuotedContains(Ascii("find "), t, Ascii(" click"), p);
      Regroup(Ascii("find "), WriteString(q), Ascii(" click"));
    case Assert(what, _, expected) =>
      var front, space := Ascii("is ") + Ascii(Name(what)) + Ascii(" "), Ascii(" ");
      if what != TextIs {
        QuotedContains(front, t, [], p);
        assert front + (WriteString(q) + []) == front + WriteString(q) + [];
      } else {
        var e := ExpectedTemplate(expected);
        var after := space + WriteString(e);
        if t == q {
          QuotedContains(front, t, after, p);
          Regroup(front, WriteString(q), after);
        } else {
          QuotedContains(front + WriteString(q) + space, t, [], p);
          assert front + WriteString(q) + space + (WriteString(e) + []) == front + WriteString(q) + after;
        }
      }
  }

  /** A line replays, with an environment, what its own command expands to there, and nothing else. */
  lemma ReplaysInWhatItSays(operation: Operation, command: Command, environment: seq<Text>)
    ensures ReplaysIn(OperationLine(operation), command, environment)
       <==> ExpandCommandIn(CommandOf(operation), environment) == command
  {
    var line := OperationLine(operation);
    LineSays(operation);
    hide Says, OperationLine, CommandOf, ExpandCommandIn;
    if ReplaysIn(line, command, environment) {
      var said: Command :| Says(line, said) && ExpandCommandIn(said, environment) == command;
      SaysOneThing(line, said, CommandOf(operation));
    }
  }

  lemma TextOccurs(operation: Operation, t: Text, script: Text, names: seq<Text>, variables: Variables)
    requires AreReplayVariables(variables) && IsTextOf(t, CommandOf(operation))
    requires forall p :: Contains(OperationLine(operation), p) ==> Contains(script, p)
    ensures OccurIn(t, script, names, variables)
  {
    forall v | v in Placeholders(t) && Stands(v, names, variables) ensures Contains(script, Placeholder(v)) {
      FoundIsContained(t, v);
      PlaceholderIsWritten(v);
      hide AreReplayVariables, OperationLine, CommandOf, Contains, Placeholders, IsTextOf, AllWrittenAsIs;
      LineContains(operation, t, Placeholder(v));
    }
  }

  lemma CommandExpandsAlike(operation: Operation, environment: seq<Text>, script: Text, bindings: seq<Binding>,
                            variables: Variables)
    requires AreReplayVariables(variables)
    requires forall p :: Contains(OperationLine(operation), p) ==> Contains(script, p)
    requires Gives(environment, UsedVariableNames(script, Names(bindings), variables), bindings, variables)
    ensures ExpandCommandIn(CommandOf(operation), environment)
         == ExpandCommand(CommandOf(operation), bindings, variables)
  {
    hide AreReplayVariables, OperationLine, CommandOf, Contains, Gives, OccurIn, ExpandIn, Expand, UsedVariableNames;
    var command := CommandOf(operation);
    TextOccurs(operation, command.text, script, Names(bindings), variables);
    ExpandsAlike(command.text, environment, script, bindings, variables);
    if command.ChecksText? {
      TextOccurs(operation, command.expected, script, Names(bindings), variables);
      ExpandsAlike(command.expected, environment, script, bindings, variables);
    }
  }

  lemma CompiledGives(platform: Platform, applicationId: Text, s: Scenario, variables: Variables)
    requires AreReplayVariables(variables)
    ensures
      var compiled := CompileMobileScenario(platform, applicationId, s, variables);
      && compiled.requiredVariables == UsedVariableNames(compiled.payload.script, Names(s.bindings), variables)
      && Gives(compiled.runtimeEnv, compiled.requiredVariables, s.bindings, variables)
  {
    hide Operations, ScriptLines, Lines;
    var compiled := CompileMobileScenario(platform, applicationId, s, variables);
    var names := compiled.requiredVariables;
    forall i | 0 <= i < |names|
      ensures EntryName(compiled.runtimeEnv[i]) == variables(names[i])
      ensures EntryValue(compiled.runtimeEnv[i]) == ValueOf(s.bindings, names[i])
    {
      ReplayableIsPlain(variables(names[i]));
      EntryParts(variables(names[i]), ValueOf(s.bindings, names[i]));
    }
  }
}
