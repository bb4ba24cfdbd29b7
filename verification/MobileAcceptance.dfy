/**
 Which payloads the mobile cache accepts
 (packages/mobile/src/execution-cache/mobile-execution-cache.ts), line by line and character by
 character, and the fixed words of the scripts that the compiler writes
 (packages/mobile/src/agent-device/mobile-ad-script.ts).
 */
module MobileAcceptance {
  import opened Wrappers
  import opened JsonText
  import opened MobileScript
  import opened MobileExecutionCache
  import opened MobileVariables
  import JsonGrammar
  import JsonSpelling
  import Meaning = MobileMeaning

  // ---------------------------------------------------------------- characters

  predicate IsUpperCase(u: nat) {
    65 <= u <= 90
  }

  predicate IsLowerCase(u: nat) {
    97 <= u <= 122
  }

  predicate IsDecimalDigit(u: nat) {
    48 <= u <= 57
  }

  /** `[A-Za-z_][A-Za-z0-9_.-]*` */
  predicate NamesVariable(t: Text) {
    && |t| > 0 && (IsUpperCase(t[0]) || IsLowerCase(t[0]) || t[0] == 95)
    && forall i :: 0 <= i < |t| ==>
      IsUpperCase(t[i]) || IsLowerCase(t[i]) || IsDecimalDigit(t[i]) || t[i] == 95 || t[i] == 46 || t[i] == 45
  }

  /** `[A-Z_][A-Z0-9_]*` */
  predicate NamesReplayVariable(t: Text) {
    && |t| > 0 && !IsDecimalDigit(t[0])
    && forall i :: 0 <= i < |t| ==> IsUpperCase(t[i]) || IsDecimalDigit(t[i]) || t[i] == 95
  }

  /** Starts with `AD_`. */
  predicate IsOfDevice(t: Text) {
    |t| >= 3 && t[0] == 65 && t[1] == 68 && t[2] == 95
  }

  lemma NamesExactly(t: Text)
    ensures IsVariableName(t) <==> NamesVariable(t)
    ensures IsReplayVariable(t) <==> NamesReplayVariable(t)
    ensures IsReserved(t) <==> IsOfDevice(t)
  {
    var device := Ascii("AD_");
    assert device == [65, 68, 95];
    if |t| >= 3 {
      assert t[..3] == [t[0], t[1], t[2]];
    }
  }

  // The line terminators, and with them all white space, by code unit.
  const LINE_ENDS: set<nat> := {0x0A, 0x0D, 0x2028, 0x2029}
  const SPACES: set<nat> :=
    {0x09, 0x0A, 0x0B, 0x0C, 0x0D, 0x20, 0xA0, 0x1680, 0x2000, 0x2001, 0x2002, 0x2003, 0x2004, 0x2005, 0x2006,
     0x2007, 0x2008, 0x2009, 0x200A, 0x2028, 0x2029, 0x202F, 0x205F, 0x3000, 0xFEFF}

  lemma SpacesExactly(u: nat)
    ensures IsLineEnd(u) <==> u in LINE_ENDS
    ensures IsSpace(u) <==> u in SPACES
  {
  }

  // ---------------------------------------------------------------- placeholders and tags

  /** `${`, something without a closing brace, and `}`. */
  predicate IsPlaceholder(t: Text, n: nat) {
    && 4 <= n <= |t| && t[0] == 0x24 && t[1] == 0x7B && t[n - 1] == 0x7D
    && forall i :: 2 <= i < n - 1 ==> t[i] != 0x7D
  }

  lemma PlaceholderExactly(t: Text, n: nat)
    ensures PlaceholderLength(t) == Some(n) <==> IsPlaceholder(t, n)
  {
    if |t| >= 2 {
      var rest := t[2..];
      assert forall i :: 0 <= i < |rest| ==> rest[i] == t[i + 2];
      if IsPlaceholder(t, n) {
        assert rest[n - 3] == 0x7D;
      }
    }
  }

  lemma PlaceholderSpelled(v: Text)
    ensures Placeholder(v) == [0x24, 0x7B] + (v + [0x7D])
  {
  }

  /** `<`, something without a `>`, and `>`. */
  predicate IsTag(t: Text, n: nat) {
    3 <= n <= |t| && t[0] == 0x3C && t[n - 1] == 0x3E && forall i :: 1 <= i < n - 1 ==> t[i] != 0x3E
  }

  lemma TagExactly(t: Text, n: nat)
    ensures TagLength(t) == Some(n) <==> IsTag(t, n)
  {
    if |t| >= 1 {
      var rest := t[1..];
      assert forall i :: 0 <= i < |rest| ==> rest[i] == t[i + 1];
      if IsTag(t, n) {
        assert rest[n - 2] == 0x3E;
      }
    }
  }

  /** The separator of a text comparison stands first at an offset. */
  lemma {:induction false} SeparatorExactly(t: Text, i: nat)
    ensures SeparatorIn(t) == Some(i)
       <==> IsEquals(t, i) && forall k :: 0 <= k < i ==> !IsEquals(t, k)
    decreases |t|
  {
    assert StartsWith(t, EQUALS) <==> IsEquals(t, 0) by {
      if |t| >= 3 {
        assert t[..3] == [t[0], t[1], t[2]];
      }
    }
    if !StartsWith(t, EQUALS) && t != [] {
      SeparatorExactly(t[1..], if i == 0 then 0 else i - 1);
      assert forall k: nat :: 1 <= k ==> (IsEquals(t, k) <==> IsEquals(t[1..], k - 1));
      assert forall k: nat :: IsEquals(t[1..], k) <==> IsEquals(t, k + 1);
    }
  }

  /** A space, an equals sign and a space. */
  predicate IsEquals(t: Text, i: nat) {
    i + 3 <= |t| && t[i] == 32 && t[i + 1] == 61 && t[i + 2] == 32
  }

  /** `text="`, the escaped text, and a quote. */
  lemma SelectorExactly(t: Text)
    ensures EscapedTextSelector(t) == [0x74, 0x65, 0x78, 0x74, 0x3D, 0x22] + (EscapeSelector(t) + [0x22])
  {
    assert Ascii("text=") == [0x74, 0x65, 0x78, 0x74, 0x3D];
  }

  // ---------------------------------------------------------------- lines

  lemma SplitBehind(s: Text, t: Text)
    requires NEWLINE !in s
    ensures Split(s) == [s] && Split(s + ([NEWLINE] + t)) == [s] + Split(t)
  {
    var all := s + ([NEWLINE] + t);
    assert all[|s|] == NEWLINE && forall i :: 0 <= i < |s| ==> all[i] == s[i] && s[i] in s;
    assert IndexOf(s, NEWLINE).None? && IndexOf(all, NEWLINE) == Some(|s|);
    assert all[..|s|] == s && all[|s| + 1..] == t;
  }

  lemma NonEmptyBehind(s: Text, lines: seq<Text>)
    ensures NonEmpty([s] + lines) == (if s == [] then [] else [s]) + NonEmpty(lines)
  {
    assert ([s] + lines)[1..] == lines && ([s] + lines)[0] == s;
  }

  /** Without a line feed a text is one line, or none; a line feed only separates what is before and behind it. */
  lemma LinesExactly(s: Text, t: Text)
    requires NEWLINE !in s
    ensures ScriptLinesOf(s) == if s == [] then [] else [s]
    ensures ScriptLinesOf(s + ([0x0A] + t)) == ScriptLinesOf(s) + ScriptLinesOf(t)
  {
    SplitBehind(s, t);
    NonEmptyBehind(s, Split(t));
    NonEmptyBehind(s, []);
    assert [s] + [] == [s] && NonEmpty([]) == [];
    hide Split, NonEmpty;
  }

  /** Any characters between two quotes, but quotes and backslashes only behind a backslash. */
  ghost predicate InsideQuotes(w: Text) {
    || w == []
    || (w[0] != 0x22 && w[0] != 0x5C && InsideQuotes(w[1..]))
    || (|w| >= 2 && w[0] == 0x5C && w[1] !in LINE_ENDS && InsideQuotes(w[2..]))
  }

  ghost predicate IsQuoted(w: Text) {
    |w| >= 2 && w[0] == 0x22 && w[|w| - 1] == 0x22 && InsideQuotes(w[1..|w| - 1])
  }

  lemma {:induction false} RestExactly(t: Text, n: nat)
    ensures QuotedRest(t) == Some(n) <==> 0 < n <= |t| && t[n - 1] == 0x22 && InsideQuotes(t[..n - 1])
    decreases |t|
  {
    if t != [] && t[0] != QUOTE {
      var k := if t[0] == BACKSLASH then 2 else 1;
      if k <= |t| {
        RestExactly(t[k..], if n < k then 0 else n - k);
        if k < n <= |t| {
          assert t[..n - 1][k..] == t[k..][..n - k - 1];
          assert t[..n - 1][0] == t[0] && (k == 2 ==> n > 2 ==> t[..n - 1][1] == t[1]);
        }
      }
    }
    if 0 < n <= |t| && t != [] && t[0] == QUOTE && n > 1 {
      assert t[..n - 1][0] == QUOTE;
    }
  }

  lemma QuotedExactly(t: Text, n: nat)
    ensures QuotedLength(t) == Some(n) <==> n <= |t| && IsQuoted(t[..n])
  {
    if t != [] && n > 0 {
      RestExactly(t[1..], n - 1);
      if 2 <= n <= |t| {
        assert t[..n][1..n - 1] == t[1..][..n - 2];
      }
    }
  }

  // ---------------------------------------------------------------- the lines of a script

  lemma AfterQuotedExactly(line: Text, prefix: Text, rest: Text)
    ensures AfterQuoted(line, prefix) == Some(rest) <==> exists q :: line == prefix + (q + rest) && IsQuoted(q)
  {
    if StartsWith(line, prefix) {
      var more := line[|prefix|..];
      assert line == prefix + more;
      if AfterQuoted(line, prefix) == Some(rest) {
        var n := QuotedLength(more).value;
        QuotedExactly(more, n);
        assert more == more[..n] + rest && line == prefix + (more[..n] + rest);
      }
    }
    if q :| line == prefix + (q + rest) && IsQuoted(q) {
      var more := q + rest;
      assert line[..|prefix|] == prefix && line[|prefix|..] == more;
      assert more[..|q|] == q && more[|q|..] == rest;
      QuotedExactly(more, |q|);
    }
  }

  /** The words for what can be asserted. */
  const STATES: set<string> := {"visible", "hidden", "exists", "editable", "selected", "focused"}

  ghost predicate WaitsFor(line: Text) {
    exists q :: line == Ascii("wait text ") + q && IsQuoted(q)
  }

  ghost predicate Clicks(line: Text) {
    exists q :: line == Ascii("find ") + (q + Ascii(" click")) && IsQuoted(q)
  }

  ghost predicate ChecksState(line: Text) {
    exists word, q :: word in STATES && line == Ascii("is ") + Ascii(word) + Ascii(" ") + q && IsQuoted(q)
  }

  ghost predicate ComparesText(line: Text) {
    exists q, e :: line == Ascii("is text ") + (q + (Ascii(" ") + e)) && IsQuoted(q) && IsQuoted(e)
  }

  lemma WordsExactly()
    ensures Name(TextIs) == "text"
    ensures forall word :: word in STATES <==> exists p: Predicate :: p != TextIs && Name(p) == word
  {
    forall word | word in STATES ensures exists p: Predicate :: p != TextIs && Name(p) == word {
      var p := if word == "visible" then Visible else if word == "hidden" then Hidden
        else if word == "exists" then Exists else if word == "editable" then Editable
        else if word == "selected" then Selected else Focused;
      assert p != TextIs && Name(p) == word;
    }
  }

  lemma NothingBehind(line: Text, prefix: Text)
    ensures AfterQuoted(line, prefix) == Some([]) <==> exists q :: line == prefix + q && IsQuoted(q)
  {
    AfterQuotedExactly(line, prefix, []);
    assert forall q: Text :: q + [] == q;
    hide AfterQuoted, IsQuoted;
  }

  lemma TextExactly(line: Text)
    ensures IsTextAssertion(line) <==> ComparesText(line)
  {
    var prefix := AssertionPrefix(TextIs);
    assert prefix == Ascii("is text ") by {
      assert Name(TextIs) == "text";
      assert Ascii("is ") + Ascii("text") + Ascii(" ") == Ascii("is text ");
    }
    hide IsQuoted, Ascii;
    if IsTextAssertion(line) {
      var rest := AfterQuoted(line, prefix).value;
      AfterQuotedExactly(line, prefix, rest);
      NothingBehind(rest, Ascii(" "));
    }
    if q, e :| line == Ascii("is text ") + (q + (Ascii(" ") + e)) && IsQuoted(q) && IsQuoted(e) {
      AfterQuotedExactly(line, prefix, Ascii(" ") + e);
      NothingBehind(Ascii(" ") + e, Ascii(" "));
    }
  }

  lemma StateExactly(line: Text)
    ensures IsStateAssertion(line) <==> ChecksState(line)
  {
    WordsExactly();
    forall p: Predicate ensures AfterQuoted(line, AssertionPrefix(p)) == Some([])
      <==> exists q :: line == AssertionPrefix(p) + q && IsQuoted(q)
    {
      NothingBehind(line, AssertionPrefix(p));
    }
    hide AfterQuoted, IsQuoted, Ascii, Name;
    if IsStateAssertion(line) {
      var p: Predicate :| p != TextIs && AfterQuoted(line, AssertionPrefix(p)) == Some([]);
      var q :| line == AssertionPrefix(p) + q && IsQuoted(q);
      assert Name(p) in STATES;
    }
    if word, q :| word in STATES && line == Ascii("is ") + Ascii(word) + Ascii(" ") + q && IsQuoted(q) {
      var p: Predicate :| p != TextIs && Name(p) == word;
      assert line == AssertionPrefix(p) + q;
    }
  }

  /** An operation waits for a text, clicks it, checks a state of it, or compares a text. */
  lemma OperationExactly(line: Text)
    ensures IsOperation(line) <==> WaitsFor(line) || Clicks(line) || ChecksState(line) || ComparesText(line)
  {
    NothingBehind(line, Ascii("wait text "));
    AfterQuotedExactly(line, Ascii("find "), Ascii(" click"));
    StateExactly(line);
    TextExactly(line);
    hide AfterQuoted, IsQuoted, Ascii, IsStateAssertion, IsTextAssertion, ChecksState, ComparesText;
  }

  /** The line opens the application, whose id the quoted argument spells. */
  ghost predicate Opens(line: Text, applicationId: Text) {
    exists q ::
      && line == Ascii("open ") + (q + Ascii(" --relaunch")) && IsQuoted(q)
      && JsonSpelling.StringSpells(q, applicationId)
  }

  lemma DecodesExactly(q: Text, s: Text)
    requires IsQuoted(q)
    ensures JsonGrammar.Starts(q, QUOTE)
    ensures JsonGrammar.DecodeString(q) == Some(s) <==> JsonSpelling.StringSpells(q, s)
  {
    hide InsideQuotes, JsonGrammar.DecodeUnits, JsonSpelling.UnitsSpell;
    if JsonGrammar.DecodeString(q) == Some(s) {
      JsonSpelling.DecodedIsSpelled(q[1..], s);
      assert q[1..][..|q| - 2] == q[1..|q| - 1];
    }
    if JsonSpelling.StringSpells(q, s) {
      JsonSpelling.SpelledIsDecoded(q[1..|q| - 1], s);
      assert q[1..] == q[1..|q| - 1] + [QUOTE];
    }
  }

  // ---------------------------------------------------------------- what a line says

  /** A quoted argument that spells the text. */
  ghost predicate Quotes(q: Text, text: Text) {
    IsQuoted(q) && JsonSpelling.StringSpells(q, text)
  }

  lemma ArgumentExactly(line: Text, prefix: Text, rest: Text, text: Text)
    ensures AfterQuoted(line, prefix) == Some(rest) && Meaning.ArgumentText(line, prefix) == Some(text)
       <==> exists q :: line == prefix + (q + rest) && Quotes(q, text)
  {
    AfterQuotedExactly(line, prefix, rest);
    if q :| line == prefix + (q + rest) && IsQuoted(q) {
      var more := q + rest;
      assert line[..|prefix|] == prefix && line[|prefix|..] == more && more[..|q|] == q;
      QuotedExactly(more, |q|);
      DecodesExactly(q, text);
      forall w | line == prefix + (w + rest) ensures w == q {
        assert line[|prefix|..] == w + rest && (w + rest)[..|w|] == w;
      }
    }
  }

  /** What a line says, by its words and what its quoted arguments spell. */
  ghost predicate Reads(line: Text, command: Meaning.Command) {
    match command
    case Waits(text) => exists q :: line == Ascii("wait text ") + (q + []) && Quotes(q, text)
    case Clicks(text) => exists q :: line == Ascii("find ") + (q + Ascii(" click")) && Quotes(q, text)
    case Checks(what, text) =>
      what != TextIs && exists q :: line == Ascii("is ") + Ascii(Name(what)) + Ascii(" ") + (q + []) && Quotes(q, text)
    case ChecksText(text, expected) =>
      exists rest, q ::
        line == Ascii("is text ") + (q + rest) && Quotes(q, text) && ReadsOn(rest, expected)
  }

  ghost predicate ReadsOn(rest: Text, expected: Text) {
    exists q :: rest == Ascii(" ") + (q + []) && Quotes(q, expected)
  }

  lemma SaysExactly(line: Text, command: Meaning.Command)
    ensures Meaning.Says(line, command) <==> Reads(line, command)
  {
    hide Quotes, AfterQuoted, Meaning.ArgumentText;
    match command
    case Waits(text) => ArgumentExactly(line, Ascii("wait text "), [], text);
    case Clicks(text) => ArgumentExactly(line, Ascii("find "), Ascii(" click"), text);
    case Checks(what, text) => ArgumentExactly(line, AssertionPrefix(what), [], text);
    case ChecksText(text, expected) => ComparisonSays(line, text, expected);
  }

  lemma ComparisonSays(line: Text, text: Text, expected: Text)
    ensures Meaning.Says(line, Meaning.ChecksText(text, expected)) <==> Reads(line, Meaning.ChecksText(text, expected))
  {
    var prefix, space := AssertionPrefix(TextIs), Ascii(" ");
    assert prefix == Ascii("is text ") by {
      assert Name(TextIs) == "text";
      assert Ascii("is ") + Ascii("text") + Ascii(" ") == Ascii("is text ");
    }
    hide Quotes, AfterQuoted, Meaning.ArgumentText, Ascii;
    if Meaning.Says(line, Meaning.ChecksText(text, expected)) {
      var rest := AfterQuoted(line, prefix).value;
      ArgumentExactly(line, prefix, rest, text);
      ArgumentExactly(rest, space, [], expected);
      assert ReadsOn(rest, expected);
    }
    if rest, q :| line == prefix + (q + rest) && Quotes(q, text) && ReadsOn(rest, expected) {
      ArgumentExactly(line, prefix, rest, text);
      ArgumentExactly(rest, space, [], expected);
    }
  }

  lemma OpensExactly(line: Text, applicationId: Text)
    ensures OpensApplication(line, applicationId) <==> Opens(line, applicationId)
  {
    var prefix, end := Ascii("open "), Ascii(" --relaunch");
    AfterQuotedExactly(line, prefix, end);
    hide IsQuoted, AfterQuoted;
    if AfterQuoted(line, prefix) == Some(end) {
      var q :| line == prefix + (q + end) && IsQuoted(q);
      assert line[5..|line| - 11] == q;
      DecodesExactly(q, applicationId);
      forall w | line == prefix + (w + end) ensures w == q {
        assert w == line[5..|line| - 11];
      }
      hide Ascii;
    }
  }

  lemma ContextExactly(platform: Platform)
    ensures ContextLine(platform) == if platform == Ios then Ascii("context platform=ios")
                                     else Ascii("context platform=android")
  {
  }

  lemma {:induction false} ContextsCounted(lines: seq<Text>)
    ensures CountContexts(lines) == 0
       <==> forall i :: 0 <= i < |lines| ==> !StartsWith(lines[i], Ascii("context "))
  {
    if lines != [] {
      ContextsCounted(lines[1..]);
      assert forall i :: 1 <= i < |lines| ==> lines[i] == lines[1..][i - 1];
    }
  }

  /**
   The script ends with a line feed and holds no NUL; its lines are the context of the platform, as the
   only context, the line that opens the application, and operations.
   */
  ghost predicate IsScriptFor(script: Text, platform: Platform, applicationId: Text) {
    var lines := ScriptLinesOf(script);
    && script != [] && script[|script| - 1] == 0x0A && (forall i :: 0 <= i < |script| ==> script[i] != 0)
    && |lines| >= 2
    && lines[0] == (if platform == Ios then Ascii("context platform=ios") else Ascii("context platform=android"))
    && (forall i :: 1 <= i < |lines| ==> !StartsWith(lines[i], Ascii("context ")))
    && Opens(lines[1], applicationId)
    && (forall i :: 2 <= i < |lines| ==>
          WaitsFor(lines[i]) || Clicks(lines[i]) || ChecksState(lines[i]) || ComparesText(lines[i]))
  }

  lemma ContextIsOne(platform: Platform, lines: seq<Text>)
    requires lines != [] && lines[0] == ContextLine(platform)
    ensures CountContexts(lines) == 1
       <==> forall i :: 1 <= i < |lines| ==> !StartsWith(lines[i], Ascii("context "))
  {
    ContextsCounted(lines[1..]);
    assert forall i :: 1 <= i < |lines| ==> lines[i] == lines[1..][i - 1];
    var word := Ascii("context ");
    assert StartsWith(ContextLine(platform), word) by {
      assert ContextLine(platform)[..8] == word;
    }
    hide Ascii, StartsWith;
  }

  lemma ScriptExactly(script: Text, platform: Platform, applicationId: Text)
    ensures SupportsScenarioScript(script, platform, applicationId) <==> IsScriptFor(script, platform, applicationId)
  {
    var lines := ScriptLinesOf(script);
    ContextExactly(platform);
    hide ScriptLinesOf, Ascii, ContextLine, CountContexts;
    if |lines| >= 2 {
      if lines[0] == ContextLine(platform) {
        ContextIsOne(platform, lines);
      }
      OpensExactly(lines[1], applicationId);
      forall i | 2 <= i < |lines| ensures IsOperation(lines[i])
        <==> WaitsFor(lines[i]) || Clicks(lines[i]) || ChecksState(lines[i]) || ComparesText(lines[i])
      {
        OperationExactly(lines[i]);
      }
    }
    hide OpensApplication, Opens, IsOperation, WaitsFor, Clicks, ChecksState, ComparesText, StartsWith;
  }

  // ---------------------------------------------------------------- the whole payload

  /**
   The required names are distinct, well formed and not the device's; what the placeholder pattern
   matches in the script are their variables, each of them well formed, and no others.
   */
  ghost predicate HasJustVariables(script: Text, required: seq<Text>, variables: Variables) {
    && (forall i, j :: 0 <= i < j < |required| ==> required[i] != required[j])
    && (forall i :: 0 <= i < |required| ==> NamesVariable(required[i]) && !IsOfDevice(required[i]))
    && (forall v :: v in Placeholders(script) <==> exists i :: 0 <= i < |required| && v == variables(required[i]))
  }

  lemma VariablesExactly(script: Text, required: seq<Text>, variables: Variables)
    requires AreReplayVariables(variables)
    ensures HasExactVariables(script, required, variables) <==> HasJustVariables(script, required, variables)
  {
    forall t ensures IsVariableName(t) <==> NamesVariable(t)
      ensures IsReserved(t) <==> IsOfDevice(t)
    {
      NamesExactly(t);
    }
    DistinctIsSet(required);
    forall v | Stands(v, required, variables) ensures exists i :: 0 <= i < |required| && v == variables(required[i]) {
      var name :| name in required && v == variables(name);
      var i :| 0 <= i < |required| && required[i] == name;
    }
    assert (forall i :: 0 <= i < |required| ==> NamesVariable(required[i]) && !IsOfDevice(required[i]))
      <==> forall name :: name in required ==> IsVariableName(name) && !IsReserved(name);
    if HasExactVariables(script, required, variables) {
      forall v ensures v in Placeholders(script) <==> Stands(v, required, variables) {
        ExactVariablesAreAll(script, required, variables, v);
      }
    }
    if HasJustVariables(script, required, variables) {
      JustVariablesAreExact(script, required, variables);
    }
  }

  lemma JustVariablesAreExact(script: Text, required: seq<Text>, variables: Variables)
    requires AreReplayVariables(variables) && NoneTwice(required)
    requires forall v :: v in Placeholders(script) <==> Stands(v, required, variables)
    ensures VariablesOf(script).Some? && |VariablesOf(script).value| == |required|
    ensures forall v :: v in VariablesOf(script).value ==> Stands(v, required, variables)
  {
    var found, mapped := Distinct(Placeholders(script)), Mapped(required, variables);
    DistinctIsSet(Placeholders(script));
    MappedNoneTwice(required, variables);
    forall v ensures v in found <==> v in mapped {
      if v in mapped {
        var i :| 0 <= i < |mapped| && mapped[i] == v;
        assert required[i] in required;
      }
      if v in found {
        assert Stands(v, required, variables);
        var name :| name in required && v == variables(name);
        var i :| 0 <= i < |required| && required[i] == name;
        assert mapped[i] == v;
      }
    }
    SameSize(found, mapped);
  }

  /** Range i is plan step i + 2 alone, and there is one for each line after the first two. */
  ghost predicate CountsOperations(ranges: seq<StepRange>, lines: nat) {
    && lines > 2 && |ranges| == lines - 2
    && (forall i :: 0 <= i < |ranges| ==> ranges[i] == StepRange(i + 2, i + 2))
  }

  lemma RangesExactly(payload: Payload)
    requires payload.script != []
    ensures MatchesSchema(payload) && ValidRanges(payload.stepRanges)
            && RangesMatchScenarioOperations(payload.script, payload.stepRanges)
       <==> CountsOperations(payload.stepRanges, |ScriptLinesOf(payload.script)|)
  {
    hide ScriptLinesOf;
  }

  /**
   A payload is accepted exactly when its script is one for the platform and application with the
   required variables and no others, and its ranges count the operations from plan step 2 on.
   */
  lemma PayloadAcceptedExactlyWhen(payload: Payload, required: seq<Text>, platform: Platform, applicationId: Text,
                                   variables: Variables)
    requires AreReplayVariables(variables)
    ensures Accepted(payload, required, platform, applicationId, variables)
       <==> && IsScriptFor(payload.script, platform, applicationId)
            && CountsOperations(payload.stepRanges, |ScriptLinesOf(payload.script)|)
            && HasJustVariables(payload.script, required, variables)
  {
    ScriptExactly(payload.script, platform, applicationId);
    VariablesExactly(payload.script, required, variables);
    assert IsScriptFor(payload.script, platform, applicationId) ==> payload.script != [];
    hide ScriptLinesOf, SupportsScenarioScript, IsScriptFor, HasExactVariables, HasJustVariables, AreReplayVariables,
      CountsOperations, ValidRanges, RangesMatchScenarioOperations;
    if payload.script != [] {
      RangesExactly(payload);
    }
  }
}
