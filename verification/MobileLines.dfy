/**
 The lines that the mobile compiler writes
 (packages/mobile/src/agent-device/mobile-ad-script.ts) are lines that the mobile cache supports
 (packages/mobile/src/execution-cache/mobile-execution-cache.ts).
 */
module MobileLines {
  import opened Wrappers
  import opened JsonText
  import opened MobileScript
  import opened MobileExecutionCache
  import JsonGrammar
  import JsonRoundTrip

  // ---------------------------------------------------------------- quoted arguments

  lemma {:induction false} WrittenPrintable(s: Text)
    ensures forall u :: u in WriteUnits(s) ==> u >= 0x20
  {
    if s != [] {
      if StartsWithPair(s) {
        WrittenPrintable(s[2..]);
      } else {
        WrittenPrintable(s[1..]);
      }
    }
  }

  lemma OneUnitQuoted(u: nat, t: Text, k: nat)
    requires QuotedRest(t) == Some(k)
    ensures QuotedRest(WriteUnit(u) + t) == Some(|WriteUnit(u)| + k)
  {
    var w := WriteUnit(u);
    if w == [u] {
      assert (w + t)[1..] == t;
    } else if |w| == 2 {
      assert (w + t)[2..] == t;
    } else {
      HexQuoted(u, t, k);
    }
  }

  lemma OnePlainQuoted(u: nat, t: Text, k: nat)
    requires QuotedRest(t) == Some(k) && u != QUOTE && u != BACKSLASH
    ensures QuotedRest([u] + t) == Some(1 + k)
  {
    assert ([u] + t)[1..] == t;
  }

  lemma HexDigitIsPlain(n: nat)
    requires n < 16
    ensures HexDigit(n) != QUOTE && HexDigit(n) != BACKSLASH
  {
  }

  lemma Grouped(a: nat, b: nat, c: nat, d: nat, t: Text)
    ensures [a, b, c, d] + t == [a] + ([b] + ([c] + ([d] + t)))
  {
  }

  lemma FourPlainQuoted(a: nat, b: nat, c: nat, d: nat, t: Text, k: nat)
    requires QuotedRest(t) == Some(k)
    requires a != QUOTE && a != BACKSLASH && b != QUOTE && b != BACKSLASH
    requires c != QUOTE && c != BACKSLASH && d != QUOTE && d != BACKSLASH
    ensures QuotedRest([a, b, c, d] + t) == Some(4 + k)
  {
    var t1 := [d] + t;
    var t2 := [c] + t1;
    var t3 := [b] + t2;
    hide QuotedRest;
    OnePlainQuoted(d, t, k);
    OnePlainQuoted(c, t1, k + 1);
    OnePlainQuoted(b, t2, k + 2);
    OnePlainQuoted(a, t3, k + 3);
    Grouped(a, b, c, d, t);
  }

  lemma HexQuoted(u: nat, t: Text, k: nat)
    requires QuotedRest(t) == Some(k) && u < 0x10000
    ensures QuotedRest(HexEscape(u) + t) == Some(6 + k)
  {
    var w := HexEscape(u);
    HexDigitIsPlain(u / 0x1000);
    HexDigitIsPlain(u / 0x100 % 16);
    HexDigitIsPlain(u / 0x10 % 16);
    HexDigitIsPlain(u % 16);
    assert w == [BACKSLASH, LOWER_U, w[2], w[3], w[4], w[5]];
    hide HexEscape, HexDigit;
    FourPlainQuoted(w[2], w[3], w[4], w[5], t, k);
    assert (w + t)[2..] == [w[2], w[3], w[4], w[5]] + t;
  }

  lemma OneChunkQuoted(s: Text, t: Text, k: nat)
    requires s != [] && QuotedRest(t) == Some(k)
    ensures QuotedRest(JsonRoundTrip.WriteChunk(s) + t) == Some(|JsonRoundTrip.WriteChunk(s)| + k)
  {
    hide QuotedRest, WriteUnit;
    if StartsWithPair(s) {
      OnePlainQuoted(s[1], t, k);
      OnePlainQuoted(s[0], [s[1]] + t, k + 1);
      assert s[..2] + t == [s[0]] + ([s[1]] + t);
    } else {
      OneUnitQuoted(s[0], t, k);
    }
  }

  /** A written string is one quoted argument, whatever follows. */
  lemma {:induction false} WrittenIsQuoted(s: Text, rest: Text)
    ensures QuotedRest(WriteUnits(s) + ([QUOTE] + rest)) == Some(|WriteUnits(s)| + 1)
    decreases |s|
  {
    var end := [QUOTE] + rest;
    if s == [] {
      assert [] + end == end;
    } else {
      var chunk, tail := JsonRoundTrip.WriteChunk(s), s[JsonRoundTrip.ChunkSize(s)..];
      hide QuotedRest, JsonRoundTrip.WriteChunk, JsonRoundTrip.ChunkSize;
      WrittenIsQuoted(tail, rest);
      OneChunkQuoted(s, WriteUnits(tail) + end, |WriteUnits(tail)| + 1);
      JsonRoundTrip.WriteUnitsByChunk(s, end);
      JsonRoundTrip.WriteUnitsByChunk(s, []);
      hide WriteUnits;
      assert WriteUnits(s) + [] == WriteUnits(s) && WriteUnits(tail) + [] == WriteUnits(tail);
    }
  }

  lemma AfterWritten(prefix: Text, s: Text, rest: Text)
    ensures AfterQuoted(prefix + (WriteString(s) + rest), prefix) == Some(rest)
  {
    var line := prefix + (WriteString(s) + rest);
    var tail := WriteString(s) + rest;
    WrittenIsQuoted(s, rest);
    assert tail[1..] == WriteUnits(s) + ([QUOTE] + rest);
    assert line[|prefix|..] == tail;
    assert tail[|WriteString(s)|..] == rest;
  }

  // ---------------------------------------------------------------- operation lines

  lemma AssertionIsOperation(what: Predicate, target: Text, expected: Text)
    ensures what != TextIs ==> IsStateAssertion(AssertionPrefix(what) + WriteString(target))
    ensures what == TextIs ==>
      IsTextAssertion(AssertionPrefix(what) + WriteString(target) + (Ascii(" ") + WriteString(expected)))
  {
    var prefix, q, more := AssertionPrefix(what), WriteString(target), Ascii(" ") + WriteString(expected);
    AfterWritten(prefix, target, []);
    AfterWritten(prefix, target, more);
    AfterWritten(Ascii(" "), expected, []);
    hide AfterQuoted, WriteString, AssertionPrefix, Ascii;
    assert q + [] == q && WriteString(expected) + [] == WriteString(expected);
    assert prefix + q + more == prefix + (q + more);
  }

  lemma TargetIsOperation(target: Text)
    ensures IsWaitText(Ascii("wait text ") + WriteString(target))
    ensures IsFindClick(Ascii("find ") + WriteString(target) + Ascii(" click"))
  {
    var q := WriteString(target);
    AfterWritten(Ascii("wait text "), target, []);
    AfterWritten(Ascii("find "), target, Ascii(" click"));
    hide AfterQuoted, WriteString, Ascii;
    assert q + [] == q;
    assert Ascii("find ") + q + Ascii(" click") == Ascii("find ") + (q + Ascii(" click"));
  }

  lemma LineIsOperation(operation: Operation)
    ensures IsOperation(OperationLine(operation))
  {
    var line, q := OperationLine(operation), WriteString(operation.target.template);
    TargetIsOperation(operation.target.template);
    if operation.Assert? {
      var expected := ExpectedTemplate(operation.expected);
      AssertionIsOperation(operation.what, operation.target.template, expected);
      hide WriteString, Ascii, IsStateAssertion, IsTextAssertion, IsWaitText, IsFindClick;
      assert operation.what != TextIs ==> line == AssertionPrefix(operation.what) + q;
    }
    hide WriteString, Ascii, IsStateAssertion, IsTextAssertion, IsWaitText, IsFindClick;
  }

  ghost predicate Printable(t: Text) {
    forall u :: u in t ==> u >= 0x20
  }

  /** A line of the script that is not its first. */
  ghost predicate PlainLine(t: Text) {
    Printable(t) && t != [] && !StartsWith(t, Ascii("context "))
  }

  lemma PrintableSum(s: Text, t: Text)
    requires Printable(s) && Printable(t)
    ensures Printable(s + t)
  {
  }

  lemma WrittenStringPrintable(s: Text)
    ensures Printable(WriteString(s))
  {
    WrittenPrintable(s);
  }

  /** A line that starts with a word other than `context`. */
  lemma PlainSum(start: Text, rest: Text)
    requires Printable(start) && Printable(rest) && start != [] && start[0] != 0x63
    ensures PlainLine(start + rest)
  {
    PrintableSum(start, rest);
    assert (start + rest)[0] != Ascii("context ")[0];
  }

  lemma LineIsPlain(operation: Operation)
    ensures PlainLine(OperationLine(operation))
  {
    var q := WriteString(operation.target.template);
    WrittenStringPrintable(operation.target.template);
    hide WriteString, PlainLine;
    match operation
    case WaitText(_) =>
      PlainSum(Ascii("wait text "), q);
    case FindClick(_) =>
      PrintableSum(q, Ascii(" click"));
      PlainSum(Ascii("find "), q + Ascii(" click"));
      assert Ascii("find ") + q + Ascii(" click") == Ascii("find ") + (q + Ascii(" click"));
    case Assert(what, _, expected) =>
      WrittenStringPrintable(ExpectedTemplate(expected));
      AssertionIsPlain(what, q, if what == TextIs then Ascii(" ") + WriteString(ExpectedTemplate(expected)) else []);
  }

  lemma AssertionIsPlain(what: Predicate, q: Text, more: Text)
    requires Printable(q) && Printable(more)
    ensures PlainLine(Ascii("is ") + Ascii(Name(what)) + Ascii(" ") + q + more)
  {
    assert Printable(Ascii(Name(what)));
    var rest := Ascii(Name(what)) + Ascii(" ") + q + more;
    PrintableSum(Ascii(Name(what)), Ascii(" "));
    PrintableSum(Ascii(Name(what)) + Ascii(" "), q);
    PrintableSum(Ascii(Name(what)) + Ascii(" ") + q, more);
    PlainSum(Ascii("is "), rest);
    hide PlainLine;
    assert Ascii("is ") + Ascii(Name(what)) + Ascii(" ") + q + more == Ascii("is ") + rest;
  }

  lemma OpenLineIsPlain(applicationId: Text)
    ensures PlainLine(OpenLine(applicationId))
  {
    var q := WriteString(applicationId);
    WrittenStringPrintable(applicationId);
    hide WriteString, PlainLine;
    PrintableSum(q, Ascii(" --relaunch"));
    PlainSum(Ascii("open "), q + Ascii(" --relaunch"));
    assert OpenLine(applicationId) == Ascii("open ") + (q + Ascii(" --relaunch"));
  }

  lemma OpenLineOpens(applicationId: Text)
    ensures OpensApplication(OpenLine(applicationId), applicationId)
  {
    var line, q := OpenLine(applicationId), WriteString(applicationId);
    JsonRoundTrip.DecodeWrittenUnits(applicationId);
    assert q[1..] == WriteUnits(applicationId) + [QUOTE];
    AfterWritten(Ascii("open "), applicationId, Ascii(" --relaunch"));
    assert JsonGrammar.DecodeString(q) == Some(applicationId);
    hide WriteString, AfterQuoted, JsonGrammar.DecodeString, JsonGrammar.DecodeUnits;
    assert line == Ascii("open ") + (q + Ascii(" --relaunch"));
    assert line[5..|line| - 11] == q;
  }

  // ---------------------------------------------------------------- the lines of a script

  lemma SplitFirst(line: Text, rest: Text)
    requires Printable(line)
    ensures Split(line + [NEWLINE] + rest) == [line] + Split(rest)
  {
    var t := line + [NEWLINE] + rest;
    var i := IndexOf(t, NEWLINE);
    assert t[|line|] == NEWLINE;
    assert i.Some? && i.value == |line| by {
      assert forall j :: 0 <= j < |line| ==> t[j] == line[j] && line[j] in line;
    }
    assert t[..|line|] == line && t[|line| + 1..] == rest;
  }

  lemma {:induction false} SplitLines(lines: seq<Text>)
    requires forall line :: line in lines ==> Printable(line) && line != []
    ensures ScriptLinesOf(Lines(lines)) == lines
  {
    if lines == [] {
      assert Split([]) == [[]] && NonEmpty([[]]) == [];
    } else {
      assert lines[0] in lines && lines == [lines[0]] + lines[1..];
      SplitFirst(lines[0], Lines(lines[1..]));
      SplitLines(lines[1..]);
    }
  }

  lemma {:induction false} NoContexts(lines: seq<Text>)
    requires forall line :: line in lines ==> PlainLine(line)
    ensures CountContexts(lines) == 0
  {
    if lines != [] {
      assert PlainLine(lines[0]);
      NoContexts(lines[1..]);
    }
  }

  lemma {:induction false} LinesEnd(lines: seq<Text>)
    requires lines != [] && forall line :: line in lines ==> Printable(line)
    ensures Lines(lines) != [] && Lines(lines)[|Lines(lines)| - 1] == NEWLINE && 0 !in Lines(lines)
  {
    if |lines| > 1 {
      LinesEnd(lines[1..]);
    }
    assert 0 !in lines[0] by {
      assert Printable(lines[0]);
    }
  }

  lemma ContextLineStarts(platform: Platform)
    ensures Printable(ContextLine(platform)) && ContextLine(platform) != []
    ensures StartsWith(ContextLine(platform), Ascii("context "))
  {
  }

  lemma EveryLine(platform: Platform, applicationId: Text, operations: seq<Operation>)
    ensures
      var lines := ScriptLines(platform, applicationId, operations);
      && (forall i :: 1 <= i < |lines| ==> PlainLine(lines[i]))
      && (forall i :: 2 <= i < |lines| ==> IsOperation(lines[i]))
  {
    var lines := ScriptLines(platform, applicationId, operations);
    hide PlainLine, IsOperation, OpenLine, OperationLine, ContextLine;
    forall i | 1 <= i < |lines| ensures PlainLine(lines[i]) {
      if i == 1 {
        OpenLineIsPlain(applicationId);
      } else {
        LineIsPlain(operations[i - 2]);
      }
    }
    forall i | 2 <= i < |lines| ensures IsOperation(lines[i]) {
      LineIsOperation(operations[i - 2]);
    }
  }

  /** Every compiled script is one the cache supports, whatever its texts are. */
  lemma ScriptIsSupported(platform: Platform, applicationId: Text, operations: seq<Operation>)
    ensures
      var script := Lines(ScriptLines(platform, applicationId, operations));
      && ScriptLinesOf(script) == ScriptLines(platform, applicationId, operations)
      && SupportsScenarioScript(script, platform, applicationId)
  {
    var lines := ScriptLines(platform, applicationId, operations);
    EveryLine(platform, applicationId, operations);
    ContextLineStarts(platform);
    OpenLineOpens(applicationId);
    hide OpensApplication, IsOperation, ContextLine, OpenLine, OperationLine;
    assert forall line :: line in lines ==> Printable(line) && line != [];
    assert forall line :: line in lines[1..] ==> PlainLine(line);
    hide Printable, PlainLine;
    SplitLines(lines);
    NoContexts(lines[1..]);
    LinesEnd(lines);
    hide ScriptLinesOf, Lines;
  }
}
