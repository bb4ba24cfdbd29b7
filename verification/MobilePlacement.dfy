/**
 Placeholders that a step spells out itself (packages/mobile/src/agent-device/mobile-ad-script.ts and
 packages/mobile/src/execution-cache/mobile-execution-cache.ts): where `${` stands in a step's text,
 and where it then stands in the script.
 */
module MobilePlacement {
  import opened Wrappers
  import opened JsonText
  import opened MobileScript
  import opened MobileExecutionCache
  import opened MobileVariables
  import opened MobileMeaning
  import opened MobileRuntime

  // ---------------------------------------------------------------- parts of well placed texts

  predicate InPlaceholder(u: nat) {
    IsPlain(u) || u == DOLLAR || u == OPEN_BRACE || u == CLOSE_BRACE
  }

  /** No placeholder can run over the offset. */
  predicate CutsAt(t: Text, n: nat) {
    n <= |t| && (n == |t| || !InPlaceholder(t[n]) || (n > 0 && !InPlaceholder(t[n - 1])))
  }

  lemma NameIsPlain(name: Text, variables: Variables)
    requires AreReplayVariables(variables)
    ensures PlainOrClose(variables(name) + [CLOSE_BRACE])
  {
    ReplayableIsPlain(variables(name));
  }

  lemma PlaceholderUnits(name: Text, variables: Variables)
    requires AreReplayVariables(variables)
    ensures forall u :: u in Placeholder(variables(name)) ==> InPlaceholder(u)
  {
    ReplayableIsPlain(variables(name));
  }

  lemma {:induction false} WellPlacedPrefix(t: Text, n: nat, names: seq<Text>, variables: Variables)
    requires AreReplayVariables(variables) && WellPlaced(t, names, variables) && CutsAt(t, n)
    ensures WellPlaced(t[..n], names, variables)
    decreases n
  {
    if n > 0 {
      var part := t[..n];
      assert part[1..] == t[1..][..n - 1];
      if n > 1 {
        WellPlacedPrefix(t[1..], n - 1, names, variables);
      }
      if Opens(part) {
        var name :| name in names && StartsWith(t, Placeholder(variables(name)));
        var p := Placeholder(variables(name));
        PlaceholderUnits(name, variables);
        assert forall i :: 0 <= i < |p| ==> t[i] == p[i] && InPlaceholder(t[i]);
        assert |p| <= n;
        assert part[..|p|] == p;
      }
    }
  }

  /** A text that holds no dollar sign makes no difference in front. */
  lemma PlacedBehind(before: Text, t: Text, names: seq<Text>, variables: Variables)
    requires DOLLAR !in before
    ensures WellPlaced(before + t, names, variables) <==> WellPlaced(t, names, variables)
  {
    if WellPlaced(before + t, names, variables) {
      WellPlacedLater(before + t, |before|, names, variables);
      assert (before + t)[|before|..] == t;
    } else if WellPlaced(t, names, variables) {
      NoDollarIsWellPlaced(before, names, variables);
      WellPlacedSum(before, t, names, variables);
    }
  }

  // ---------------------------------------------------------------- what a replaced text tells

  predicate PlainOrClose(p: Text) {
    forall u :: u in p ==> IsPlain(u) || u == CLOSE_BRACE
  }

  lemma {:induction false} PlainStartReplaced(s: Text, p: Text, names: seq<Text>, variables: Variables)
    requires PlainOrClose(p) && StartsWith(ReplaceVariables(s, names, variables), p)
    ensures StartsWith(s, p)
    decreases |p|
  {
    var r := ReplaceVariables(s, names, variables);
    if p != [] {
      assert r[0] == p[0] && p[0] in p;
      assert TagLength(s).None?;
      assert r == [s[0]] + ReplaceVariables(s[1..], names, variables);
      assert r[1..][..|p| - 1] == p[1..] == r[..|p|][1..];
      PlainStartReplaced(s[1..], p[1..], names, variables);
      assert s == [s[0]] + s[1..] && p == [p[0]] + p[1..];
    }
  }

  /** `${` in the text, when its name has no tag in it, is still before the same name. */
  lemma OpensReplaced(t: Text, names: seq<Text>, variables: Variables)
    requires Opens(t)
    ensures ReplaceVariables(t, names, variables)
         == [DOLLAR, OPEN_BRACE] + ReplaceVariables(t[2..], names, variables)
  {
    assert t[1..][1..] == t[2..];
    assert TagLength(t).None? && TagLength(t[1..]).None?;
  }

  lemma DollarFree(names: seq<Text>, name: Text)
    requires AllNames(names) && name in names
    ensures DOLLAR !in name && CLOSE_BRACE !in name
  {
  }

  predicate AllNames(names: seq<Text>) {
    forall name :: name in names ==> IsVariableName(name)
  }

  /** Replacing the variables of a well placed text leaves a well placed text, and of no other. */
  lemma {:induction false} PlacedBeforeReplacing(t: Text, names: seq<Text>, variables: Variables)
    requires AreReplayVariables(variables) && AllNames(names)
    requires WellPlaced(ReplaceVariables(t, names, variables), names, variables)
    ensures WellPlaced(t, names, variables)
    decreases |t|
  {
    if t != [] {
      var replaced := ReplaceVariables(t, names, variables);
      match TagLength(t)
      case None =>
        assert replaced[1..] == ReplaceVariables(t[1..], names, variables);
        PlacedBeforeReplacing(t[1..], names, variables);
        hide ReplaceVariables, TagLength;
        if Opens(t) {
          OpensReplaced(t, names, variables);
          OpenedBeforeReplacing(t, names, variables);
        }
      case Some(n) =>
        TagIsWellPlaced(t, n, names, variables);
        PlacedBeforeReplacing(t[n..], names, variables);
        hide WellPlaced, ReplaceVariables, AllNames, AreReplayVariables, TagLength;
        WellPlacedSum(t[..n], t[n..], names, variables);
        assert t == t[..n] + t[n..];
    }
  }

  lemma TagIsWellPlaced(t: Text, n: nat, names: seq<Text>, variables: Variables)
    requires AreReplayVariables(variables) && AllNames(names) && TagLength(t) == Some(n)
    requires WellPlaced(ReplaceVariables(t, names, variables), names, variables)
    ensures WellPlaced(t[..n], names, variables)
    ensures WellPlaced(ReplaceVariables(t[n..], names, variables), names, variables)
  {
    var tag, rest := t[..n], ReplaceVariables(t[n..], names, variables);
    assert tag[n - 1] == GREATER;
    hide WellPlaced, AllNames, AreReplayVariables, Placeholder, TagLength;
    if t[1..n - 1] in names {
      var p := Placeholder(variables(t[1..n - 1]));
      assert ReplaceVariables(t, names, variables) == p + rest;
      BehindIsPlaced(p, rest, names, variables);
      DollarFree(names, t[1..n - 1]);
      TagHoldsNone(t, n, DOLLAR);
      NoDollarIsWellPlaced(tag, names, variables);
    } else {
      assert ReplaceVariables(t, names, variables) == tag + rest;
      BehindIsPlaced(tag, rest, names, variables);
      FrontIsPlaced(tag, rest, names, variables);
    }
  }

  lemma BehindIsPlaced(front: Text, rest: Text, names: seq<Text>, variables: Variables)
    requires WellPlaced(front + rest, names, variables)
    ensures WellPlaced(rest, names, variables)
  {
    WellPlacedLater(front + rest, |front|, names, variables);
    assert (front + rest)[|front|..] == rest;
  }

  lemma FrontIsPlaced(front: Text, rest: Text, names: seq<Text>, variables: Variables)
    requires AreReplayVariables(variables) && WellPlaced(front + rest, names, variables)
    requires front != [] && !InPlaceholder(front[|front| - 1])
    ensures WellPlaced(front, names, variables)
  {
    WellPlacedPrefix(front + rest, |front|, names, variables);
    assert (front + rest)[..|front|] == front;
  }

  lemma OpenedBeforeReplacing(t: Text, names: seq<Text>, variables: Variables)
    requires AreReplayVariables(variables) && Opens(t)
    requires StartsWell([DOLLAR, OPEN_BRACE] + ReplaceVariables(t[2..], names, variables), names, variables)
    ensures StartsWell(t, names, variables)
  {
    var behind := ReplaceVariables(t[2..], names, variables);
    NameBehind(behind, names, variables);
    var name :| name in names && StartsWith(behind, variables(name) + [CLOSE_BRACE]);
    ReplayableIsPlain(variables(name));
    PlainStartReplaced(t[2..], variables(name) + [CLOSE_BRACE], names, variables);
    NameInFront(t, name, names, variables);
  }

  /** After the `${` of a placeholder stand its variable and a brace. */
  lemma NameBehind(behind: Text, names: seq<Text>, variables: Variables)
    requires StartsWell([DOLLAR, OPEN_BRACE] + behind, names, variables)
    ensures exists name :: name in names && StartsWith(behind, variables(name) + [CLOSE_BRACE])
  {
    var t := [DOLLAR, OPEN_BRACE] + behind;
    assert Opens(t);
    var name :| name in names && StartsWith(t, Placeholder(variables(name)));
    var p, closed := Placeholder(variables(name)), variables(name) + [CLOSE_BRACE];
    assert p == [DOLLAR, OPEN_BRACE] + closed;
    assert behind[..|closed|] == t[..|p|][2..] == closed;
  }

  lemma NameInFront(t: Text, name: Text, names: seq<Text>, variables: Variables)
    requires Opens(t) && name in names && StartsWith(t[2..], variables(name) + [CLOSE_BRACE])
    ensures StartsWell(t, names, variables)
  {
    var p, closed := Placeholder(variables(name)), variables(name) + [CLOSE_BRACE];
    assert p == [DOLLAR, OPEN_BRACE] + closed;
    assert t[..|p|] == t[..2] + t[2..][..|closed|];
    assert t[..2] == [DOLLAR, OPEN_BRACE];
  }

  // ---------------------------------------------------------------- what an escaped selector tells

  lemma {:induction false} PlainStartEscaped(s: Text, after: Text, p: Text)
    requires PlainOrClose(p) && StartsWith(EscapeSelector(s) + ([QUOTE] + after), p)
    ensures StartsWith(s, p)
    decreases |p|
  {
    var r := EscapeSelector(s) + ([QUOTE] + after);
    if p != [] {
      assert r[0] == p[0] && p[0] in p;
      assert s != [];
      assert EscapeSelector(s) == [s[0]] + EscapeSelector(s[1..]);
      assert r[1..] == EscapeSelector(s[1..]) + ([QUOTE] + after);
      assert r[1..][..|p| - 1] == p[1..] == r[..|p|][1..];
      PlainStartEscaped(s[1..], after, p[1..]);
      assert s == [s[0]] + s[1..] && p == [p[0]] + p[1..];
    }
  }

  lemma {:induction false} PlainIsReplaced(p: Text, rest: Text, names: seq<Text>, variables: Variables)
    requires LESS !in p
    ensures ReplaceVariables(p + rest, names, variables) == p + ReplaceVariables(rest, names, variables)
  {
    if p == [] {
      NothingBefore(rest);
      NothingBefore(ReplaceVariables(rest, names, variables));
    } else {
      var first, others := [p[0]], p[1..];
      assert p[0] in p && TagLength(p + rest).None? && (p + rest)[1..] == others + rest;
      PlainIsReplaced(others, rest, names, variables);
      assert p == first + others;
      assert ReplaceVariables(p + rest, names, variables) == first + ReplaceVariables(others + rest, names, variables);
      Regroup(first, others, ReplaceVariables(rest, names, variables));
    }
  }

  lemma {:induction false} PlacedAfterReplacing(t: Text, names: seq<Text>, variables: Variables)
    requires AreReplayVariables(variables) && WellPlaced(t, names, variables)
    ensures WellPlaced(ReplaceVariables(t, names, variables), names, variables)
    decreases |t|
  {
    if Opens(t) {
      var name :| name in names && StartsWith(t, Placeholder(variables(name)));
      var p := Placeholder(variables(name));
      var rest := t[|p|..];
      PlaceholderUnits(name, variables);
      assert t == p + rest && !InPlaceholder(LESS);
      PlainIsReplaced(p, rest, names, variables);
      WellPlacedLater(t, |p|, names, variables);
      PlacedAfterReplacing(rest, names, variables);
      PlaceholderFirst(name, ReplaceVariables(rest, names, variables), names, variables);
    } else if t != [] {
      match TagLength(t)
      case None =>
        var rest := ReplaceVariables(t[1..], names, variables);
        PlacedAfterReplacing(t[1..], names, variables);
        if |t| > 1 {
          FirstReplaced(t[1..], names, variables);
        }
        OneIsWellPlaced(t[0], names, variables);
        WellPlacedSum([t[0]], rest, names, variables);
      case Some(n) =>
        WellPlacedLater(t, n, names, variables);
        PlacedAfterReplacing(t[n..], names, variables);
        TagReplaced(t, n, names, variables);
    }
  }

  lemma TagReplaced(t: Text, n: nat, names: seq<Text>, variables: Variables)
    requires AreReplayVariables(variables) && WellPlaced(t, names, variables) && TagLength(t) == Some(n)
    requires WellPlaced(ReplaceVariables(t[n..], names, variables), names, variables)
    ensures WellPlaced(ReplaceVariables(t, names, variables), names, variables)
  {
    var rest := ReplaceVariables(t[n..], names, variables);
    assert t[n - 1] == GREATER;
    hide WellPlaced, AreReplayVariables, TagLength;
    if t[1..n - 1] in names {
      PlaceholderFirst(t[1..n - 1], rest, names, variables);
    } else {
      WellPlacedPrefix(t, n, names, variables);
      WellPlacedSum(t[..n], rest, names, variables);
    }
  }

  lemma ReplacedIsPlacedExactlyWhen(t: Text, names: seq<Text>, variables: Variables)
    requires AreReplayVariables(variables) && AllNames(names)
    ensures WellPlaced(ReplaceVariables(t, names, variables), names, variables) <==> WellPlaced(t, names, variables)
  {
    if WellPlaced(t, names, variables) {
      PlacedAfterReplacing(t, names, variables);
    } else if WellPlaced(ReplaceVariables(t, names, variables), names, variables) {
      PlacedBeforeReplacing(t, names, variables);
    }
  }

  lemma {:induction false} PlainIsEscaped(p: Text, rest: Text)
    requires PlainOrClose(p)
    ensures EscapeSelector(p + rest) == p + EscapeSelector(rest)
  {
    if p == [] {
      NothingBefore(rest);
      NothingBefore(EscapeSelector(rest));
    } else {
      assert p[0] in p && (p + rest)[1..] == p[1..] + rest;
      PlainIsEscaped(p[1..], rest);
      assert p == [p[0]] + p[1..];
    }
  }

  // What is between the quotes of a selector, and the closing quote.
  function Escaped(t: Text): Text {
    EscapeSelector(t) + [QUOTE]
  }

  lemma EscapedFirst(t: Text)
    ensures Escaped(t) != []
    ensures t == [] ==> Escaped(t) == [QUOTE]
    ensures t != [] && (t[0] == QUOTE || t[0] == BACKSLASH) ==> Escaped(t) == [BACKSLASH, t[0]] + Escaped(t[1..])
    ensures t != [] && t[0] != QUOTE && t[0] != BACKSLASH ==> Escaped(t) == [t[0]] + Escaped(t[1..])
  {
  }

  lemma EscapedOpens(t: Text)
    requires t != [] && t[0] != QUOTE && t[0] != BACKSLASH
    ensures Opens(Escaped(t)) <==> Opens(t)
    ensures Opens(t) ==> Escaped(t) == [DOLLAR, OPEN_BRACE] + Escaped(t[2..])
  {
    var rest := t[1..];
    EscapedFirst(t);
    EscapedFirst(rest);
    hide Escaped;
    assert Escaped(t)[1] == Escaped(rest)[0];
    if rest != [] {
      assert rest[1..] == t[2..] && rest[0] == t[1];
      assert Escaped(rest)[0] == OPEN_BRACE <==> t[1] == OPEN_BRACE;
    }
  }

  lemma StartsWellEscaped(t: Text, names: seq<Text>, variables: Variables)
    requires AreReplayVariables(variables) && Opens(t)
    ensures StartsWell([DOLLAR, OPEN_BRACE] + Escaped(t[2..]), names, variables) <==> StartsWell(t, names, variables)
  {
    var behind := Escaped(t[2..]);
    var escaped := [DOLLAR, OPEN_BRACE] + behind;
    assert t == [DOLLAR, OPEN_BRACE] + t[2..] && escaped[2..] == behind && Opens(escaped);
    assert behind == EscapeSelector(t[2..]) + ([QUOTE] + []);
    hide StartsWell, AreReplayVariables;
    if StartsWell(escaped, names, variables) {
      NameBehind(behind, names, variables);
      var name :| name in names && StartsWith(behind, variables(name) + [CLOSE_BRACE]);
      NameIsPlain(name, variables);
      PlainStartEscaped(t[2..], [], variables(name) + [CLOSE_BRACE]);
      NameInFront(t, name, names, variables);
    }
    if StartsWell(t, names, variables) {
      NameBehind(t[2..], names, variables);
      var name :| name in names && StartsWith(t[2..], variables(name) + [CLOSE_BRACE]);
      var closed := variables(name) + [CLOSE_BRACE];
      NameIsPlain(name, variables);
      assert t[2..] == closed + t[2..][|closed|..];
      PlainIsEscaped(closed, t[2..][|closed|..]);
      NameInFront(escaped, name, names, variables);
    }
  }

  lemma {:induction false} EscapedIsPlacedExactlyWhen(t: Text, names: seq<Text>, variables: Variables)
    requires AreReplayVariables(variables)
    ensures WellPlaced(Escaped(t), names, variables) <==> WellPlaced(t, names, variables)
  {
    EscapedFirst(t);
    if t == [] {
      OneIsWellPlaced(QUOTE, names, variables);
    } else {
      var rest := Escaped(t[1..]);
      EscapedIsPlacedExactlyWhen(t[1..], names, variables);
      if t[0] == QUOTE || t[0] == BACKSLASH {
        PlacedBehind([BACKSLASH, t[0]], rest, names, variables);
        PlacedBehind([t[0]], t[1..], names, variables);
        assert t == [t[0]] + t[1..];
      } else {
        EscapedOpens(t);
        if Opens(t) {
          StartsWellEscaped(t, names, variables);
        }
        assert Escaped(t)[1..] == rest;
      }
    }
  }

  lemma SelectorIsPlacedExactlyWhen(t: Text, names: seq<Text>, variables: Variables)
    requires AreReplayVariables(variables)
    ensures WellPlaced(EscapedTextSelector(t), names, variables) <==> WellPlaced(t, names, variables)
  {
    var start := Ascii("text=") + [QUOTE];
    assert EscapedTextSelector(t) == start + Escaped(t);
    assert DOLLAR !in start;
    PlacedBehind(start, Escaped(t), names, variables);
    EscapedIsPlacedExactlyWhen(t, names, variables);
  }

  // ---------------------------------------------------------------- closed texts

  /** Something and then a brace: in the text, or, when there are `more` braces, after it. */
  predicate ClosesLater(s: Text, more: bool) {
    (s != [] ==> s[0] != CLOSE_BRACE) && (more || CLOSE_BRACE in s)
  }

  predicate ClosedOr(t: Text, more: bool) {
    t == [] || ((Opens(t) ==> ClosesLater(t[2..], more)) && ClosedOr(t[1..], more))
  }

  /** Every `${` in the text is the start of what the placeholder pattern matches. */
  predicate Closed(t: Text) {
    ClosedOr(t, false)
  }

  lemma {:induction false} ClosedLater(t: Text, k: nat, more: bool)
    requires ClosedOr(t, more) && k <= |t|
    ensures ClosedOr(t[k..], more)
  {
    if k > 0 {
      ClosedLater(t[1..], k - 1, more);
      assert t[1..][k - 1..] == t[k..];
    }
  }

  lemma {:induction false} NoDollarCloses(front: Text, t: Text, more: bool)
    requires DOLLAR !in front && ClosedOr(t, more)
    ensures ClosedOr(front + t, more)
  {
    if front == [] {
      NothingBefore(t);
    } else {
      assert front[0] in front && (front + t)[1..] == front[1..] + t;
      NoDollarCloses(front[1..], t, more);
    }
  }

  lemma {:induction false} ReplacedKeepsBrace(t: Text, names: seq<Text>, variables: Variables)
    requires AllNames(names) && CLOSE_BRACE in t
    ensures CLOSE_BRACE in ReplaceVariables(t, names, variables)
  {
    match TagLength(t)
    case None =>
      if t[0] != CLOSE_BRACE {
        ReplacedKeepsBrace(t[1..], names, variables);
      }
    case Some(n) =>
      assert t == t[..n] + t[n..];
      if t[1..n - 1] in names {
        DollarFree(names, t[1..n - 1]);
        TagHoldsNone(t, n, CLOSE_BRACE);
      }
      if CLOSE_BRACE in t[n..] {
        ReplacedKeepsBrace(t[n..], names, variables);
      }
  }

  lemma ReplacedClosesLater(s: Text, names: seq<Text>, variables: Variables, more: bool)
    requires AllNames(names) && ClosesLater(s, more)
    ensures ClosesLater(ReplaceVariables(s, names, variables), more)
  {
    if s != [] {
      FirstReplaced(s, names, variables);
    }
    if CLOSE_BRACE in s {
      ReplacedKeepsBrace(s, names, variables);
    }
  }

  /** What follows a tag may change, as long as it holds a brace when it did. */
  lemma {:induction false} TagCloses(tag: Text, rest: Text, replaced: Text, more: bool)
    requires tag != [] && tag[|tag| - 1] == GREATER
    requires ClosedOr(tag + rest, more) && ClosedOr(replaced, more) && (CLOSE_BRACE in rest ==> CLOSE_BRACE in replaced)
    ensures ClosedOr(tag + replaced, more)
  {
    var before, after := tag + rest, tag + replaced;
    assert before[1..] == tag[1..] + rest && after[1..] == tag[1..] + replaced;
    if |tag| > 1 {
      TagCloses(tag[1..], rest, replaced, more);
      if Opens(after) {
        assert before[2..] == tag[2..] + rest && after[2..] == tag[2..] + replaced;
      }
    } else {
      assert tag[1..] + replaced == replaced;
    }
  }

  lemma PlaceholderCloses(name: Text, t: Text, variables: Variables, more: bool)
    requires AreReplayVariables(variables) && ClosedOr(t, more)
    ensures ClosedOr(Placeholder(variables(name)) + t, more)
  {
    var v := variables(name);
    var p := Placeholder(v);
    var all, rest := p + t, p[1..];
    ReplayableIsPlain(v);
    assert DOLLAR !in rest && all[1..] == rest + t && all[2..] == v + [CLOSE_BRACE] + t;
    NoDollarCloses(rest, t, more);
  }

  lemma {:induction false} ReplacedCloses(t: Text, names: seq<Text>, variables: Variables, more: bool)
    requires AreReplayVariables(variables) && AllNames(names) && ClosedOr(t, more)
    ensures ClosedOr(ReplaceVariables(t, names, variables), more)
  {
    if t != [] {
      match TagLength(t)
      case None =>
        var rest := ReplaceVariables(t[1..], names, variables);
        ReplacedCloses(t[1..], names, variables, more);
        if |t| > 1 {
          FirstReplaced(t[1..], names, variables);
        }
        if Opens(t) {
          OpensReplaced(t, names, variables);
          ReplacedClosesLater(t[2..], names, variables, more);
        }
        assert ([t[0]] + rest)[1..] == rest;
      case Some(n) =>
        ClosedLater(t, n, more);
        ReplacedCloses(t[n..], names, variables, more);
        TagReplacedCloses(t, n, names, variables, more);
    }
  }

  lemma TagReplacedCloses(t: Text, n: nat, names: seq<Text>, variables: Variables, more: bool)
    requires AreReplayVariables(variables) && AllNames(names) && ClosedOr(t, more) && TagLength(t) == Some(n)
    requires ClosedOr(ReplaceVariables(t[n..], names, variables), more)
    ensures ClosedOr(ReplaceVariables(t, names, variables), more)
  {
    var tag, rest := t[..n], ReplaceVariables(t[n..], names, variables);
    hide ClosedOr, AreReplayVariables, TagLength, AllNames, Placeholder, ReplaceVariables;
    TagIsReplaced(t, n, names, variables);
    assert t == tag + t[n..] && tag[n - 1] == GREATER;
    if t[1..n - 1] in names {
      PlaceholderCloses(t[1..n - 1], rest, variables, more);
    } else {
      if CLOSE_BRACE in t[n..] {
        ReplacedKeepsBrace(t[n..], names, variables);
      }
      TagCloses(tag, t[n..], rest, more);
    }
  }

  lemma {:induction false} EscapedKeepsBrace(t: Text)
    requires CLOSE_BRACE in t
    ensures CLOSE_BRACE in Escaped(t)
  {
    EscapedFirst(t);
    if t[0] != CLOSE_BRACE {
      EscapedKeepsBrace(t[1..]);
    }
  }

  lemma {:induction false} EscapedCloses(t: Text, more: bool)
    requires ClosedOr(t, more)
    ensures ClosedOr(Escaped(t), more)
  {
    EscapedFirst(t);
    if t == [] {
      assert [QUOTE][1..] == [];
    } else {
      EscapedCloses(t[1..], more);
      if t[0] == QUOTE || t[0] == BACKSLASH {
        NoDollarCloses([BACKSLASH, t[0]], Escaped(t[1..]), more);
      } else {
        EscapedOpens(t);
        assert Escaped(t)[1..] == Escaped(t[1..]);
        if Opens(t) {
          var behind := t[2..];
          EscapedFirst(behind);
          if CLOSE_BRACE in behind {
            EscapedKeepsBrace(behind);
          }
          assert Escaped(t)[2..] == Escaped(behind);
        }
      }
    }
  }

  lemma SelectorCloses(t: Text, more: bool)
    requires ClosedOr(t, more)
    ensures ClosedOr(EscapedTextSelector(t), more)
  {
    var start := Ascii("text=") + [QUOTE];
    assert EscapedTextSelector(t) == start + Escaped(t);
    assert DOLLAR !in start;
    EscapedCloses(t, more);
    NoDollarCloses(start, Escaped(t), more);
  }

  // ---------------------------------------------------------------- what the script tells of an argument

  /** Whatever the placeholder pattern matches, from whatever offset, is a placeholder of one of the names. */
  ghost predicate Settled(t: Text, names: seq<Text>, variables: Variables) {
    forall k :: 0 <= k <= |t| ==> SettledAt(t[k..], names, variables)
  }

  ghost predicate SettledAt(t: Text, names: seq<Text>, variables: Variables) {
    PlaceholderLength(t).Some? ==> StartsWell(t, names, variables)
  }

  lemma SettledLater(t: Text, i: nat, names: seq<Text>, variables: Variables)
    requires Settled(t, names, variables) && i <= |t|
    ensures Settled(t[i..], names, variables)
  {
    forall k | 0 <= k <= |t[i..]| ensures SettledAt(t[i..][k..], names, variables) {
      assert t[i..][k..] == t[i + k..];
    }
  }

  /** A text of which all matches are placeholders of the names has no other, however they could overlap. */
  lemma OnlyPlaceholdersSettle(t: Text, names: seq<Text>, variables: Variables)
    requires AreReplayVariables(variables) && OnlyPlaceholdersOf(t, names, variables)
    ensures Settled(t, names, variables)
  {
    forall w | w in Placeholders(t) ensures DOLLAR !in w {
      assert Stands(w, names, variables);
      ReplayableIsPlain(w);
    }
    forall k | 0 <= k <= |t| ensures SettledAt(t[k..], names, variables) {
      var s := t[k..];
      if PlaceholderLength(s).Some? {
        var n := PlaceholderLength(s).value;
        var w := s[2..n - 1];
        assert t[k..k + n] == s[..n] == Placeholder(w);
        ContainsAt(t, k, Placeholder(w));
        ContainedIsFound(t, w);
        var name :| name in names && w == variables(name);
        assert StartsWith(s, Placeholder(variables(name)));
      }
    }
  }

  lemma FirstWritten(s: Text)
    requires s != []
    ensures WriteUnits(s) != []
    ensures IsPlain(WriteUnits(s)[0]) || WriteUnits(s)[0] == CLOSE_BRACE ==>
      WriteUnits(s) == [s[0]] + WriteUnits(s[1..])
  {
  }

  lemma {:induction false} WrittenKeepsBrace(s: Text)
    requires CLOSE_BRACE in s
    ensures CLOSE_BRACE in WriteUnits(s)
    decreases |s|
  {
    if StartsWithPair(s) {
      assert s == s[..2] + s[2..];
      WrittenKeepsBrace(s[2..]);
    } else if s[0] != CLOSE_BRACE {
      WrittenKeepsBrace(s[1..]);
    }
  }

  // An argument from inside its quotes, and what follows it.
  function Inside(s: Text, after: Text): Text {
    WriteUnits(s) + ([QUOTE] + after)
  }

  lemma {:induction false} PlainStartWritten(s: Text, after: Text, p: Text)
    requires PlainOrClose(p) && StartsWith(Inside(s, after), p)
    ensures StartsWith(s, p)
    decreases |p|
  {
    var r := Inside(s, after);
    if p != [] {
      assert r[0] == p[0] && p[0] in p;
      assert s != [];
      FirstWritten(s);
      assert r[1..] == Inside(s[1..], after);
      assert r[1..][..|p| - 1] == p[1..] == r[..|p|][1..];
      PlainStartWritten(s[1..], after, p[1..]);
      assert s == [s[0]] + s[1..] && p == [p[0]] + p[1..];
    }
  }

  lemma OpensWritten(a: Text, after: Text)
    requires Opens(a)
    ensures Inside(a, after) == [DOLLAR, OPEN_BRACE] + Inside(a[2..], after)
  {
    assert a == [DOLLAR, OPEN_BRACE] + a[2..];
    PlainIsWritten([DOLLAR, OPEN_BRACE], a[2..]);
  }

  lemma InsideMatches(s: Text, after: Text)
    requires ClosesLater(s, CLOSE_BRACE in after)
    ensures PlaceholderLength([DOLLAR, OPEN_BRACE] + Inside(s, after)).Some?
  {
    var behind := Inside(s, after);
    var t := [DOLLAR, OPEN_BRACE] + behind;
    assert t[2..] == behind;
    if CLOSE_BRACE in s {
      WrittenKeepsBrace(s);
    }
    assert CLOSE_BRACE in behind;
    if s != [] {
      FirstWritten(s);
    }
    assert behind[0] != CLOSE_BRACE;
  }

  lemma StartIsWellPlaced(a: Text, after: Text, names: seq<Text>, variables: Variables)
    requires AreReplayVariables(variables) && Opens(a) && ClosesLater(a[2..], CLOSE_BRACE in after)
    requires SettledAt(Inside(a, after), names, variables)
    ensures StartsWell(a, names, variables)
  {
    OpensWritten(a, after);
    InsideMatches(a[2..], after);
    NameBehind(Inside(a[2..], after), names, variables);
    var name :| name in names && StartsWith(Inside(a[2..], after), variables(name) + [CLOSE_BRACE]);
    NameIsPlain(name, variables);
    PlainStartWritten(a[2..], after, variables(name) + [CLOSE_BRACE]);
    NameInFront(a, name, names, variables);
  }

  lemma {:induction false} ArgumentIsPlaced(a: Text, after: Text, names: seq<Text>, variables: Variables)
    requires AreReplayVariables(variables) && ClosedOr(a, CLOSE_BRACE in after)
    requires Settled(Inside(a, after), names, variables)
    ensures WellPlaced(a, names, variables)
    decreases |a|
  {
    if a != [] {
      var t, w := Inside(a, after), if StartsWithPair(a) then a[..2] else WriteUnit(a[0]);
      var rest := if StartsWithPair(a) then a[2..] else a[1..];
      assert t == w + Inside(rest, after);
      SettledLater(t, |w|, names, variables);
      assert t[|w|..] == Inside(rest, after);
      if Opens(a) {
        assert t[0..] == t && SettledAt(t[0..], names, variables);
        StartIsWellPlaced(a, after, names, variables);
      }
      if StartsWithPair(a) {
        ClosedLater(a, 2, CLOSE_BRACE in after);
        ArgumentIsPlaced(rest, after, names, variables);
        NoDollarIsWellPlaced(a[..2], names, variables);
        WellPlacedSum(a[..2], rest, names, variables);
        assert a == a[..2] + rest;
      } else {
        ArgumentIsPlaced(rest, after, names, variables);
      }
    }
  }

  // ---------------------------------------------------------------- the texts of a step's command

  ghost predicate PlacedCommand(command: Command, names: seq<Text>, variables: Variables) {
    && WellPlaced(command.text, names, variables)
    && (command.ChecksText? ==> WellPlaced(command.expected, names, variables))
  }

  /** A `${` of the first text may be closed in the second one, which stands behind it in the line. */
  predicate ClosedCommand(command: Command) {
    if command.ChecksText? then ClosedOr(command.text, CLOSE_BRACE in command.expected) && Closed(command.expected)
    else Closed(command.text)
  }

  lemma ReplacedCommandPlacedExactlyWhen(command: Command, names: seq<Text>, variables: Variables)
    requires AreReplayVariables(variables) && AllNames(names)
    ensures PlacedCommand(ReplaceCommand(command, names, variables), names, variables)
       <==> PlacedCommand(command, names, variables)
  {
    hide WellPlaced, ReplaceVariables, AreReplayVariables, AllNames;
    ReplacedIsPlacedExactlyWhen(command.text, names, variables);
    if command.ChecksText? {
      ReplacedIsPlacedExactlyWhen(command.expected, names, variables);
    }
  }

  lemma {:induction false} ClosedMonotone(t: Text, less: bool, more: bool)
    requires ClosedOr(t, less) && (less ==> more)
    ensures ClosedOr(t, more)
  {
    if t != [] {
      ClosedMonotone(t[1..], less, more);
    }
  }

  lemma ReplacedCommandCloses(command: Command, names: seq<Text>, variables: Variables)
    requires AreReplayVariables(variables) && AllNames(names) && ClosedCommand(command)
    ensures ClosedCommand(ReplaceCommand(command, names, variables))
  {
    hide ClosedOr, ReplaceVariables, AreReplayVariables, AllNames;
    if command.ChecksText? {
      var expected := command.expected;
      ReplacedCloses(expected, names, variables, false);
      ReplacedCloses(command.text, names, variables, CLOSE_BRACE in expected);
      if CLOSE_BRACE in expected {
        ReplacedKeepsBrace(expected, names, variables);
      }
      ClosedMonotone(ReplaceVariables(command.text, names, variables), CLOSE_BRACE in expected,
                     CLOSE_BRACE in ReplaceVariables(expected, names, variables));
    } else {
      ReplacedCloses(command.text, names, variables, false);
    }
  }

  lemma {:induction false} ClosedFront(front: Text, rest: Text)
    requires Closed(front + rest)
    ensures ClosedOr(front, CLOSE_BRACE in rest)
  {
    if front != [] {
      var t := front + rest;
      assert t[1..] == front[1..] + rest;
      ClosedFront(front[1..], rest);
      if Opens(front) {
        assert t[2..] == front[2..] + rest;
      }
    }
  }

  lemma SidesOf(body: Text) returns (left: Text, right: Text)
    requires SeparatorIn(body).Some?
    ensures left == body[..SeparatorIn(body).value] && right == body[SeparatorIn(body).value + 3..]
    ensures body == left + (EQUALS + right)
  {
    SeparatorParts(body);
    left, right := body[..SeparatorIn(body).value], body[SeparatorIn(body).value + 3..];
    hide SeparatorIn;
    assert left + EQUALS + right == left + (EQUALS + right);
  }

  /** No placeholder runs over the separator. */
  lemma SidesPlacedExactlyWhen(left: Text, right: Text, names: seq<Text>, variables: Variables)
    requires AreReplayVariables(variables)
    ensures WellPlaced(left + (EQUALS + right), names, variables)
       <==> WellPlaced(left, names, variables) && WellPlaced(right, names, variables)
  {
    var behind := EQUALS + right;
    var body := left + behind;
    PlacedBehind(EQUALS, right, names, variables);
    assert behind[0] == 0x20;
    if WellPlaced(body, names, variables) {
      assert body[|left|] == 0x20;
      WellPlacedPrefix(body, |left|, names, variables);
      assert body[..|left|] == left;
      BehindIsPlaced(left, behind, names, variables);
    } else if WellPlaced(left, names, variables) && WellPlaced(right, names, variables) {
      WellPlacedSum(left, behind, names, variables);
    }
  }

  lemma SidesClose(left: Text, right: Text)
    requires Closed(left + (EQUALS + right))
    ensures ClosedOr(left, CLOSE_BRACE in right) && Closed(right)
  {
    var behind := EQUALS + right;
    ClosedFront(left, behind);
    ClosedLater(left + behind, |left| + 3, false);
    assert (left + behind)[|left| + 3..] == right;
  }

  /** Before the body of an assertion stands no dollar sign. */
  lemma BodyBehind(t: Text) returns (front: Text)
    requires AssertionOf(t).Some?
    ensures t == front + AssertionOf(t).value.body && DOLLAR !in front
  {
    var a := AssertionOf(t).value;
    var spaces := AssertionShape(t);
    front := WordOf(a.what) + spaces;
    NoDollarInFront(a.what, spaces);
    hide AssertionOf, WordOf, AllSpaces;
    assert t == front + a.body;
  }

  lemma BodyPlacedExactlyWhen(t: Text, names: seq<Text>, variables: Variables)
    requires AssertionOf(t).Some?
    ensures WellPlaced(AssertionOf(t).value.body, names, variables) <==> WellPlaced(t, names, variables)
  {
    hide AssertionOf, WellPlaced;
    var front := BodyBehind(t);
    PlacedBehind(front, AssertionOf(t).value.body, names, variables);
  }

  lemma BodyCloses(t: Text)
    requires AssertionOf(t).Some? && Closed(t)
    ensures Closed(AssertionOf(t).value.body)
  {
    hide AssertionOf, ClosedOr;
    var front := BodyBehind(t);
    ClosedLater(t, |front|, false);
    assert t[|front|..] == AssertionOf(t).value.body;
  }

  lemma NoDollarInFront(what: Predicate, spaces: Text)
    requires AllSpaces(spaces)
    ensures DOLLAR !in WordOf(what) + spaces
  {
    assert !IsSpace(DOLLAR);
  }

  lemma TemplateCommandPlacedExactlyWhen(template: MobileStep, runtime: MobileStep, names: seq<Text>,
                                         variables: Variables)
    requires AreReplayVariables(variables)
    ensures PlacedCommand(TemplateCommand(template, runtime), names, variables)
       <==> WellPlaced(template.text, names, variables)
  {
    assert WellPlaced([], names, variables);
    SelectorIsPlacedExactlyWhen(template.text, names, variables);
    var assertion := AssertionOf(template.text);
    hide WellPlaced, AssertionOf, SeparatorIn, EscapedTextSelector, AreReplayVariables;
    if assertion.Some? {
      var body := assertion.value.body;
      BodyPlacedExactlyWhen(template.text, names, variables);
      if SeparatorIn(body).Some? {
        var left, right := SidesOf(body);
        SidesPlacedExactlyWhen(left, right, names, variables);
      }
    }
  }

  lemma TemplateCommandCloses(template: MobileStep, runtime: MobileStep)
    requires Closed(template.text)
    ensures ClosedCommand(TemplateCommand(template, runtime))
  {
    hide Closed, ClosedCommand, AssertionOf, SeparatorIn, EscapedTextSelector;
    OneTextCloses(template.text);
    SelectorCloses(template.text, false);
    OneTextCloses(EscapedTextSelector(template.text));
    if AssertionOf(template.text).Some? {
      BodyCloses(template.text);
      BodyCommandCloses(AssertionOf(template.text).value);
    }
  }

  lemma OneTextCloses(t: Text)
    ensures Closed(t) == ClosedOr(t, false)
    ensures Closed(t) ==> ClosedCommand(Waits(t)) && ClosedCommand(Clicks(t)) && ClosedCommand(ChecksText(t, []))
    ensures Closed(t) ==> forall what :: ClosedCommand(Checks(what, t))
  {
  }

  lemma BodyCommandCloses(a: Assertion)
    requires Closed(a.body)
    ensures ClosedCommand(BodyCommand(a.what, a.body, false))
    ensures SeparatorIn(a.body).Some? ==> ClosedCommand(BodyCommand(a.what, a.body, true))
  {
    hide ClosedOr, SeparatorIn;
    OneTextCloses(a.body);
    if SeparatorIn(a.body).Some? {
      var left, right := SidesOf(a.body);
      SidesClose(left, right);
    }
  }

  // ---------------------------------------------------------------- a line tells where its texts have placeholders

  /** The script from inside an argument's quotes on. */
  lemma QuotedSettles(front: Text, q: Text, after: Text, names: seq<Text>, variables: Variables)
    requires Settled(front + (WriteString(q) + after), names, variables)
    ensures Settled(Inside(q, after), names, variables)
  {
    var t := front + (WriteString(q) + after);
    SettledLater(t, |front| + 1, names, variables);
    hide Settled, WriteUnits;
    assert WriteString(q) + after == [QUOTE] + Inside(q, after);
    assert t[|front| + 1..] == Inside(q, after);
  }

  lemma TargetIsPlaced(front: Text, q: Text, after: Text, more: bool, names: seq<Text>, variables: Variables)
    requires AreReplayVariables(variables) && ClosedOr(q, more) && (more ==> CLOSE_BRACE in after)
    requires Settled(front + (WriteString(q) + after), names, variables)
    ensures WellPlaced(q, names, variables)
  {
    QuotedSettles(front, q, after, names, variables);
    ClosedMonotone(q, more, CLOSE_BRACE in after);
    ArgumentIsPlaced(q, after, names, variables);
  }

  lemma LineIsPlaced(operation: Operation, rest: Text, names: seq<Text>, variables: Variables)
    requires AreReplayVariables(variables) && ClosedCommand(CommandOf(operation))
    requires Settled(OperationLine(operation) + rest, names, variables)
    ensures PlacedCommand(CommandOf(operation), names, variables)
  {
    hide Settled, WellPlaced, ClosedOr, AreReplayVariables, Ascii, WriteString;
    var q := operation.target.template;
    match operation
    case WaitText(_) =>
      Regroup(Ascii("wait text "), WriteString(q), rest);
      TargetIsPlaced(Ascii("wait text "), q, rest, false, names, variables);
    case FindClick(_) =>
      var front, after := Ascii("find "), Ascii(" click") + rest;
      assert front + WriteString(q) + Ascii(" click") + rest == front + (WriteString(q) + after);
      TargetIsPlaced(front, q, after, false, names, variables);
    case Assert(what, _, expected) =>
      var front := Ascii("is ") + Ascii(Name(what)) + Ascii(" ");
      if what == TextIs {
        SidesArePlaced(front, q, ExpectedTemplate(expected), rest, names, variables);
      } else {
        assert front + WriteString(q) + [] + rest == front + (WriteString(q) + rest);
        TargetIsPlaced(front, q, rest, false, names, variables);
      }
  }

  lemma SidesArePlaced(front: Text, q: Text, e: Text, rest: Text, names: seq<Text>, variables: Variables)
    requires AreReplayVariables(variables) && ClosedOr(q, CLOSE_BRACE in e) && Closed(e)
    requires Settled(front + WriteString(q) + (Ascii(" ") + WriteString(e)) + rest, names, variables)
    ensures WellPlaced(q, names, variables) && WellPlaced(e, names, variables)
  {
    var written, space := WriteString(e), Ascii(" ");
    var after := space + (written + rest);
    if CLOSE_BRACE in e {
      WrittenKeepsBrace(e);
      assert CLOSE_BRACE in written;
    }
    hide Settled, WellPlaced, ClosedOr, AreReplayVariables, Ascii, WriteString;
    LineParts(front, WriteString(q), space, written, rest);
    TargetIsPlaced(front, q, after, CLOSE_BRACE in e, names, variables);
    TargetIsPlaced(front + WriteString(q) + space, e, rest, false, names, variables);
  }

  lemma LineParts(front: Text, q: Text, space: Text, e: Text, rest: Text)
    ensures front + q + (space + e) + rest == front + (q + (space + (e + rest)))
    ensures front + q + (space + e) + rest == (front + q + space) + (e + rest)
  {
    Regroup(front + q, space + e, rest);
    Regroup(space, e, rest);
    Regroup(front, q, space + (e + rest));
    Regroup(front + q, space, e + rest);
  }

  lemma {:induction false} LineSettles(lines: seq<Text>, i: nat, names: seq<Text>, variables: Variables)
      returns (rest: Text)
    requires i < |lines| && Settled(Lines(lines), names, variables)
    ensures Settled(lines[i] + rest, names, variables)
    decreases i
  {
    var behind := Lines(lines[1..]);
    var first := lines[0] + [NEWLINE];
    hide Settled;
    if i == 0 {
      rest := [NEWLINE] + behind;
      assert Lines(lines) == lines[0] + rest;
    } else {
      assert Lines(lines) == first + behind;
      SettledLater(Lines(lines), |first|, names, variables);
      assert Lines(lines)[|first|..] == behind;
      rest := LineSettles(lines[1..], i - 1, names, variables);
    }
  }
}
