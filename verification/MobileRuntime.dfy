/**
 Whether a replayed step does what the step asks for
 (packages/mobile/src/agent-device/mobile-ad-script.ts): a compiled operation has its argument twice,
 from the template and from the text with the values in it, and the two agree except for some values.
 */
module MobileRuntime {
  import opened Wrappers
  import opened JsonText
  import opened MobileScript
  import opened MobileExecutionCache
  import opened MobileVariables
  import opened MobileMeaning

  /** The operation's command with its runtime arguments. */
  function RuntimeCommand(operation: Operation): Command {
    match operation
    case WaitText(target) => Waits(target.runtime)
    case FindClick(target) => Clicks(target.runtime)
    case Assert(what, target, expected) =>
      if what == TextIs then ChecksText(target.runtime, match expected case None => [] case Some(e) => e.runtime)
      else Checks(what, target.runtime)
  }

  /** What a step asks for, read from its own text. */
  function Asked(step: MobileStep): Command {
    match step.kind
    case Context => Waits(step.text)
    case Action => Clicks(step.text)
    case Outcome =>
      match AssertionOf(step.text)
      case None => Checks(Visible, EscapedTextSelector(step.text))
      case Some(a) =>
        if a.what != TextIs then Checks(a.what, a.body)
        else
          match SeparatorIn(a.body)
          case None => ChecksText(a.body, [])
          case Some(i) => ChecksText(a.body[..i], a.body[i + 3..])
  }

  /** Every bound name that a tag of the text, or of its escaped selector, has is free of backslashes. */
  predicate NoBackslashUsed(t: Text, bindings: seq<Binding>) {
    if t == [] then true
    else
      match TagLength(t)
      case None => NoBackslashUsed(t[1..], bindings)
      case Some(n) =>
        && NoBackslashName(t[1..n - 1], bindings)
        && NoBackslashName(EscapeSelector(t[1..n - 1]), bindings)
        && NoBackslashUsed(t[n..], bindings)
  }

  predicate NoBackslashName(name: Text, bindings: seq<Binding>) {
    name in Names(bindings) ==> BACKSLASH !in name
  }

  predicate UnquotedName(name: Text, bindings: seq<Binding>) {
    name in Names(bindings) && QUOTE !in name
  }

  /** The text with the values of the names that have no quote; a quoted name stays. */
  function SubstituteUnquoted(t: Text, bindings: seq<Binding>): Text {
    if t == [] then []
    else
      match TagLength(t)
      case None => [t[0]] + SubstituteUnquoted(t[1..], bindings)
      case Some(n) =>
        var name := t[1..n - 1];
        (if UnquotedName(name, bindings) then ValueOf(bindings, name) else t[..n])
        + SubstituteUnquoted(t[n..], bindings)
  }

  // ---------------------------------------------------------------- substituting in parts of a text

  lemma {:induction false} TagInLonger(t: Text, more: Text)
    requires t != []
    ensures TagLength(t).Some? ==> TagLength(t + more) == TagLength(t)
    ensures GREATER !in more ==> TagLength(t + more) == TagLength(t)
    ensures t[0] != LESS ==> TagLength(t + more).None?
  {
    var longer := t + more;
    assert longer[1..] == t[1..] + more;
    FirstInLonger(t[1..], more);
  }

  lemma {:induction false} FirstInLonger(t: Text, more: Text)
    ensures IndexOf(t, GREATER).Some? ==> IndexOf(t + more, GREATER) == IndexOf(t, GREATER)
    ensures GREATER !in more ==> IndexOf(t + more, GREATER) == IndexOf(t, GREATER)
  {
    if t == [] {
      assert t + more == more;
    } else {
      assert (t + more)[1..] == t[1..] + more;
      FirstInLonger(t[1..], more);
    }
  }

  lemma {:induction false} SubstituteAfterPlain(s: Text, t: Text, bindings: seq<Binding>)
    requires LESS !in s
    ensures Substitute(s + t, bindings) == s + Substitute(t, bindings)
  {
    if s == [] {
      NothingBefore(t);
      NothingBefore(Substitute(t, bindings));
    } else {
      var all, first, others, rest := s + t, [s[0]], s[1..], Substitute(t, bindings);
      assert s[0] in s && all[0] == s[0] && all[1..] == others + t && s == first + others;
      SubstituteAfterPlain(others, t, bindings);
      Regroup(first, others, rest);
    }
  }

  function FirstSize(t: Text): nat
    requires t != []
  {
    if TagLength(t).Some? then TagLength(t).value else 1
  }

  /** What substituting puts for the first character or tag. */
  function FirstPut(t: Text, bindings: seq<Binding>): Text
    requires t != []
  {
    match TagLength(t)
    case None => [t[0]]
    case Some(n) => if t[1..n - 1] in Names(bindings) then ValueOf(bindings, t[1..n - 1]) else t[..n]
  }

  lemma SubstituteFirst(t: Text, bindings: seq<Binding>)
    requires t != []
    ensures FirstSize(t) <= |t|
    ensures Substitute(t, bindings) == FirstPut(t, bindings) + Substitute(t[FirstSize(t)..], bindings)
  {
  }

  lemma SameFirst(t: Text, more: Text, bindings: seq<Binding>)
    requires t != [] && (TagLength(t).Some? || TagLength(t + more).None?)
    ensures FirstSize(t + more) == FirstSize(t) && FirstPut(t + more, bindings) == FirstPut(t, bindings)
    ensures 0 < FirstSize(t) <= |t| && (t + more)[FirstSize(t)..] == t[FirstSize(t)..] + more
  {
    TagInLonger(t, more);
    var n := FirstSize(t);
    assert (t + more)[..n] == t[..n];
    assert TagLength(t).Some? ==> (t + more)[1..n - 1] == t[1..n - 1];
  }

  lemma SamePrefix(start: Text, x: Text, y: Text)
    requires x <= y
    ensures start + x <= start + y
  {
  }

  lemma {:induction false} SubstituteBeforeQuote(t: Text, bindings: seq<Binding>)
    ensures Substitute(t + [QUOTE], bindings) == Substitute(t, bindings) + [QUOTE]
    decreases |t|
  {
    if t == [] {
      SubstituteAfterPlain([QUOTE], [], bindings);
      assert [] + [QUOTE] == [QUOTE] + [] == [QUOTE];
    } else {
      TagInLonger(t, [QUOTE]);
      SameFirst(t, [QUOTE], bindings);
      SubstituteFirst(t, bindings);
      SubstituteFirst(t + [QUOTE], bindings);
      var put, rest := FirstPut(t, bindings), t[FirstSize(t)..];
      hide Substitute, FirstPut, FirstSize, TagLength;
      SubstituteBeforeQuote(rest, bindings);
      Regroup(put, Substitute(rest, bindings), [QUOTE]);
    }
  }

  // ---------------------------------------------------------------- escaping and substituting

  predicate IsSpecial(u: nat) {
    u == QUOTE || u == BACKSLASH
  }

  function Specials(t: Text): nat {
    if t == [] then 0 else (if IsSpecial(t[0]) then 1 else 0) + Specials(t[1..])
  }

  /** How many quotes and backslashes the values have that a text uses by unquoted names. */
  function UsedSpecials(t: Text, bindings: seq<Binding>): nat {
    if t == [] then 0
    else
      match TagLength(t)
      case None => UsedSpecials(t[1..], bindings)
      case Some(n) =>
        var name := t[1..n - 1];
        (if UnquotedName(name, bindings) then Specials(ValueOf(bindings, name)) else 0)
        + UsedSpecials(t[n..], bindings)
  }

  lemma {:induction false} EscapeSum(s: Text, t: Text)
    ensures EscapeSelector(s + t) == EscapeSelector(s) + EscapeSelector(t)
  {
    if s == [] {
      NothingBefore(t);
      NothingBefore(EscapeSelector(t));
    } else {
      var one := if IsSpecial(s[0]) then [BACKSLASH, s[0]] else [s[0]];
      assert (s + t)[0] == s[0] && (s + t)[1..] == s[1..] + t;
      EscapeSum(s[1..], t);
      Regroup(one, EscapeSelector(s[1..]), EscapeSelector(t));
    }
  }

  lemma {:induction false} EscapeGrows(t: Text)
    ensures |EscapeSelector(t)| == |t| + Specials(t)
    ensures Specials(t) == 0 ==> EscapeSelector(t) == t
    ensures Specials(t) > 0 ==> BACKSLASH in EscapeSelector(t)
    ensures QUOTE !in t && BACKSLASH !in t ==> Specials(t) == 0
  {
    if t != [] {
      EscapeGrows(t[1..]);
      assert t == [t[0]] + t[1..];
    }
  }

  /** Of each text, how often a unit stands in it. */
  function Times(u: nat, t: Text): nat {
    multiset(t)[u]
  }

  lemma TimesSum(u: nat, s: Text, t: Text)
    ensures Times(u, s + t) == Times(u, s) + Times(u, t)
  {
  }

  lemma OneCounts(u: nat)
    ensures
      var first, one := [u], if IsSpecial(u) then [BACKSLASH, u] else [u];
      && Times(QUOTE, first) == Times(QUOTE, one) == (if u == QUOTE then 1 else 0)
      && Times(BACKSLASH, first) == (if u == BACKSLASH then 1 else 0)
      && Times(BACKSLASH, one) == (if u == BACKSLASH then 2 else if u == QUOTE then 1 else 0)
  {
  }

  lemma {:induction false} EscapeCounts(t: Text)
    ensures Times(QUOTE, EscapeSelector(t)) == Times(QUOTE, t)
    ensures Times(BACKSLASH, EscapeSelector(t)) == 2 * Times(BACKSLASH, t) + Times(QUOTE, t)
    ensures Specials(t) == Times(BACKSLASH, t) + Times(QUOTE, t)
  {
    if t != [] {
      var first, rest := [t[0]], t[1..];
      var one := EscapeSelector(first);
      OneEscaped(t[0], rest);
      assert t == first + rest && first[1..] == [];
      assert one == if IsSpecial(t[0]) then [BACKSLASH, t[0]] else first;
      EscapeCounts(rest);
      OneCounts(t[0]);
      hide EscapeSelector, Times;
      TimesSum(QUOTE, first, rest);
      TimesSum(BACKSLASH, first, rest);
      TimesSum(QUOTE, one, EscapeSelector(rest));
      TimesSum(BACKSLASH, one, EscapeSelector(rest));
    }
  }

  lemma {:induction false} EscapeTellsText(s: Text, t: Text)
    requires EscapeSelector(s) == EscapeSelector(t)
    ensures s == t
    decreases |s| + |t|
  {
    EscapeGrows(s);
    EscapeGrows(t);
    if s != [] && t != [] {
      var x, y := EscapeSelector(s), EscapeSelector(t);
      assert s == [s[0]] + s[1..] && t == [t[0]] + t[1..];
      var n := if IsSpecial(s[0]) then 2 else 1;
      assert x[0] == y[0];
      assert IsSpecial(s[0]) && IsSpecial(t[0]) ==> x[1] == y[1];
      assert s[0] == t[0];
      assert EscapeSelector(s[1..]) == x[n..] == y[n..] == EscapeSelector(t[1..]);
      EscapeTellsText(s[1..], t[1..]);
    }
  }

  lemma OneEscaped(u: nat, rest: Text)
    ensures EscapeSelector([u] + rest) == EscapeSelector([u]) + EscapeSelector(rest)
    ensures u != GREATER ==> GREATER !in EscapeSelector([u])
  {
    EscapeSum([u], rest);
  }

  lemma {:induction false} FirstInSelector(t: Text)
    requires GREATER !in t
    ensures GREATER !in EscapeSelector(t)
  {
    if t != [] {
      assert t == [t[0]] + t[1..] && t[0] in t && forall u :: u in t[1..] ==> u in t;
      OneEscaped(t[0], t[1..]);
      FirstInSelector(t[1..]);
    }
  }

  lemma {:induction false} AfterOthers(s: Text, t: Text)
    requires GREATER !in s
    ensures IndexOf(s + t, GREATER) == match IndexOf(t, GREATER) case None => None case Some(i) => Some(|s| + i)
  {
    if s == [] {
      NothingBefore(t);
    } else {
      assert s[0] in s && (s + t)[0] == s[0] && (s + t)[1..] == s[1..] + t;
      AfterOthers(s[1..], t);
    }
  }

  lemma TagParts(t: Text, n: nat)
    requires TagLength(t) == Some(n)
    ensures t == [LESS] + t[1..n - 1] + [GREATER] + t[n..] && t[..n] == [LESS] + t[1..n - 1] + [GREATER]
    ensures GREATER !in t[1..n - 1] && |t[1..n - 1]| == n - 2 > 0
  {
    var rest := t[1..];
    var k := IndexOf(rest, GREATER).value;
    assert n == k + 2 && t[1..n - 1] == rest[..k];
  }

  lemma PartsAreTag(name: Text, rest: Text)
    requires name != [] && GREATER !in name
    ensures TagLength([LESS] + name + [GREATER] + rest) == Some(|name| + 2)
  {
    var t, more := [LESS] + name + [GREATER] + rest, [GREATER] + rest;
    assert t[1..] == name + more;
    AfterOthers(name, more);
  }

  lemma EscapedTag(t: Text, n: nat)
    requires TagLength(t) == Some(n)
    ensures
      var name := EscapeSelector(t[1..n - 1]);
      && EscapeSelector(t[..n]) == [LESS] + name + [GREATER]
      && EscapeSelector(t) == [LESS] + name + [GREATER] + EscapeSelector(t[n..])
      && GREATER !in name && name != []
  {
    var name := t[1..n - 1];
    TagParts(t, n);
    EscapeSum([LESS] + name + [GREATER], t[n..]);
    EscapeSum([LESS] + name, [GREATER]);
    EscapeSum([LESS], name);
    assert EscapeSelector([LESS]) == [LESS] && EscapeSelector([GREATER]) == [GREATER];
    EscapeGrows(name);
    FirstInSelector(name);
  }

  lemma BoundAsBefore(name: Text, bindings: seq<Binding>)
    requires NoBackslashName(name, bindings) && NoBackslashName(EscapeSelector(name), bindings)
    ensures EscapeSelector(name) in Names(bindings) <==> UnquotedName(name, bindings)
    ensures UnquotedName(name, bindings) ==> EscapeSelector(name) == name
  {
    EscapeGrows(name);
    if EscapeSelector(name) in Names(bindings) {
      EscapeCounts(name);
      assert name == EscapeSelector(name) && Times(QUOTE, name) == 0;
    }
  }

  lemma SubstituteTag(name: Text, rest: Text, bindings: seq<Binding>)
    requires name != [] && GREATER !in name
    ensures Substitute([LESS] + name + [GREATER] + rest, bindings)
         == (if name in Names(bindings) then ValueOf(bindings, name) else [LESS] + name + [GREATER])
            + Substitute(rest, bindings)
  {
    var t, n := [LESS] + name + [GREATER] + rest, |name| + 2;
    PartsAreTag(name, rest);
    assert t[1..n - 1] == name && t[..n] == [LESS] + name + [GREATER] && t[n..] == rest;
  }

  /** A tag is still one when its text is escaped, and bound as before. */
  lemma TagInSelector(t: Text, n: nat, bindings: seq<Binding>)
    requires NoBackslashUsed(t, bindings) && TagLength(t) == Some(n)
    ensures Substitute(EscapeSelector(t), bindings)
         == (if UnquotedName(t[1..n - 1], bindings) then ValueOf(bindings, t[1..n - 1]) else EscapeSelector(t[..n]))
            + Substitute(EscapeSelector(t[n..]), bindings)
  {
    var name := t[1..n - 1];
    EscapedTag(t, n);
    BoundAsBefore(name, bindings);
    hide EscapeSelector, Substitute, TagLength, NoBackslashUsed;
    SubstituteTag(EscapeSelector(name), EscapeSelector(t[n..]), bindings);
  }

  lemma NoTagInSelector(t: Text)
    requires t != [] && TagLength(t).None? && t[0] == LESS
    ensures EscapeSelector(t) == [LESS] + EscapeSelector(t[1..]) && TagLength(EscapeSelector(t)).None?
  {
    var rest := t[1..];
    if IndexOf(rest, GREATER).None? {
      FirstInSelector(rest);
    } else {
      assert rest[0] == GREATER;
    }
    assert EscapeSelector(t)[1..] == EscapeSelector(rest);
  }

  /** `t` escaped is `e`, but for `used` characters that are not escaped in `e`. */
  ghost predicate EscapesTo(t: Text, e: Text, used: nat) {
    && |t| <= |e| && (used == 0 ==> EscapeSelector(t) == e)
    && Times(QUOTE, e) == Times(QUOTE, t)
    && Times(BACKSLASH, e) + used == 2 * Times(BACKSLASH, t) + Times(QUOTE, t)
  }

  lemma EscapesToSum(t: Text, e: Text, used: nat, t': Text, e': Text, used': nat)
    requires EscapesTo(t, e, used) && EscapesTo(t', e', used')
    ensures EscapesTo(t + t', e + e', used + used')
  {
    EscapeSum(t, t');
    TimesSum(QUOTE, t, t');
    TimesSum(QUOTE, e, e');
    TimesSum(BACKSLASH, t, t');
    TimesSum(BACKSLASH, e, e');
    hide Times, EscapeSelector;
  }

  lemma EscapesToItself(t: Text)
    ensures EscapesTo(t, EscapeSelector(t), 0) && EscapesTo(t, t, Specials(t))
  {
    EscapeGrows(t);
    EscapeCounts(t);
  }

  /** What substituting puts for the first character or tag, when quoted names stay. */
  function FirstUnquoted(t: Text, bindings: seq<Binding>): Text
    requires t != []
  {
    match TagLength(t)
    case None => [t[0]]
    case Some(n) => if UnquotedName(t[1..n - 1], bindings) then ValueOf(bindings, t[1..n - 1]) else t[..n]
  }

  /** Escaping after substituting unquoted names adds what the values used have to escape, and nothing else. */
  lemma {:induction false} SelectorSubstitutes(t: Text, bindings: seq<Binding>)
    requires NoBackslashUsed(t, bindings)
    ensures EscapesTo(SubstituteUnquoted(t, bindings), Substitute(EscapeSelector(t), bindings),
                      UsedSpecials(t, bindings))
    decreases |t|
  {
    if t == [] {
      EscapesToItself([]);
    } else {
      var put, rest := FirstUnquoted(t, bindings), t[FirstSize(t)..];
      var e, used := FirstEscaped(t, bindings), FirstUsed(t, bindings);
      FirstInSubstituted(t, bindings);
      FirstEscapes(t, bindings);
      assert SubstituteUnquoted(t, bindings) == put + SubstituteUnquoted(rest, bindings);
      assert UsedSpecials(t, bindings) == used + UsedSpecials(rest, bindings) && NoBackslashUsed(rest, bindings);
      hide EscapesTo, EscapeSelector, Specials, NoBackslashUsed, FirstUnquoted, FirstSize, FirstEscaped, FirstUsed,
        Substitute, SubstituteUnquoted, UsedSpecials;
      SelectorSubstitutes(rest, bindings);
      EscapesToSum(put, e, used, SubstituteUnquoted(rest, bindings),
                   Substitute(EscapeSelector(rest), bindings), UsedSpecials(rest, bindings));
    }
  }

  /** A quoted name that stays holds no backslash; its value may. */
  lemma {:induction false} UnquotedHoldsNoMore(t: Text, bindings: seq<Binding>)
    requires NoBackslashUsed(t, bindings)
    ensures Times(BACKSLASH, SubstituteUnquoted(t, bindings)) <= Times(BACKSLASH, Substitute(t, bindings))
    decreases |t|
  {
    if t != [] {
      var x, y, rest := FirstPut(t, bindings), FirstUnquoted(t, bindings), t[FirstSize(t)..];
      SubstituteFirst(t, bindings);
      assert SubstituteUnquoted(t, bindings) == y + SubstituteUnquoted(rest, bindings);
      assert NoBackslashUsed(rest, bindings);
      FirstHoldsNoMore(t, bindings);
      UnquotedHoldsNoMore(rest, bindings);
      hide Substitute, SubstituteUnquoted, FirstPut, FirstUnquoted, FirstSize, NoBackslashUsed, Times;
      TimesSum(BACKSLASH, x, Substitute(rest, bindings));
      TimesSum(BACKSLASH, y, SubstituteUnquoted(rest, bindings));
    }
  }

  lemma FirstHoldsNoMore(t: Text, bindings: seq<Binding>)
    requires t != [] && NoBackslashUsed(t, bindings)
    ensures Times(BACKSLASH, FirstUnquoted(t, bindings)) <= Times(BACKSLASH, FirstPut(t, bindings))
  {
    if TagLength(t).Some? && t[1..TagLength(t).value - 1] in Names(bindings) {
      var n := TagLength(t).value;
      assert BACKSLASH !in t[1..n - 1];
      hide NoBackslashUsed, NoBackslashName;
      TagHoldsNone(t, n, BACKSLASH);
    }
  }

  lemma TagHoldsNone(t: Text, n: nat, u: nat)
    requires TagLength(t) == Some(n) && u != LESS && u != GREATER && u !in t[1..n - 1]
    ensures u !in t[..n]
  {
    TagParts(t, n);
    hide TagLength;
  }

  /** What substituting puts for the first character or tag of an escaped text. */
  function FirstEscaped(t: Text, bindings: seq<Binding>): Text
    requires t != []
  {
    match TagLength(t)
    case None => EscapeSelector([t[0]])
    case Some(n) =>
      if UnquotedName(t[1..n - 1], bindings) then ValueOf(bindings, t[1..n - 1]) else EscapeSelector(t[..n])
  }

  function FirstUsed(t: Text, bindings: seq<Binding>): nat
    requires t != []
  {
    match TagLength(t)
    case None => 0
    case Some(n) => if UnquotedName(t[1..n - 1], bindings) then Specials(ValueOf(bindings, t[1..n - 1])) else 0
  }

  lemma FirstEscapes(t: Text, bindings: seq<Binding>)
    requires t != []
    ensures EscapesTo(FirstUnquoted(t, bindings), FirstEscaped(t, bindings), FirstUsed(t, bindings))
  {
    EscapesToItself(FirstUnquoted(t, bindings));
    hide EscapesTo, EscapeSelector, Specials;
  }

  lemma FirstInSubstituted(t: Text, bindings: seq<Binding>)
    requires NoBackslashUsed(t, bindings) && t != []
    ensures FirstSize(t) <= |t|
    ensures Substitute(EscapeSelector(t), bindings)
         == FirstEscaped(t, bindings) + Substitute(EscapeSelector(t[FirstSize(t)..]), bindings)
  {
    hide EscapeSelector, Substitute, NoBackslashUsed;
    match TagLength(t)
    case None => PlainInSelector(t, bindings);
    case Some(n) => TagInSelector(t, n, bindings);
  }

  lemma PlainInSelector(t: Text, bindings: seq<Binding>)
    requires t != [] && TagLength(t).None?
    ensures Substitute(EscapeSelector(t), bindings)
       == EscapeSelector([t[0]]) + Substitute(EscapeSelector(t[1..]), bindings)
  {
    var one, rest := [t[0]], t[1..];
    EscapeSum(one, rest);
    assert t == one + rest;
    if t[0] == LESS {
      NoTagInSelector(t);
      assert EscapeSelector(one) == one && EscapeSelector(t)[1..] == EscapeSelector(rest);
    } else {
      assert LESS !in EscapeSelector(one);
      SubstituteAfterPlain(EscapeSelector(one), EscapeSelector(rest), bindings);
    }
  }

  lemma SelectorOfSubstituted(t: Text, bindings: seq<Binding>)
    ensures Substitute(EscapedTextSelector(t), bindings)
         == Ascii("text=") + [QUOTE] + (Substitute(EscapeSelector(t), bindings) + [QUOTE])
  {
    var start, e := Ascii("text=") + [QUOTE], EscapeSelector(t);
    assert EscapedTextSelector(t) == start + (e + [QUOTE]);
    assert LESS !in start;
    SubstituteAfterPlain(start, e + [QUOTE], bindings);
    SubstituteBeforeQuote(e, bindings);
  }

  /** The selector of a template, with the values, will be that of the text with the values. */
  predicate KeepsSelector(t: Text, bindings: seq<Binding>) {
    UsedSpecials(t, bindings) == 0 && Substitute(t, bindings) == SubstituteUnquoted(t, bindings)
  }

  /** Counting quotes and backslashes: values that need escaping are not made up for elsewhere. */
  lemma EscapedStaysExactlyWhen(t: Text, bindings: seq<Binding>)
    requires NoBackslashUsed(t, bindings)
    ensures Substitute(EscapeSelector(t), bindings) == EscapeSelector(Substitute(t, bindings))
       <==> KeepsSelector(t, bindings)
  {
    var x, y, z := Substitute(t, bindings), SubstituteUnquoted(t, bindings), Substitute(EscapeSelector(t), bindings);
    SelectorSubstitutes(t, bindings);
    UnquotedHoldsNoMore(t, bindings);
    EscapeCounts(x);
    hide Substitute, SubstituteUnquoted, UsedSpecials, NoBackslashUsed, EscapeSelector, Times;
    if z == EscapeSelector(x) {
      assert UsedSpecials(t, bindings) == 0;
      EscapeTellsText(x, y);
    }
  }

  /**
   The selector of a template is that of its text with the values exactly when no value that it uses
   is to be escaped and the values of quoted names make no difference.
   */
  lemma SelectorStaysExactlyWhen(t: Text, bindings: seq<Binding>)
    requires NoBackslashUsed(t, bindings)
    ensures Substitute(EscapedTextSelector(t), bindings) == EscapedTextSelector(Substitute(t, bindings))
       <==> KeepsSelector(t, bindings)
    ensures |Substitute(EscapedTextSelector(t), bindings)| > |SubstituteUnquoted(t, bindings)|
  {
    hide EscapeSelector, Substitute, SubstituteUnquoted, UsedSpecials, KeepsSelector, NoBackslashUsed, Times, Ascii;
    SelectorOfSubstituted(t, bindings);
    SelectorSubstitutes(t, bindings);
    EscapedStaysExactlyWhen(t, bindings);
    var x, y := Substitute(EscapeSelector(t), bindings), EscapeSelector(Substitute(t, bindings));
    SameInside(Ascii("text=") + [QUOTE], x, y);
  }

  lemma SameInside(start: Text, x: Text, y: Text)
    ensures start + (x + [QUOTE]) == start + (y + [QUOTE]) <==> x == y
    ensures start + (y + [QUOTE]) == start + y + [QUOTE]
    ensures |start + (x + [QUOTE])| > |x|
  {
    var s, t := start + (x + [QUOTE]), start + (y + [QUOTE]);
    if s == t {
      assert x == s[|start|..|s| - 1] && y == t[|start|..|t| - 1];
    }
  }

  /** With names that the cache accepts only the values matter. */
  lemma SelectorStaysForAcceptableNames(t: Text, bindings: seq<Binding>)
    requires AcceptableNames(Names(bindings))
    ensures Substitute(EscapedTextSelector(t), bindings) == EscapedTextSelector(Substitute(t, bindings))
       <==> UsedSpecials(t, bindings) == 0
  {
    NoneIsQuoted(t, bindings);
    SelectorStaysExactlyWhen(t, bindings);
  }

  lemma {:induction false} NoneIsQuoted(t: Text, bindings: seq<Binding>)
    requires AcceptableNames(Names(bindings))
    ensures NoBackslashUsed(t, bindings) && Substitute(t, bindings) == SubstituteUnquoted(t, bindings)
    decreases |t|
  {
    if t != [] {
      match TagLength(t)
      case None => NoneIsQuoted(t[1..], bindings);
      case Some(n) => NoneIsQuoted(t[n..], bindings);
    }
  }

  // ---------------------------------------------------------------- trimming and substituting

  /** A body that trimming leaves alone. */
  predicate Unspaced(body: Text) {
    body != [] && (!IsSpace(body[0]) || |body| == 1)
  }

  predicate AllSpaces(t: Text) {
    forall u :: u in t ==> IsSpace(u)
  }

  lemma {:induction false} SpacesThenText(spaces: Text, t: Text)
    requires AllSpaces(spaces)
    ensures SpaceLength(spaces + t) == |spaces| + SpaceLength(t)
  {
    if spaces == [] {
      NothingBefore(t);
    } else {
      var all, others := spaces + t, spaces[1..];
      assert all[0] == spaces[0] && spaces[0] in spaces && all[1..] == others + t;
      assert forall u :: u in others ==> u in spaces;
      SpacesThenText(others, t);
    }
  }

  lemma {:induction false} SpacesEnd(t: Text)
    ensures SpaceLength(t) < |t| ==> !IsSpace(t[SpaceLength(t)])
  {
    if t != [] && IsSpace(t[0]) {
      SpacesEnd(t[1..]);
    }
  }

  /** A body is what follows some spaces, and is not trimmed further. */
  lemma BodySplit(t: Text)
    requires BodyOf(t).Some?
    ensures
      var body := BodyOf(t).value;
      |body| <= |t| && t == t[..|t| - |body|] + body && AllSpaces(t[..|t| - |body|]) && Unspaced(body)
  {
    SpacesEnd(t);
  }

  /** Of spaces and a text, the text is the body exactly when trimming leaves it alone. */
  lemma TrimmedExactlyWhen(spaces: Text, t: Text)
    requires AllSpaces(spaces) && BodyOf(spaces + t).Some?
    ensures BodyOf(spaces + t).value == t <==> Unspaced(t)
    ensures |BodyOf(spaces + t).value| <= |t| || |BodyOf(spaces + t).value| == 1
  {
    var all := spaces + t;
    SpacesThenText(spaces, t);
    BodySplit(all);
    if Unspaced(t) {
      assert all[|spaces|..] == t;
    }
  }

  // ---------------------------------------------------------------- separators and substituting

  lemma {:induction false} FirstSeparator(left: Text, right: Text)
    ensures SeparatorIn(left + EQUALS + right) == SeparatorIn(left + EQUALS)
  {
    var s, t := left + EQUALS, left + EQUALS + right;
    assert t[..3] == s[..3];
    if left != [] {
      assert s[1..] == left[1..] + EQUALS && t[1..] == left[1..] + EQUALS + right;
      FirstSeparator(left[1..], right);
    }
  }

  lemma {:induction false} SeparatorParts(t: Text)
    requires SeparatorIn(t).Some?
    ensures
      var i := SeparatorIn(t).value;
      t == t[..i] + EQUALS + t[i + 3..]
  {
    if !StartsWith(t, EQUALS) {
      SeparatorParts(t[1..]);
      var i := SeparatorIn(t).value;
      assert t[1..][..i - 1] == t[1..i] && t[..i] == [t[0]] + t[1..i];
    }
  }

  // ---------------------------------------------------------------- assertions and substituting

  function WordOf(what: Predicate): Text {
    Ascii(Name(what)) + [COLON]
  }

  lemma {:induction false} AssertionParts(t: Text, predicates: seq<Predicate>)
    requires AssertionIn(t, predicates).Some?
    ensures
      var a := AssertionIn(t, predicates).value;
      StartsWith(t, WordOf(a.what)) && BodyOf(t[|WordOf(a.what)|..]) == Some(a.body)
  {
    hide BodyOf, Ascii, Name;
    if !StartsWith(t, WordOf(predicates[0])) {
      AssertionParts(t, predicates[1..]);
    }
  }

  lemma WordTellsPredicate(t: Text, p: Predicate, q: Predicate)
    requires StartsWith(t, WordOf(p)) && StartsWith(t, WordOf(q))
    ensures p == q
  {
    var x, y := WordOf(p), WordOf(q);
    assert x[0] == Name(p)[0] as nat && x[1] == Name(p)[1] as nat;
    assert y[0] == Name(q)[0] as nat && y[1] == Name(q)[1] as nat;
    assert t[..|x|][0] == t[..|y|][0] && t[..|x|][1] == t[..|y|][1];
  }

  lemma AssertionShape(t: Text) returns (spaces: Text)
    requires AssertionOf(t).Some?
    ensures t == WordOf(AssertionOf(t).value.what) + (spaces + AssertionOf(t).value.body)
    ensures AllSpaces(spaces) && LESS !in WordOf(AssertionOf(t).value.what) && LESS !in spaces
  {
    var a := AssertionOf(t).value;
    assert AssertionIn(t, PREDICATES) == AssertionOf(t);
    hide AssertionOf, AssertionIn, BodyOf, WordOf, AllSpaces, Unspaced, StartsWith;
    AssertionParts(t, PREDICATES);
    StartAndRest(t, WordOf(a.what));
    var after := t[|WordOf(a.what)|..];
    BodySplit(after);
    spaces := after[..|after| - |a.body|];
    WordHasNoTag(a.what);
    SpacesHaveNoTag(spaces);
  }

  lemma StartAndRest(t: Text, start: Text)
    requires StartsWith(t, start)
    ensures |start| <= |t| && t == start + t[|start|..]
  {
  }

  lemma WordHasNoTag(what: Predicate)
    ensures LESS !in WordOf(what)
  {
  }

  lemma SpacesHaveNoTag(spaces: Text)
    requires AllSpaces(spaces)
    ensures LESS !in spaces
  {
    assert !IsSpace(LESS);
  }

  lemma BodyAfterWord(t: Text, what: Predicate, rest: Text)
    requires AssertionOf(t).Some? && t == WordOf(what) + rest
    ensures AssertionOf(t).value.what == what && BodyOf(rest) == Some(AssertionOf(t).value.body)
  {
    AssertionParts(t, PREDICATES);
    var found := AssertionOf(t).value.what;
    hide AssertionOf, BodyOf, WordOf;
    assert t[..|WordOf(what)|] == WordOf(what) && t[|WordOf(what)|..] == rest;
    WordTellsPredicate(t, what, found);
  }

  /** A template that asserts keeps its word and the spaces after it, and its body is substituted. */
  lemma AssertionSubstitutes(t: Text, bindings: seq<Binding>) returns (spaces: Text)
    requires AssertionOf(t).Some? && AssertionOf(Substitute(t, bindings)).Some?
    ensures
      var a, r := AssertionOf(t).value, AssertionOf(Substitute(t, bindings)).value;
      r.what == a.what && AllSpaces(spaces) && BodyOf(spaces + Substitute(a.body, bindings)) == Some(r.body)
  {
    var a := AssertionOf(t).value;
    spaces := AssertionShape(t);
    hide AssertionOf, BodyOf, WordOf, Substitute, AllSpaces;
    SubstituteAfterPlain(WordOf(a.what), spaces + a.body, bindings);
    SubstituteAfterPlain(spaces, a.body, bindings);
    BodyAfterWord(Substitute(t, bindings), a.what, spaces + Substitute(a.body, bindings));
  }

  // ---------------------------------------------------------------- when the arguments agree

  /** The text after its spaces. */
  function Trimmed(t: Text): Text {
    t[SpaceLength(t)..]
  }

  /** The values in a body neither move its separator nor put a space before it. */
  predicate SeparatesAlike(body: Text, bindings: seq<Binding>)
    requires SeparatorIn(body).Some?
  {
    var i := SeparatorIn(body).value;
    var left, right := Substitute(body[..i], bindings), Substitute(body[i + 3..], bindings);
    && Trimmed(Substitute(body, bindings)) == left + EQUALS + right
    && SeparatorIn(left + EQUALS) == Some(|left|)
  }

  /** The template's argument, with the values in it, is the runtime argument. */
  predicate KeepsArguments(template: MobileStep, runtime: MobileStep, bindings: seq<Binding>) {
    template.kind.Outcome? ==>
      match (AssertionOf(template.text), AssertionOf(runtime.text))
      case (Some(t), Some(r)) =>
        if t.what == TextIs && SeparatorIn(t.body).Some? && SeparatorIn(r.body).Some?
        then SeparatesAlike(t.body, bindings)
        else Unspaced(Substitute(t.body, bindings))
      case _ => KeepsSelector(template.text, bindings)
  }

  lemma BodyStaysExactlyWhen(spaces: Text, body: Text, u: Text)
    requires AllSpaces(spaces) && BodyOf(spaces + u) == Some(body)
    ensures body == u <==> Unspaced(u)
    ensures Unspaced(body) && (|body| <= |u| || |body| == 1)
  {
    TrimmedExactlyWhen(spaces, u);
    BodySplit(spaces + u);
  }

  /** What stands before and after the separator of a template is, with the values, what stands there in a text. */
  predicate SidesAgree(template: Text, runtime: Text, bindings: seq<Binding>)
    requires SeparatorIn(template).Some? && SeparatorIn(runtime).Some?
  {
    var i, j := SeparatorIn(template).value, SeparatorIn(runtime).value;
    Substitute(template[..i], bindings) == runtime[..j] && Substitute(template[i + 3..], bindings) == runtime[j + 3..]
  }

  /** Two sides and a separator between them are the text just when it splits there. */
  lemma SplitsAt(t: Text, j: nat, left: Text, right: Text)
    requires SeparatorIn(t) == Some(j)
    ensures t[..j] == left && t[j + 3..] == right <==> t == left + EQUALS + right && j == |left|
  {
    SeparatorParts(t);
    var x, y := t[..j], t[j + 3..];
    hide SeparatorIn;
    assert |x| == j;
    if t == left + EQUALS + right && j == |left| {
      assert t[..j] == left && t[j + 3..] == right;
    }
  }

  lemma SplitsAtFirst(t: Text, j: nat, left: Text, right: Text)
    requires SeparatorIn(t) == Some(j)
    ensures t == left + EQUALS + right && j == |left|
       <==> t == left + EQUALS + right && SeparatorIn(left + EQUALS) == Some(|left|)
  {
    FirstSeparator(left, right);
  }

  lemma BodyIsTrimmed(spaces: Text, t: Text)
    requires AllSpaces(spaces) && BodyOf(spaces + t).Some? && |BodyOf(spaces + t).value| > 1
    ensures BodyOf(spaces + t).value == Trimmed(t)
  {
    SpacesThenText(spaces, t);
    assert SpaceLength(spaces + t) < |spaces + t| || SpaceLength(spaces + t) == 0;
    assert (spaces + t)[|spaces| + SpaceLength(t)..] == t[SpaceLength(t)..];
  }

  /** Both sides of a text assertion agree exactly when its values separate alike. */
  lemma SidesStayExactlyWhen(template: Text, runtime: Text, spaces: Text, bindings: seq<Binding>)
    requires AllSpaces(spaces) && SeparatorIn(template).Some? && SeparatorIn(runtime).Some?
    requires BodyOf(spaces + Substitute(template, bindings)) == Some(runtime)
    ensures SidesAgree(template, runtime, bindings) <==> SeparatesAlike(template, bindings)
  {
    var i, j, u := SeparatorIn(template).value, SeparatorIn(runtime).value, Substitute(template, bindings);
    var left, right := Substitute(template[..i], bindings), Substitute(template[i + 3..], bindings);
    BodyIsTrimmed(spaces, u);
    hide Substitute, BodyOf, SeparatorIn, AllSpaces, Trimmed;
    SplitsAt(runtime, j, left, right);
    SplitsAtFirst(runtime, j, left, right);
  }

  /** A selector is compiled: the template, or the text with the values, asserts nothing. */
  predicate HasSelector(template: MobileStep, runtime: MobileStep) {
    template.kind.Outcome? && (AssertionOf(template.text).None? || AssertionOf(runtime.text).None?)
  }

  /** What is asked of a step's names: where it has a selector, those in it have no backslash. */
  predicate NamesFit(template: MobileStep, runtime: MobileStep, bindings: seq<Binding>) {
    HasSelector(template, runtime) ==> NoBackslashUsed(template.text, bindings)
  }

  /** Of a step whose text is the template's with the bound values, when that is the runtime text. */
  lemma ArgumentsAgreeExactlyWhen(template: MobileStep, runtime: MobileStep, bindings: seq<Binding>,
          variables: Variables)
    requires NamesFit(template, runtime, bindings) && runtime.text == Substitute(template.text, bindings)
    ensures SubstituteCommand(TemplateCommand(template, runtime), bindings)
         == RuntimeCommand(OperationFor(template, runtime, Names(bindings), variables))
       <==> KeepsArguments(template, runtime, bindings)
  {
    if template.kind.Outcome? {
      AssertionAgreesExactlyWhen(template, runtime, bindings, variables);
    }
    hide AssertionOperation, AssertionOf, Substitute, SeparatorIn, EscapedTextSelector, ReplaceVariables;
  }

  /** What a template's assertion and that of its substituted text have to do with each other. */
  lemma AssertionsCompare(t: Text, bindings: seq<Binding>)
    requires AssertionOf(t).Some? && AssertionOf(Substitute(t, bindings)).Some?
    ensures
      var a, r := AssertionOf(t).value, AssertionOf(Substitute(t, bindings)).value;
      var u := Substitute(a.body, bindings);
      r.what == a.what && (r.body == u <==> Unspaced(u)) && (|r.body| <= |u| || |r.body| == 1)
  {
    var spaces := AssertionSubstitutes(t, bindings);
    hide AssertionOf, Substitute, BodyOf, Unspaced, AllSpaces;
    BodyStaysExactlyWhen(spaces, AssertionOf(Substitute(t, bindings)).value.body,
                         Substitute(AssertionOf(t).value.body, bindings));
  }

  lemma SidesCompare(t: Text, bindings: seq<Binding>)
    requires AssertionOf(t).Some? && AssertionOf(Substitute(t, bindings)).Some?
    requires SeparatorIn(AssertionOf(t).value.body).Some?
    requires SeparatorIn(AssertionOf(Substitute(t, bindings)).value.body).Some?
    ensures
      var a, r := AssertionOf(t).value.body, AssertionOf(Substitute(t, bindings)).value.body;
      SidesAgree(a, r, bindings) <==> SeparatesAlike(a, bindings)
  {
    var spaces := AssertionSubstitutes(t, bindings);
    hide AssertionOf, Substitute, BodyOf, SeparatesAlike, SidesAgree, AllSpaces, SeparatorIn;
    SidesStayExactlyWhen(AssertionOf(t).value.body, AssertionOf(Substitute(t, bindings)).value.body, spaces, bindings);
  }

  /** The command of an assertion, split at its separator or not. */
  function BodyCommand(what: Predicate, body: Text, split: bool): Command
    requires split ==> SeparatorIn(body).Some?
  {
    if what != TextIs then Checks(what, body)
    else if split then ChecksText(body[..SeparatorIn(body).value], body[SeparatorIn(body).value + 3..])
    else ChecksText(body, [])
  }

  lemma BothCommands(template: MobileStep, runtime: MobileStep, names: seq<Text>, variables: Variables)
    requires template.kind.Outcome? && AssertionOf(template.text).Some? && AssertionOf(runtime.text).Some?
    requires AssertionOf(runtime.text).value.what == AssertionOf(template.text).value.what
    ensures
      var t, r := AssertionOf(template.text).value, AssertionOf(runtime.text).value;
      var split := SeparatorIn(t.body).Some? && SeparatorIn(r.body).Some?;
      && TemplateCommand(template, runtime) == BodyCommand(t.what, t.body, split)
      && RuntimeCommand(AssertionOperation(template, runtime, names, variables)) == BodyCommand(r.what, r.body, split)
  {
    hide AssertionOf, SeparatorIn, EscapedTextSelector, ReplaceVariables;
  }

  lemma BodyCommandsAgree(t: Assertion, r: Assertion, split: bool, bindings: seq<Binding>)
    requires t.what == r.what && (split ==> SeparatorIn(t.body).Some? && SeparatorIn(r.body).Some?)
    ensures SubstituteCommand(BodyCommand(t.what, t.body, split), bindings) == BodyCommand(r.what, r.body, split) <==>
      if t.what == TextIs && split then SidesAgree(t.body, r.body, bindings) else Substitute(t.body, bindings) == r.body
  {
    assert Substitute([], bindings) == [];
    hide SeparatorIn, Substitute;
  }

  lemma BothAssertExactlyWhen(template: MobileStep, runtime: MobileStep, bindings: seq<Binding>, variables: Variables)
    requires runtime.text == Substitute(template.text, bindings) && template.kind.Outcome?
    requires AssertionOf(template.text).Some? && AssertionOf(runtime.text).Some?
    ensures SubstituteCommand(TemplateCommand(template, runtime), bindings)
         == RuntimeCommand(AssertionOperation(template, runtime, Names(bindings), variables))
       <==> KeepsArguments(template, runtime, bindings)
  {
    hide AssertionOf, Substitute, SeparatorIn, SeparatesAlike, SidesAgree, Unspaced, TemplateCommand,
      RuntimeCommand, AssertionOperation, BodyCommand, SubstituteCommand;
    AssertionsCompare(template.text, bindings);
    var t, r := AssertionOf(template.text).value, AssertionOf(runtime.text).value;
    var split := SeparatorIn(t.body).Some? && SeparatorIn(r.body).Some?;
    BothCommands(template, runtime, Names(bindings), variables);
    BodyCommandsAgree(t, r, split, bindings);
    if split {
      SidesCompare(template.text, bindings);
    }
  }

  lemma AssertionAgreesExactlyWhen(template: MobileStep, runtime: MobileStep, bindings: seq<Binding>,
          variables: Variables)
    requires NamesFit(template, runtime, bindings) && runtime.text == Substitute(template.text, bindings)
    requires template.kind.Outcome?
    ensures SubstituteCommand(TemplateCommand(template, runtime), bindings)
         == RuntimeCommand(AssertionOperation(template, runtime, Names(bindings), variables))
       <==> KeepsArguments(template, runtime, bindings)
  {
    hide AssertionOf, Substitute, SeparatorIn, EscapedTextSelector, ReplaceVariables, SeparatesAlike, Unspaced,
      KeepsSelector, NoBackslashUsed;
    if AssertionOf(template.text).Some? && AssertionOf(runtime.text).Some? {
      BothAssertExactlyWhen(template, runtime, bindings, variables);
      hide TemplateCommand, SubstituteCommand, RuntimeCommand, AssertionOperation, KeepsArguments;
    } else {
      SelectorStaysExactlyWhen(template.text, bindings);
    }
  }

  // ---------------------------------------------------------------- doing what the step asks for

  /**
   The text with the values asks for what the template's command does: both assert, and separate,
   alike, or neither asserts, and the arguments are kept; or the text spells out the selector.
   */
  predicate AsAsked(template: MobileStep, runtime: MobileStep, bindings: seq<Binding>) {
    template.kind.Outcome? ==>
      match (AssertionOf(template.text), AssertionOf(runtime.text))
      case (Some(t), Some(r)) =>
        && (t.what == TextIs && SeparatorIn(r.body).Some? ==> SeparatorIn(t.body).Some?)
        && KeepsArguments(template, runtime, bindings)
      case (None, Some(r)) => SpellsSelector(template.text, r, bindings)
      case (_, None) => KeepsSelector(template.text, bindings)
  }

  /** An assertion, in a value, that the very selector of the template is visible. */
  predicate SpellsSelector(t: Text, r: Assertion, bindings: seq<Binding>) {
    r == Assertion(Visible, Substitute(EscapedTextSelector(t), bindings))
  }

  /** Only the value of a quoted name can spell out the selector. */
  lemma NoneSpellsSelector(t: Text, bindings: seq<Binding>)
    requires NoBackslashUsed(t, bindings) && Substitute(t, bindings) == SubstituteUnquoted(t, bindings)
    requires AssertionOf(Substitute(t, bindings)).Some?
    ensures !SpellsSelector(t, AssertionOf(Substitute(t, bindings)).value, bindings)
  {
    SelectorStaysExactlyWhen(t, bindings);
    BodyIsShorter(Substitute(t, bindings));
  }

  /** With the values in its template's argument, a step does what its own text asks for in just those cases. */
  lemma DoesWhatIsAskedExactlyWhen(template: MobileStep, runtime: MobileStep, bindings: seq<Binding>)
    requires NamesFit(template, runtime, bindings)
    requires runtime == MobileStep(template.kind, Substitute(template.text, bindings))
    ensures SubstituteCommand(TemplateCommand(template, runtime), bindings) == Asked(runtime)
       <==> AsAsked(template, runtime, bindings)
  {
    if template.kind.Outcome? {
      AssertionIsAskedExactlyWhen(template, runtime, bindings);
    }
    hide AssertionOf, Substitute, SeparatorIn, EscapedTextSelector, SeparatesAlike, Unspaced, KeepsSelector;
  }

  lemma AssertionIsAskedExactlyWhen(template: MobileStep, runtime: MobileStep, bindings: seq<Binding>)
    requires NamesFit(template, runtime, bindings) && template.kind.Outcome?
    requires runtime == MobileStep(Outcome, Substitute(template.text, bindings))
    ensures SubstituteCommand(TemplateCommand(template, runtime), bindings) == Asked(runtime)
       <==> AsAsked(template, runtime, bindings)
  {
    hide AssertionOf, Substitute, SeparatorIn, EscapedTextSelector, SeparatesAlike, Unspaced, KeepsSelector,
      NoBackslashUsed;
    if AssertionOf(template.text).Some? && AssertionOf(runtime.text).Some? {
      BothAskExactlyWhen(template, runtime, bindings);
      hide TemplateCommand, SubstituteCommand, Asked;
    } else {
      SelectorStaysExactlyWhen(template.text, bindings);
      if AssertionOf(runtime.text).Some? {
        SelectorIsAskedExactlyWhen(template, runtime, bindings);
      }
    }
  }

  lemma SelectorIsAskedExactlyWhen(template: MobileStep, runtime: MobileStep, bindings: seq<Binding>)
    requires template.kind.Outcome? && runtime.kind.Outcome?
    requires AssertionOf(template.text).None? && AssertionOf(runtime.text).Some?
    ensures SubstituteCommand(TemplateCommand(template, runtime), bindings) == Asked(runtime)
       <==> SpellsSelector(template.text, AssertionOf(runtime.text).value, bindings)
  {
    hide AssertionOf, Substitute, SeparatorIn, EscapedTextSelector;
  }

  lemma AskedCommand(step: MobileStep)
    requires step.kind.Outcome? && AssertionOf(step.text).Some?
    ensures
      var a := AssertionOf(step.text).value;
      Asked(step) == BodyCommand(a.what, a.body, SeparatorIn(a.body).Some?)
  {
    hide AssertionOf, SeparatorIn, EscapedTextSelector;
  }

  lemma SplitIsAnother(t: Text, r: Text, bindings: seq<Binding>)
    requires SeparatorIn(r).Some? && (|r| <= |Substitute(t, bindings)| || |r| == 1)
    ensures SubstituteCommand(BodyCommand(TextIs, t, false), bindings) != BodyCommand(TextIs, r, true)
  {
    hide SeparatorIn, Substitute;
  }

  lemma BothAskExactlyWhen(template: MobileStep, runtime: MobileStep, bindings: seq<Binding>)
    requires template.kind.Outcome? && runtime == MobileStep(Outcome, Substitute(template.text, bindings))
    requires AssertionOf(template.text).Some? && AssertionOf(runtime.text).Some?
    ensures SubstituteCommand(TemplateCommand(template, runtime), bindings) == Asked(runtime)
       <==> AsAsked(template, runtime, bindings)
  {
    hide AssertionOf, Substitute, SeparatorIn, SeparatesAlike, SidesAgree, Unspaced, TemplateCommand, Asked,
      RuntimeCommand, AssertionOperation, SubstituteCommand;
    AssertionsCompare(template.text, bindings);
    var t, r := AssertionOf(template.text).value, AssertionOf(runtime.text).value;
    var split := SeparatorIn(t.body).Some? && SeparatorIn(r.body).Some?;
    BothCommands(template, runtime, [], name => name);
    AskedCommand(runtime);
    if t.what == TextIs && SeparatorIn(r.body).Some? && !split {
      SplitIsAnother(t.body, r.body, bindings);
    } else {
      assert Asked(runtime) == BodyCommand(r.what, r.body, split);
      BodyCommandsAgree(t, r, split, bindings);
    }
    hide BodyCommand;
    if split {
      SidesCompare(template.text, bindings);
    }
  }

  lemma BodyIsShorter(t: Text)
    requires AssertionOf(t).Some?
    ensures |AssertionOf(t).value.body| < |t|
  {
    var spaces := AssertionShape(t);
  }

  /** What a compiled operation's line does is what the step asks for, in just those cases. */
  lemma LineReplaysExactlyWhen(template: MobileStep, runtime: MobileStep, bindings: seq<Binding>, variables: Variables)
    requires AreReplayVariables(variables) && IsLiteral(template.text) && NamesFit(template, runtime, bindings)
    requires runtime == MobileStep(template.kind, Substitute(template.text, bindings))
    ensures
      var operation := OperationFor(template, runtime, Names(bindings), variables);
      && (Replays(OperationLine(operation), RuntimeCommand(operation), bindings, variables)
          <==> KeepsArguments(template, runtime, bindings))
      && (Replays(OperationLine(operation), Asked(runtime), bindings, variables)
          <==> AsAsked(template, runtime, bindings))
  {
    var operation := OperationFor(template, runtime, Names(bindings), variables);
    TemplateCommandIsLiteral(template, runtime);
    ExpandedOperation(template, runtime, bindings, variables);
    ArgumentsAgreeExactlyWhen(template, runtime, bindings, variables);
    DoesWhatIsAskedExactlyWhen(template, runtime, bindings);
    ReplaysWhatItSays(operation, RuntimeCommand(operation), bindings, variables);
    ReplaysWhatItSays(operation, Asked(runtime), bindings, variables);
    hide Replays, OperationLine, OperationFor, RuntimeCommand, Asked, KeepsArguments, AsAsked, TemplateCommand,
      CommandOf, ExpandCommand, SubstituteCommand, Substitute, LiteralCommand, IsLiteral, NamesFit;
  }

  // ---------------------------------------------------------------- values that change what a step does

  const X: Text := [0x78]
  const TAG_X: Text := [LESS, 0x78, GREATER]

  lemma SubstituteTagX(rest: Text, value: Text)
    requires LESS !in rest
    ensures Substitute(TAG_X + rest, [Binding(X, value)]) == value + rest
  {
    var bindings := [Binding(X, value)];
    assert Names(bindings) == [X] && ValueOf(bindings, X) == value;
    assert TAG_X + rest == [LESS] + X + [GREATER] + rest;
    SubstituteTag(X, rest, bindings);
    SubstituteAfterPlain(rest, [], bindings);
    assert rest + [] == rest;
  }

  lemma {:induction false} NoWord(t: Text, predicates: seq<Predicate>)
    requires t != [] && !IsLetter(t[0])
    ensures AssertionIn(t, predicates).None?
  {
    if predicates != [] {
      NoWord(t, predicates[1..]);
      assert WordOf(predicates[0])[0] == Name(predicates[0])[0] as nat;
      if StartsWith(t, WordOf(predicates[0])) {
        FirstOfPrefix(t, WordOf(predicates[0]));
      }
    }
  }

  lemma {:induction false} WordDecides(what: Predicate, rest: Text, predicates: seq<Predicate>)
    requires what in predicates && BodyOf(rest).Some?
    ensures AssertionIn(WordOf(what) + rest, predicates) == Some(Assertion(what, BodyOf(rest).value))
  {
    var t := WordOf(what) + rest;
    hide BodyOf, Ascii, Name;
    assert t[..|WordOf(what)|] == WordOf(what) && t[|WordOf(what)|..] == rest;
    if StartsWith(t, WordOf(predicates[0])) {
      WordTellsPredicate(t, what, predicates[0]);
    } else {
      WordDecides(what, rest, predicates[1..]);
    }
  }

  lemma OneTag(name: Text, value: Text)
    requires name != [] && GREATER !in name && BACKSLASH !in name
    ensures
      var t, bindings := TagOf(name), [Binding(name, value)];
      && TagLength(t) == Some(|t|) && t[1..|t| - 1] == name
      && NoBackslashUsed(t, bindings) && Substitute(t, bindings) == value
      && SubstituteUnquoted(t, bindings) == (if QUOTE in name then t else value)
      && UsedSpecials(t, bindings) == (if QUOTE in name then 0 else Specials(value))
  {
    var t, bindings := TagOf(name), [Binding(name, value)];
    PartsAreTag(name, []);
    assert t == [LESS] + name + [GREATER] + [];
    assert t[1..|t| - 1] == name && t[|t|..] == [] && t[..|t|] == t;
    assert Names(bindings) == [name] && ValueOf(bindings, name) == value;
    assert value + [] == value && t + [] == t;
  }

  function TagOf(name: Text): Text {
    [LESS] + name + [GREATER]
  }

  /** A tag alone, of which the selector is another than that of its value. */
  lemma TagChangesTheCheck(name: Text, value: Text, variables: Variables)
    requires AreReplayVariables(variables) && AssertionOf(value).None?
    requires name != [] && GREATER !in name && BACKSLASH !in name && DOLLAR !in name
    requires if QUOTE in name then value != TagOf(name) else Specials(value) > 0
    ensures
      var bindings := [Binding(name, value)];
      var template, runtime := MobileStep(Outcome, TagOf(name)), MobileStep(Outcome, value);
      var operation := OperationFor(template, runtime, Names(bindings), variables);
      && runtime.text == Substitute(template.text, bindings)
      && !Replays(OperationLine(operation), RuntimeCommand(operation), bindings, variables)
      && !Replays(OperationLine(operation), Asked(runtime), bindings, variables)
  {
    OneTag(name, value);
    NoWord(TagOf(name), PREDICATES);
    NoDollarIsLiteral(TagOf(name));
    hide Replays, OperationFor, OperationLine, RuntimeCommand, Substitute, SubstituteUnquoted, UsedSpecials,
      AssertionOf, Asked, NoBackslashUsed, TagOf, IsLiteral;
    LineReplaysExactlyWhen(MobileStep(Outcome, TagOf(name)), MobileStep(Outcome, value), [Binding(name, value)],
                           variables);
  }

  /** The step checks that `"` is visible; in the selector of its template the value is not escaped. */
  lemma QuoteChangesTheCheck(variables: Variables)
    requires AreReplayVariables(variables)
    ensures
      var bindings := [Binding(X, [QUOTE])];
      var template, runtime := MobileStep(Outcome, TagOf(X)), MobileStep(Outcome, [QUOTE]);
      var operation := OperationFor(template, runtime, Names(bindings), variables);
      && runtime.text == Substitute(template.text, bindings)
      && !Replays(OperationLine(operation), RuntimeCommand(operation), bindings, variables)
      && !Replays(OperationLine(operation), Asked(runtime), bindings, variables)
  {
    NoWord([QUOTE], PREDICATES);
    assert Specials([QUOTE]) == 1;
    TagChangesTheCheck(X, [QUOTE], variables);
  }

  // The name `a"` and the value `1`.
  const QUOTED: Text := [0x61, QUOTE]
  const ONE: Text := [0x31]

  /** The step checks that `1` is visible; in the escaped selector of its template the name is another, and stays. */
  lemma NameChangesTheCheck(variables: Variables)
    requires AreReplayVariables(variables)
    ensures
      var bindings := [Binding(QUOTED, ONE)];
      var template, runtime := MobileStep(Outcome, TagOf(QUOTED)), MobileStep(Outcome, ONE);
      var operation := OperationFor(template, runtime, Names(bindings), variables);
      && runtime.text == Substitute(template.text, bindings) && UsedSpecials(template.text, bindings) == 0
      && !Replays(OperationLine(operation), RuntimeCommand(operation), bindings, variables)
      && !Replays(OperationLine(operation), Asked(runtime), bindings, variables)
  {
    NoWord(ONE, PREDICATES);
    assert QUOTED[1] == QUOTE;
    OneTag(QUOTED, ONE);
    TagChangesTheCheck(QUOTED, ONE, variables);
  }

  // The name `a\"`, as which `a"` stands in a selector.
  const ESCAPED: Text := [0x61, BACKSLASH, QUOTE]

  /** A second name, with a backslash, can happen to have the right value: there the names' texts do not decide. */
  lemma BackslashNameCanAgree()
    ensures
      var t, bindings := TagOf(QUOTED), [Binding(QUOTED, [QUOTE]), Binding(ESCAPED, [BACKSLASH, QUOTE])];
      && Substitute(EscapedTextSelector(t), bindings) == EscapedTextSelector(Substitute(t, bindings))
      && !KeepsSelector(t, bindings) && !NoBackslashUsed(t, bindings)
  {
    var t, bindings := TagOf(QUOTED), [Binding(QUOTED, [QUOTE]), Binding(ESCAPED, [BACKSLASH, QUOTE])];
    SelectorOfTwo(t, bindings);
    SelectorOfSubstituted(t, bindings);
    PartsAreTag(QUOTED, []);
    assert TagOf(QUOTED) == [LESS] + QUOTED + [GREATER] + [];
    assert t[1..|t| - 1] == QUOTED && t[..|t|] == t && t[|t|..] == [];
    assert SubstituteUnquoted(t, bindings) == t + [] == t;
    assert [QUOTE] != t;
    hide EscapeSelector, Substitute, SubstituteUnquoted;
    SameInside(Ascii("text=") + [QUOTE], [BACKSLASH, QUOTE], [BACKSLASH, QUOTE]);
  }

  lemma SelectorOfTwo(t: Text, bindings: seq<Binding>)
    requires t == TagOf(QUOTED)
    requires bindings == [Binding(QUOTED, [QUOTE]), Binding(ESCAPED, [BACKSLASH, QUOTE])]
    ensures EscapeSelector(QUOTED) == ESCAPED && QUOTED in Names(bindings) && ESCAPED in Names(bindings)
    ensures Substitute(t, bindings) == [QUOTE] && EscapeSelector([QUOTE]) == [BACKSLASH, QUOTE]
    ensures Substitute(EscapeSelector(t), bindings) == [BACKSLASH, QUOTE]
  {
    assert Names(bindings) == [QUOTED, ESCAPED] && Names(bindings)[0] == QUOTED && Names(bindings)[1] == ESCAPED;
    assert QUOTED[1] != ESCAPED[1];
    assert bindings[..1] == [Binding(QUOTED, [QUOTE])];
    assert ValueOf(bindings, QUOTED) == [QUOTE] && ValueOf(bindings, ESCAPED) == [BACKSLASH, QUOTE];
    assert QUOTED[1..] == [QUOTE] && [QUOTE][1..] == [];
    assert EscapeSelector([QUOTE]) == [BACKSLASH, QUOTE];
    assert EscapeSelector(QUOTED) == ESCAPED;
    PartsAreTag(QUOTED, []);
    assert t == [LESS] + QUOTED + [GREATER] + [];
    EscapedTag(t, |t|);
    assert t[1..|t| - 1] == QUOTED && t[|t|..] == [];
    assert EscapeSelector(t) == [LESS] + ESCAPED + [GREATER] + [];
    hide EscapeSelector;
    SubstituteTag(QUOTED, [], bindings);
    SubstituteTag(ESCAPED, [], bindings);
  }

  /** `<a">` with a value that asserts just its selector to be visible: what is replayed is what is asked. */
  lemma QuotedNameCanSpellItsSelector(variables: Variables)
    requires AreReplayVariables(variables)
    ensures
      var value := WordOf(Visible) + EscapedTextSelector(TagOf(QUOTED));
      var bindings := [Binding(QUOTED, value)];
      var template, runtime := MobileStep(Outcome, TagOf(QUOTED)), MobileStep(Outcome, value);
      var operation := OperationFor(template, runtime, Names(bindings), variables);
      && runtime.text == Substitute(template.text, bindings) && !KeepsArguments(template, runtime, bindings)
      && Replays(OperationLine(operation), Asked(runtime), bindings, variables)
  {
    var t := TagOf(QUOTED);
    var value := WordOf(Visible) + EscapedTextSelector(t);
    var bindings := [Binding(QUOTED, value)];
    assert QUOTED[1] == QUOTE;
    NoWord(t, PREDICATES);
    NoDollarIsLiteral(t);
    hide Replays, OperationFor, OperationLine, Substitute, SubstituteUnquoted, UsedSpecials, AssertionOf, Asked,
      NoBackslashUsed, IsLiteral, EscapedTextSelector, TagOf, WordOf;
    OneTag(QUOTED, value);
    SpelledSelector(t, value);
    SelectorKeepsTag(value);
    LineReplaysExactlyWhen(MobileStep(Outcome, t), MobileStep(Outcome, value), bindings, variables);
  }

  lemma SpelledSelector(t: Text, value: Text)
    requires t == TagOf(QUOTED) && value == WordOf(Visible) + EscapedTextSelector(t)
    ensures AssertionOf(value) == Some(Assertion(Visible, EscapedTextSelector(t))) && value != t
  {
    assert value[0] == Name(Visible)[0] as nat;
    SelectorIsBody();
    EveryPredicate(Visible);
    hide BodyOf, WordOf, EscapedTextSelector;
    WordDecides(Visible, EscapedTextSelector(t), PREDICATES);
  }

  lemma SelectorKeepsTag(value: Text)
    ensures Substitute(EscapedTextSelector(TagOf(QUOTED)), [Binding(QUOTED, value)])
         == EscapedTextSelector(TagOf(QUOTED))
  {
    var t, bindings := TagOf(QUOTED), [Binding(QUOTED, value)];
    OneTag(QUOTED, value);
    SelectorOfSubstituted(t, bindings);
    assert QUOTED[1] == QUOTE;
    TagInSelector(t, |t|, bindings);
    assert t[..|t|] == t && t[|t|..] == [];
    assert EscapeSelector(t) + [] == EscapeSelector(t);
    hide EscapeSelector;
    var start, e := Ascii("text=") + [QUOTE], EscapeSelector(t);
    hide Ascii;
    assert start + (e + [QUOTE]) == start + e + [QUOTE];
  }

  lemma SelectorIsBody()
    ensures
      var selector := EscapedTextSelector(TagOf(QUOTED));
      BodyOf(selector) == Some(selector)
  {
    var t := TagOf(QUOTED);
    EscapedTag(t, |t|) by {
      PartsAreTag(QUOTED, []);
      assert t == [LESS] + QUOTED + [GREATER] + [];
    }
    assert t[1..|t| - 1] == QUOTED && QUOTED[1..] == [QUOTE] && [QUOTE][1..] == [];
    assert EscapeSelector(QUOTED) == ESCAPED;
    WholeBody(EscapedTextSelector(t));
  }

  lemma WordSubstitutes(what: Predicate, body: Text, bindings: seq<Binding>)
    ensures Substitute(WordOf(what) + body, bindings) == WordOf(what) + Substitute(body, bindings)
  {
    WordHasNoTag(what);
    SubstituteAfterPlain(WordOf(what), body, bindings);
  }

  lemma EveryPredicate(what: Predicate)
    ensures what in PREDICATES
  {
    assert PREDICATES[0] == TextIs && PREDICATES[1] == Visible && PREDICATES[2] == Hidden && PREDICATES[3] == Exists;
    assert PREDICATES[4] == Editable && PREDICATES[5] == Selected && PREDICATES[6] == Focused;
  }

  lemma KeepsBodies(what: Predicate, body: Text, text: Text, bindings: seq<Binding>)
    requires BodyOf(body) == Some(body) && BodyOf(text).Some?
    ensures KeepsArguments(MobileStep(Outcome, WordOf(what) + body), MobileStep(Outcome, WordOf(what) + text), bindings)
         == if what == TextIs && SeparatorIn(body).Some? && SeparatorIn(BodyOf(text).value).Some?
            then SeparatesAlike(body, bindings) else Unspaced(Substitute(body, bindings))
    ensures !HasSelector(MobileStep(Outcome, WordOf(what) + body), MobileStep(Outcome, WordOf(what) + text))
  {
    EveryPredicate(what);
    hide BodyOf, WordOf, SeparatesAlike, SeparatorIn, Unspaced, Substitute;
    WordDecides(what, body, PREDICATES);
    WordDecides(what, text, PREDICATES);
  }

  lemma WholeBody(t: Text)
    requires t != [] && !IsSpace(t[0]) && forall u :: u in t ==> !IsLineEnd(u)
    ensures BodyOf(t) == Some(t)
  {
    assert t[0..] == t;
  }

  lemma SpacedBody(u: nat)
    requires !IsSpace(u)
    ensures BodyOf([0x20, u]) == Some([u])
  {
    var t := [0x20, u];
    var one := t[1..];
    assert one == [u] && SpaceLength(one) == 0 && SpaceLength(t) == 1;
  }

  const SPACED: Text := [0x20, 0x61]

  /** `visible:<x>` with a value that starts with a space: the space is trimmed off the text, not off the value. */
  lemma SpaceChangesTheCheck(variables: Variables)
    requires AreReplayVariables(variables)
    ensures
      var bindings := [Binding(X, SPACED)];
      var template := MobileStep(Outcome, WordOf(Visible) + TAG_X);
      var runtime := MobileStep(Outcome, WordOf(Visible) + SPACED);
      var operation := OperationFor(template, runtime, Names(bindings), variables);
      && runtime.text == Substitute(template.text, bindings)
      && !Replays(OperationLine(operation), Asked(runtime), bindings, variables)
  {
    var template := MobileStep(Outcome, WordOf(Visible) + TAG_X);
    var runtime := MobileStep(Outcome, WordOf(Visible) + SPACED);
    hide WordOf, Substitute, KeepsArguments, HasSelector, Replays, AreReplayVariables, OperationFor,
      OperationLine, Asked;
    SpaceChangesTheArguments();
    WordHasNoDollar(Visible, TAG_X);
    ChangedArguments(template, runtime, [Binding(X, SPACED)], variables);
  }

  lemma WordHasNoDollar(what: Predicate, body: Text)
    requires DOLLAR !in body
    ensures DOLLAR !in WordOf(what) + body
  {
  }

  lemma ChangedArguments(template: MobileStep, runtime: MobileStep, bindings: seq<Binding>, variables: Variables)
    requires AreReplayVariables(variables) && template.kind.Outcome? && DOLLAR !in template.text
    requires runtime == MobileStep(template.kind, Substitute(template.text, bindings))
    requires !HasSelector(template, runtime) && !KeepsArguments(template, runtime, bindings)
    ensures
      var operation := OperationFor(template, runtime, Names(bindings), variables);
      !Replays(OperationLine(operation), Asked(runtime), bindings, variables)
  {
    NoDollarIsLiteral(template.text);
    LineReplaysExactlyWhen(template, runtime, bindings, variables);
    hide Replays, OperationFor, OperationLine, KeepsArguments, Asked, IsLiteral, Substitute, AssertionOf;
  }

  lemma SpaceChangesTheArguments()
    ensures
      var bindings := [Binding(X, SPACED)];
      var template := MobileStep(Outcome, WordOf(Visible) + TAG_X);
      var runtime := MobileStep(Outcome, WordOf(Visible) + SPACED);
      && runtime.text == Substitute(template.text, bindings) && !HasSelector(template, runtime)
      && !KeepsArguments(template, runtime, bindings)
  {
    var bindings := [Binding(X, SPACED)];
    SubstituteTagX([], SPACED);
    assert TAG_X + [] == TAG_X && SPACED + [] == SPACED;
    WordSubstitutes(Visible, TAG_X, bindings);
    WholeBody(TAG_X);
    SpacedBody(0x61);
    assert SPACED[0] == 0x20 && !Unspaced(SPACED);
    hide BodyOf, WordOf, Substitute, KeepsArguments, HasSelector;
    KeepsBodies(Visible, TAG_X, SPACED, bindings);
  }

  const SEPARATED: Text := [0x61] + EQUALS + [0x61]
  const EQUALS_B: Text := EQUALS + [0x62]

  /** `text:<x> = b` with the value `a = a`: the text is split at the separator in the value. */
  lemma SeparatorChangesTheCheck(variables: Variables)
    requires AreReplayVariables(variables)
    ensures
      var bindings := [Binding(X, SEPARATED)];
      var template := MobileStep(Outcome, WordOf(TextIs) + (TAG_X + EQUALS_B));
      var runtime := MobileStep(Outcome, WordOf(TextIs) + (SEPARATED + EQUALS_B));
      var operation := OperationFor(template, runtime, Names(bindings), variables);
      && runtime.text == Substitute(template.text, bindings)
      && !Replays(OperationLine(operation), Asked(runtime), bindings, variables)
  {
    var template := MobileStep(Outcome, WordOf(TextIs) + (TAG_X + EQUALS_B));
    var runtime := MobileStep(Outcome, WordOf(TextIs) + (SEPARATED + EQUALS_B));
    hide WordOf, Substitute, KeepsArguments, HasSelector, Replays, AreReplayVariables, OperationFor,
      OperationLine, Asked;
    SeparatorChangesTheArguments();
    WordHasNoDollar(TextIs, TAG_X + EQUALS_B);
    ChangedArguments(template, runtime, [Binding(X, SEPARATED)], variables);
  }

  lemma SeparatorChangesTheArguments()
    ensures
      var bindings := [Binding(X, SEPARATED)];
      var template := MobileStep(Outcome, WordOf(TextIs) + (TAG_X + EQUALS_B));
      var runtime := MobileStep(Outcome, WordOf(TextIs) + (SEPARATED + EQUALS_B));
      && runtime.text == Substitute(template.text, bindings) && !HasSelector(template, runtime)
      && !KeepsArguments(template, runtime, bindings)
  {
    var bindings, body, text := [Binding(X, SEPARATED)], TAG_X + EQUALS_B, SEPARATED + EQUALS_B;
    hide BodyOf, WordOf, Substitute, KeepsArguments, HasSelector, SeparatorIn, SeparatesAlike;
    SubstituteTagX(EQUALS_B, SEPARATED);
    WordSubstitutes(TextIs, body, bindings);
    BothAreBodies(body, text);
    FirstSeparators(body, text);
    SeparatesDifferently(body, bindings);
    KeepsBodies(TextIs, body, text, bindings);
  }

  lemma BothAreBodies(body: Text, text: Text)
    requires body == TAG_X + EQUALS_B && text == SEPARATED + EQUALS_B
    ensures BodyOf(body) == Some(body) && BodyOf(text) == Some(text)
  {
    hide BodyOf;
    WholeBody(body);
    WholeBody(text);
  }

  lemma FirstSeparators(body: Text, text: Text)
    requires body == TAG_X + EQUALS_B && text == SEPARATED + EQUALS_B
    ensures SeparatorIn(body) == Some(3) && SeparatorIn(text) == Some(1)
  {
    SeparatorAfterTag();
    FirstSeparator(TAG_X, [0x62]);
    SeparatorAfterOne(0x61);
    FirstSeparator([0x61], [0x61] + EQUALS_B);
    hide SeparatorIn;
    Regroup(TAG_X, EQUALS, [0x62]);
    Regroup([0x61] + EQUALS, [0x61], EQUALS_B);
  }

  lemma SeparatesDifferently(body: Text, bindings: seq<Binding>)
    requires body == TAG_X + EQUALS_B && bindings == [Binding(X, SEPARATED)] && SeparatorIn(body) == Some(3)
    ensures !SeparatesAlike(body, bindings)
  {
    hide Substitute, Unspaced, SeparatorIn;
    SubstituteTagX([], SEPARATED);
    SeparatorAfterOne(0x61);
    FirstSeparator([0x61], [0x61] + EQUALS);
    Regroup([0x61] + EQUALS, [0x61], EQUALS);
    assert body[..3] == TAG_X && |SEPARATED| == 5;
    assert TAG_X + [] == TAG_X && SEPARATED + [] == SEPARATED;
  }

  lemma SeparatorAfterOne(u: nat)
    requires u != 0x20
    ensures SeparatorIn([u] + EQUALS) == Some(1)
  {
    var t := [u] + EQUALS;
    assert t[1..] == EQUALS && EQUALS[..3] == EQUALS && t[..3][0] == u;
  }

  lemma SeparatorAfterTag()
    ensures SeparatorIn(TAG_X + EQUALS) == Some(3)
  {
    var t := TAG_X + EQUALS;
    var t1, t2 := t[1..], t[2..];
    SeparatorAfterOne(GREATER);
    assert t2 == [GREATER] + EQUALS && t1[1..] == t2;
    assert t[..3][0] == LESS && t1[..3][0] == 0x78;
  }
}
