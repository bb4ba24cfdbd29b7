/**
 The variables of a compiled script (packages/mobile/src/agent-device/mobile-ad-script.ts) and
 those the cache finds in it (packages/mobile/src/execution-cache/mobile-execution-cache.ts).
 */
module MobileVariables {
  import opened Wrappers
  import opened JsonText
  import opened MobileScript
  import opened MobileExecutionCache

  /** Distinct names have distinct replay variables, all of the form the cache accepts. */
  ghost predicate AreReplayVariables(variables: Variables) {
    && (forall name :: Replayable(variables(name)))
    && (forall x, y :: variables(x) == variables(y) ==> x == y)
  }

  // ---------------------------------------------------------------- lists as sets

  ghost predicate NoneTwice(ts: seq<Text>) {
    forall i, j :: 0 <= i < j < |ts| ==> ts[i] != ts[j]
  }

  lemma {:induction false} DistinctIsSet(ts: seq<Text>)
    ensures NoneTwice(Distinct(ts)) && forall t :: t in Distinct(ts) <==> t in ts
    ensures |Distinct(ts)| <= |ts| && (Unique(ts) <==> NoneTwice(ts))
  {
    if ts != [] {
      var before, last := ts[..|ts| - 1], ts[|ts| - 1];
      DistinctIsSet(before);
      assert ts == before + [last];
      if NoneTwice(ts) {
        assert last !in before;
      }
    }
  }

  lemma {:induction false} SizeOfList(ts: seq<Text>)
    requires NoneTwice(ts)
    ensures |set t | t in ts| == |ts|
  {
    if ts == [] {
      assert (set t | t in ts) == {};
    } else {
      var before, last := ts[..|ts| - 1], ts[|ts| - 1];
      SizeOfList(before);
      assert ts == before + [last];
      assert (set t | t in ts) == (set t | t in before) + {last};
    }
  }

  lemma SameSize(xs: seq<Text>, ys: seq<Text>)
    requires NoneTwice(xs) && NoneTwice(ys) && forall t :: t in xs <==> t in ys
    ensures |xs| == |ys|
  {
    SizeOfList(xs);
    SizeOfList(ys);
    assert (set t | t in xs) == (set t | t in ys);
  }

  // ---------------------------------------------------------------- placeholders in a text

  lemma {:induction false} ContainsLater(t: Text, k: nat, part: Text)
    requires k <= |t| && Contains(t[k..], part)
    ensures Contains(t, part)
  {
    if k > 0 {
      assert t[1..][k - 1..] == t[k..];
      ContainsLater(t[1..], k - 1, part);
    }
  }

  ghost function PositionOf(t: Text, part: Text): (i: nat)
    requires Contains(t, part)
    ensures i + |part| <= |t| && t[i..i + |part|] == part
  {
    if StartsWith(t, part) then 0 else PositionOf(t[1..], part) + 1
  }

  lemma {:induction false} ContainsAt(t: Text, i: nat, part: Text)
    requires i + |part| <= |t| && t[i..i + |part|] == part
    ensures Contains(t, part)
  {
    assert t[i..][..|part|] == part;
    ContainsLater(t, i, part);
  }

  lemma {:induction false} FoundIsContained(t: Text, v: Text)
    requires v in Placeholders(t)
    ensures Contains(t, Placeholder(v)) && v != [] && CLOSE_BRACE !in v
  {
    match PlaceholderLength(t)
    case None => FoundIsContained(t[1..], v);
    case Some(n) =>
      if v == t[2..n - 1] {
        ContainsAt(t, 0, Placeholder(v));
      } else {
        FoundIsContained(t[n..], v);
        ContainsLater(t, n, Placeholder(v));
      }
  }

  lemma StartIsPlaceholder(t: Text, v: Text)
    requires StartsWith(t, Placeholder(v)) && v != [] && CLOSE_BRACE !in v
    ensures PlaceholderLength(t) == Some(|v| + 3) && t[2..|v| + 2] == v
  {
    var p := Placeholder(v);
    assert forall i :: 0 <= i < |p| ==> t[i] == p[i];
    assert t[2..][|v|] == CLOSE_BRACE;
    assert forall i :: 0 <= i < |v| ==> t[2..][i] == v[i];
  }

  lemma NoDollarInMatch(t: Text, n: nat, i: nat)
    requires PlaceholderLength(t) == Some(n) && DOLLAR !in t[2..n - 1] && 0 < i < |t| && t[i] == DOLLAR
    ensures i >= n
  {
    var name := t[2..n - 1];
    assert t[1] == t[..n][1] == OPEN_BRACE && t[n - 1] == t[..n][n - 1] == CLOSE_BRACE;
    assert forall j :: 2 <= j < n - 1 ==> t[j] == name[j - 2] && name[j - 2] in name;
  }

  lemma StillContained(t: Text, k: nat, i: nat, part: Text)
    requires k <= i && i + |part| <= |t| && t[i..i + |part|] == part
    ensures Contains(t[k..], part)
  {
    assert t[k..][i - k..i - k + |part|] == part;
    ContainsAt(t[k..], i - k, part);
  }

  /** A placeholder in the text is found unless an earlier match runs over it. */
  lemma {:induction false} ContainedIsFound(t: Text, v: Text)
    requires Contains(t, Placeholder(v)) && v != [] && CLOSE_BRACE !in v
    requires forall w :: w in Placeholders(t) ==> DOLLAR !in w
    ensures v in Placeholders(t)
  {
    var p := Placeholder(v);
    var i := PositionOf(t, p);
    if i == 0 {
      StartIsPlaceholder(t, v);
    } else {
      assert t[i] == DOLLAR by {
        assert t[i] == t[i..i + |p|][0];
      }
      var k := if PlaceholderLength(t).Some? then PlaceholderLength(t).value else 1;
      if PlaceholderLength(t).Some? {
        assert t[2..k - 1] in Placeholders(t);
        NoDollarInMatch(t, k, i);
      }
      assert forall w :: w in Placeholders(t[k..]) ==> w in Placeholders(t);
      hide Contains, PlaceholderLength, Placeholder;
      StillContained(t, k, i, p);
      ContainedIsFound(t[k..], v);
    }
  }

  lemma ReplayableIsPlain(v: Text)
    requires Replayable(v)
    ensures v != [] && forall u :: u in v ==> IsPlain(u)
    ensures DOLLAR !in v && CLOSE_BRACE !in v
  {
  }

  /** Written as it is within a JSON string, and no part of a placeholder's brackets. */
  predicate IsPlain(u: nat) {
    IsUpper(u) || IsDigit(u) || u == 0x5F
  }

  // ---------------------------------------------------------------- required variables

  lemma {:induction false} UsedAreContained(script: Text, names: seq<Text>, variables: Variables, name: Text)
    ensures name in UsedVariableNames(script, names, variables)
       <==> name in names && Contains(script, Placeholder(variables(name)))
  {
    if names != [] {
      UsedAreContained(script, names[1..], variables, name);
      assert names == [names[0]] + names[1..];
    }
  }

  function Mapped(names: seq<Text>, variables: Variables): seq<Text> {
    seq(|names|, i requires 0 <= i < |names| => variables(names[i]))
  }

  lemma FoundAreUsed(script: Text, names: seq<Text>, variables: Variables, v: Text)
    requires v in Placeholders(script) && Stands(v, names, variables)
    ensures Stands(v, UsedVariableNames(script, names, variables), variables)
  {
    var name :| name in names && v == variables(name);
    FoundIsContained(script, v);
    UsedAreContained(script, names, variables, name);
  }

  lemma UsedAreFound(script: Text, names: seq<Text>, variables: Variables, name: Text)
    requires AreReplayVariables(variables) && name in UsedVariableNames(script, names, variables)
    requires forall v :: v in Placeholders(script) ==> Stands(v, names, variables)
    ensures variables(name) in Placeholders(script)
  {
    UsedAreContained(script, names, variables, name);
    ReplayableIsPlain(variables(name));
    forall v | v in Placeholders(script) ensures DOLLAR !in v {
      assert Stands(v, names, variables);
      ReplayableIsPlain(v);
    }
    ContainedIsFound(script, variables(name));
  }

  lemma SameNumber(script: Text, names: seq<Text>, variables: Variables)
    requires AreReplayVariables(variables) && NoneTwice(UsedVariableNames(script, names, variables))
    requires forall v :: v in Placeholders(script) ==> Stands(v, names, variables)
    ensures |Distinct(Placeholders(script))| == |UsedVariableNames(script, names, variables)|
  {
    var used, found := UsedVariableNames(script, names, variables), Placeholders(script);
    var mapped := Mapped(used, variables);
    DistinctIsSet(found);
    forall i, j | 0 <= i < j < |mapped| ensures mapped[i] != mapped[j] {
      assert used[i] != used[j];
    }
    forall v ensures v in mapped <==> v in Distinct(found) {
      if v in found {
        FoundAreUsed(script, names, variables, v);
        var name :| name in used && v == variables(name);
        var i :| 0 <= i < |used| && used[i] == name;
        assert mapped[i] == v;
      }
      if v in mapped {
        var i :| 0 <= i < |used| && mapped[i] == v;
        UsedAreFound(script, names, variables, used[i]);
      }
    }
    SameSize(mapped, Distinct(found));
  }

  ghost predicate AcceptableNames(names: seq<Text>) {
    NoneTwice(names) && forall name :: name in names ==> IsVariableName(name) && !IsReserved(name)
  }

  /** Every placeholder in the text is that of one of the names. */
  ghost predicate OnlyPlaceholdersOf(t: Text, names: seq<Text>, variables: Variables) {
    forall v :: v in Placeholders(t) ==> Stands(v, names, variables)
  }

  /** The variables are exact just when their names are acceptable and the script has no placeholder of its own. */
  lemma ExactVariablesWhen(script: Text, names: seq<Text>, variables: Variables)
    requires AreReplayVariables(variables)
    ensures
      var used := UsedVariableNames(script, names, variables);
      HasExactVariables(script, used, variables)
      <==> AcceptableNames(used) && OnlyPlaceholdersOf(script, names, variables)
  {
    var used, found := UsedVariableNames(script, names, variables), Placeholders(script);
    DistinctIsSet(used);
    DistinctIsSet(found);
    if HasExactVariables(script, used, variables) {
      forall v | v in found ensures Stands(v, names, variables) {
        assert v in Distinct(found) && Stands(v, used, variables);
        var name :| name in used && v == variables(name);
        UsedAreContained(script, names, variables, name);
      }
    }
    if AcceptableNames(used) && OnlyPlaceholdersOf(script, names, variables) {
      SameNumber(script, names, variables);
      forall v | v in Distinct(found) ensures Replayable(v) && Stands(v, used, variables) {
        FoundAreUsed(script, names, variables, v);
      }
    }
  }

  lemma SameSizeSameTexts(xs: seq<Text>, ys: seq<Text>, t: Text)
    requires NoneTwice(xs) && NoneTwice(ys) && |xs| == |ys| && (forall x :: x in xs ==> x in ys) && t in ys
    ensures t in xs
  {
    var small, large := set x | x in xs, set y | y in ys;
    SizeOfList(xs);
    SizeOfList(ys);
    if t !in xs {
      Subset(small, large - {t});
    }
  }

  lemma Subset(small: set<Text>, large: set<Text>)
    requires small <= large
    ensures |small| <= |large|
  {
    assert large == small + (large - small);
  }

  lemma MappedNoneTwice(names: seq<Text>, variables: Variables)
    requires AreReplayVariables(variables) && NoneTwice(names)
    ensures NoneTwice(Mapped(names, variables))
  {
    forall i, j | 0 <= i < j < |names| ensures Mapped(names, variables)[i] != Mapped(names, variables)[j] {
      assert names[i] != names[j];
    }
  }

  /** Exact variables: the script's placeholders are those of the required names, all of them and no others. */
  lemma ExactVariablesAreAll(script: Text, required: seq<Text>, variables: Variables, v: Text)
    requires AreReplayVariables(variables) && HasExactVariables(script, required, variables)
    ensures v in Placeholders(script) <==> Stands(v, required, variables)
  {
    var found, mapped := Distinct(Placeholders(script)), Mapped(required, variables);
    DistinctIsSet(Placeholders(script));
    DistinctIsSet(required);
    MappedNoneTwice(required, variables);
    forall w | w in found ensures w in mapped {
      var name :| name in required && w == variables(name);
      var i :| 0 <= i < |required| && required[i] == name;
      assert mapped[i] == w;
    }
    if Stands(v, required, variables) {
      var name :| name in required && v == variables(name);
      var i :| 0 <= i < |required| && required[i] == name;
      assert mapped[i] == v;
      SameSizeSameTexts(found, mapped, v);
    }
  }

  // ---------------------------------------------------------------- texts without a placeholder of their own

  predicate Opens(t: Text) {
    |t| >= 2 && t[0] == DOLLAR && t[1] == OPEN_BRACE
  }

  /** No `${` in the text. */
  predicate IsLiteral(t: Text) {
    t == [] || (!Opens(t) && IsLiteral(t[1..]))
  }

  /** Wherever `${` stands in the text, a placeholder of one of the names does. */
  ghost predicate WellPlaced(t: Text, names: seq<Text>, variables: Variables) {
    t == [] || (StartsWell(t, names, variables) && WellPlaced(t[1..], names, variables))
  }

  ghost predicate StartsWell(t: Text, names: seq<Text>, variables: Variables) {
    Opens(t) ==> exists name :: name in names && StartsWith(t, Placeholder(variables(name)))
  }

  lemma {:induction false} WellPlacedLater(t: Text, k: nat, names: seq<Text>, variables: Variables)
    requires WellPlaced(t, names, variables) && k <= |t|
    ensures WellPlaced(t[k..], names, variables)
  {
    if k > 0 {
      WellPlacedLater(t[1..], k - 1, names, variables);
      assert t[1..][k - 1..] == t[k..];
    }
  }

  lemma {:induction false} WellPlacedOnlyNames(t: Text, names: seq<Text>, variables: Variables)
    requires AreReplayVariables(variables) && WellPlaced(t, names, variables)
    ensures OnlyPlaceholdersOf(t, names, variables)
  {
    if t != [] {
      match PlaceholderLength(t)
      case None => WellPlacedOnlyNames(t[1..], names, variables);
      case Some(n) =>
        WellPlacedLater(t, n, names, variables);
        WellPlacedOnlyNames(t[n..], names, variables);
        assert t[..n] == Placeholder(t[2..n - 1]);
        assert Opens(t) && StartsWell(t, names, variables);
        var name :| name in names && StartsWith(t, Placeholder(variables(name)));
        ReplayableIsPlain(variables(name));
        StartIsPlaceholder(t, variables(name));
    }
  }

  lemma {:induction false} LiteralIsWellPlaced(t: Text, names: seq<Text>, variables: Variables)
    requires IsLiteral(t)
    ensures WellPlaced(t, names, variables)
  {
    if t != [] {
      LiteralIsWellPlaced(t[1..], names, variables);
    }
  }

  lemma {:induction false} NoDollarIsLiteral(t: Text)
    requires DOLLAR !in t
    ensures IsLiteral(t)
  {
    if t != [] {
      assert t[0] in t && forall u :: u in t[1..] ==> u in t;
      NoDollarIsLiteral(t[1..]);
    }
  }

  lemma {:induction false} LiteralPart(t: Text, i: nat, j: nat)
    requires IsLiteral(t) && i <= j <= |t|
    ensures IsLiteral(t[i..j])
    decreases |t|
  {
    if i > 0 {
      LiteralPart(t[1..], i - 1, j - 1);
      assert t[1..][i - 1..j - 1] == t[i..j];
    } else if j > 0 {
      LiteralPart(t[1..], 0, j - 1);
      assert t[0..j][1..] == t[1..][0..j - 1];
    }
  }

  /** No `${` arises where the two texts meet. */
  predicate MeetWell(s: Text, t: Text) {
    s == [] || t == [] || s[|s| - 1] != DOLLAR || t[0] != OPEN_BRACE
  }

  lemma {:induction false} WellPlacedSum(s: Text, t: Text, names: seq<Text>, variables: Variables)
    requires WellPlaced(s, names, variables) && WellPlaced(t, names, variables) && MeetWell(s, t)
    ensures WellPlaced(s + t, names, variables)
  {
    if s == [] {
      assert s + t == t;
    } else {
      WellPlacedSum(s[1..], t, names, variables);
      assert (s + t)[1..] == s[1..] + t;
      if Opens(s + t) {
        assert |s| > 1;
        var name :| name in names && StartsWith(s, Placeholder(variables(name)));
        var p := Placeholder(variables(name));
        assert (s + t)[..|p|] == s[..|p|];
      }
    }
  }

  lemma {:induction false} NoDollarIsWellPlaced(t: Text, names: seq<Text>, variables: Variables)
    requires DOLLAR !in t
    ensures WellPlaced(t, names, variables)
  {
    if t != [] {
      assert t[0] in t;
      NoDollarIsWellPlaced(t[1..], names, variables);
    }
  }

  /** A placeholder before a well placed text. */
  lemma PlaceholderFirst(name: Text, t: Text, names: seq<Text>, variables: Variables)
    requires AreReplayVariables(variables) && name in names && WellPlaced(t, names, variables)
    ensures WellPlaced(Placeholder(variables(name)) + t, names, variables)
  {
    var p := Placeholder(variables(name));
    var all, rest := p + t, p[1..];
    ReplayableIsPlain(variables(name));
    assert DOLLAR !in rest && rest[|rest| - 1] == CLOSE_BRACE;
    NoDollarIsWellPlaced(rest, names, variables);
    WellPlacedSum(rest, t, names, variables);
    assert all[1..] == rest + t && all[..|p|] == p;
  }

  /** What a replaced text starts with. */
  lemma FirstReplaced(t: Text, names: seq<Text>, variables: Variables)
    requires t != []
    ensures
      var replaced := ReplaceVariables(t, names, variables);
      && replaced != []
      && (t[0] != LESS ==> replaced[0] == t[0])
      && (t[0] == LESS ==> replaced[0] == LESS || replaced[0] == DOLLAR)
  {
  }

  lemma OneIsWellPlaced(u: nat, names: seq<Text>, variables: Variables)
    ensures WellPlaced([u], names, variables)
  {
    assert [u][1..] == [];
  }

  lemma {:induction false} SelectorIsLiteral(t: Text)
    requires IsLiteral(t)
    ensures IsLiteral(EscapeSelector(t) + [QUOTE])
    ensures EscapeSelector(t) != [] && EscapeSelector(t)[0] == OPEN_BRACE ==> t != [] && t[0] == OPEN_BRACE
  {
    if t == [] {
      assert [] + [QUOTE] == [QUOTE] && [QUOTE][1..] == [];
    } else {
      SelectorIsLiteral(t[1..]);
      var rest, all := EscapeSelector(t[1..]) + [QUOTE], EscapeSelector(t) + [QUOTE];
      if t[0] == QUOTE || t[0] == BACKSLASH {
        assert all == [BACKSLASH, t[0]] + rest;
        assert all[1..] == [t[0]] + rest && all[1..][1..] == rest;
        assert IsLiteral(all[1..]);
      } else {
        assert all == [t[0]] + rest && all[1..] == rest;
      }
    }
  }

  lemma EscapedSelectorIsLiteral(t: Text)
    requires IsLiteral(t)
    ensures IsLiteral(EscapedTextSelector(t))
  {
    SelectorIsLiteral(t);
    var start := Ascii("text=") + [QUOTE];
    assert EscapedTextSelector(t) == start + (EscapeSelector(t) + [QUOTE]);
    PlainStart(start, EscapeSelector(t) + [QUOTE]);
  }

  lemma {:induction false} PlainStart(start: Text, t: Text)
    requires DOLLAR !in start && IsLiteral(t)
    ensures IsLiteral(start + t)
  {
    if start == [] {
      assert start + t == t;
    } else {
      assert start[0] in start;
      PlainStart(start[1..], t);
      assert (start + t)[1..] == start[1..] + t;
    }
  }

  // ---------------------------------------------------------------- quoting keeps placeholders in place

  predicate WrittenAsIs(u: nat) {
    u >= 0x20 && u < 0xD800 && u != QUOTE && u != BACKSLASH
  }

  lemma OneIsWritten(u: nat, rest: Text)
    requires WrittenAsIs(u)
    ensures WriteUnits([u] + rest) == [u] + WriteUnits(rest)
  {
    assert ([u] + rest)[1..] == rest;
  }

  ghost predicate AllWrittenAsIs(p: Text) {
    forall u :: u in p ==> WrittenAsIs(u)
  }

  lemma {:induction false} PlainIsWritten(p: Text, rest: Text)
    requires AllWrittenAsIs(p)
    ensures WriteUnits(p + rest) == p + WriteUnits(rest)
  {
    if p == [] {
      NothingBefore(rest);
      NothingBefore(WriteUnits(rest));
    } else {
      var first, others, written := [p[0]], p[1..], WriteUnits(rest);
      assert WrittenAsIs(p[0]) && AllWrittenAsIs(others);
      assert p == first + others;
      hide WriteUnits, AllWrittenAsIs, WrittenAsIs;
      PlainIsWritten(others, rest);
      OneIsWritten(p[0], others + rest);
      Regroup(first, others, rest);
      Regroup(first, others, written);
    }
  }

  lemma NothingBefore(t: Text)
    ensures [] + t == t
  {
  }

  lemma Regroup(x: Text, y: Text, z: Text)
    ensures (x + y) + z == x + (y + z)
  {
  }

  lemma {:induction false} WrittenIsWellPlaced(t: Text, names: seq<Text>, variables: Variables)
    requires AreReplayVariables(variables) && WellPlaced(t, names, variables)
    ensures WellPlaced(WriteUnits(t), names, variables)
    ensures WriteUnits(t) != [] && WriteUnits(t)[0] == OPEN_BRACE ==> t != [] && t[0] == OPEN_BRACE
    decreases |t|
  {
    if t != [] {
      if Opens(t) {
        var name :| name in names && StartsWith(t, Placeholder(variables(name)));
        var p := Placeholder(variables(name));
        ReplayableIsPlain(variables(name));
        assert t == p + t[|p|..];
        PlainIsWritten(p, t[|p|..]);
        WellPlacedLater(t, |p|, names, variables);
        WrittenIsWellPlaced(t[|p|..], names, variables);
        PlaceholderFirst(name, WriteUnits(t[|p|..]), names, variables);
      } else if StartsWithPair(t) {
        WellPlacedLater(t, 2, names, variables);
        WrittenIsWellPlaced(t[2..], names, variables);
        NoDollarIsWellPlaced(t[..2], names, variables);
        WellPlacedSum(t[..2], WriteUnits(t[2..]), names, variables);
      } else {
        WrittenIsWellPlaced(t[1..], names, variables);
        var w, rest := WriteUnit(t[0]), WriteUnits(t[1..]);
        if t[0] == DOLLAR {
          OneIsWellPlaced(DOLLAR, names, variables);
        } else {
          WrittenUnitIsPlain(t[0]);
          NoDollarIsWellPlaced(w, names, variables);
        }
        WellPlacedSum(w, rest, names, variables);
      }
    }
  }

  lemma WrittenUnitIsPlain(u: nat)
    requires u != DOLLAR
    ensures DOLLAR !in WriteUnit(u) && WriteUnit(u) != []
    ensures WriteUnit(u)[0] == OPEN_BRACE ==> u == OPEN_BRACE
  {
  }

  /** What replacing makes of a tag at the start of a text. */
  lemma TagIsReplaced(t: Text, n: nat, names: seq<Text>, variables: Variables)
    requires TagLength(t) == Some(n)
    ensures 3 <= n <= |t| && t[n - 1] == GREATER
    ensures ReplaceVariables(t, names, variables)
         == (if t[1..n - 1] in names then Placeholder(variables(t[1..n - 1])) else t[..n])
            + ReplaceVariables(t[n..], names, variables)
  {
  }
}
