/**
 The line diff of packages/spec/src/authoring/source-diff.ts: a table of longest common
 subsequences of suffixes, and a walk that prints the lines to remove and to add.
 */
module SourceDiff {

  type Line = string

  // ---------------------------------------------------------------- lines

  predicate Includes(s: string, part: string) {
    part <= s || (s != [] && Includes(s[1..], part))
  }

  predicate StandsAt(s: string, part: string, i: nat) {
    i + |part| <= |s| && s[i..i + |part|] == part
  }

  lemma StandsLater(s: string, part: string, i: nat)
    requires s != []
    ensures StandsAt(s, part, i + 1) <==> StandsAt(s[1..], part, i)
  {
    if i + 1 + |part| <= |s| {
      assert s[i + 1..i + 1 + |part|] == s[1..][i..i + |part|];
    }
  }

  lemma {:induction false} IncludesExactlyWhen(s: string, part: string)
    ensures Includes(s, part) <==> exists i: nat :: StandsAt(s, part, i)
    decreases |s|
  {
    assert part <= s <==> StandsAt(s, part, 0);
    assert s == [] ==> forall i: nat :: StandsAt(s, part, i) ==> i == 0;
    hide StandsAt;
    if s != [] {
      IncludesExactlyWhen(s[1..], part);
      if i: nat :| StandsAt(s, part, i) && i > 0 {
        StandsLater(s, part, i - 1);
      }
      if i: nat :| StandsAt(s[1..], part, i) {
        StandsLater(s, part, i);
      }
    }
  }

  /** String.split for a separator that is not empty; `current` is the line so far. */
  function SplitFrom(s: string, separator: string, current: string): (lines: seq<Line>)
    requires separator != []
    ensures lines != []
  {
    if s == [] then [current]
    else if separator <= s then [current] + SplitFrom(s[|separator|..], separator, [])
    else SplitFrom(s[1..], separator, current + [s[0]])
  }

  function NewlineOf(source: string): string {
    if Includes(source, "\r\n") then "\r\n" else "\n"
  }

  function SourceLines(source: string): seq<Line> {
    SplitFrom(source, NewlineOf(source), [])
  }

  function Join(lines: seq<Line>, separator: string): string {
    if lines == [] then []
    else if |lines| == 1 then lines[0]
    else lines[0] + separator + Join(lines[1..], separator)
  }

  lemma JoinStep(first: Line, rest: seq<Line>, separator: string)
    requires rest != []
    ensures Join([first] + rest, separator) == first + separator + Join(rest, separator)
  {
    assert ([first] + rest)[1..] == rest;
  }

  lemma {:induction false} JoinUndoesSplit(s: string, separator: string, current: string)
    requires separator != []
    ensures Join(SplitFrom(s, separator, current), separator) == current + s
    decreases |s|
  {
    if s == [] {
      assert current + s == current;
    } else if separator <= s {
      var tail := s[|separator|..];
      var rest := SplitFrom(tail, separator, []);
      JoinUndoesSplit(tail, separator, []);
      JoinStep(current, rest, separator);
      hide Join, SplitFrom;
      assert [] + tail == tail;
      assert current + separator + tail == current + s;
    } else {
      JoinUndoesSplit(s[1..], separator, current + [s[0]]);
      hide Join;
      assert current + [s[0]] + s[1..] == current + s;
    }
  }

  /** Splitting loses nothing: the lines joined again are the source. */
  lemma LinesJoinToSource(source: string)
    ensures Join(SourceLines(source), NewlineOf(source)) == source
  {
    JoinUndoesSplit(source, NewlineOf(source), []);
    assert [] + source == source;
  }

  // ---------------------------------------------------------------- edit scripts

  datatype Op = Keep(line: Line) | Remove(line: Line) | Add(line: Line)

  /** The lines a script starts from. */
  function FromLines(ops: seq<Op>): seq<Line> {
    if ops == [] then [] else (if ops[0].Add? then [] else [ops[0].line]) + FromLines(ops[1..])
  }

  /** The lines a script leads to. */
  function ToLines(ops: seq<Op>): seq<Line> {
    if ops == [] then [] else (if ops[0].Remove? then [] else [ops[0].line]) + ToLines(ops[1..])
  }

  /** How many lines a script removes and adds. */
  function Cost(ops: seq<Op>): nat {
    if ops == [] then 0 else (if ops[0].Keep? then 0 else 1) + Cost(ops[1..])
  }

  function Keeps(ops: seq<Op>): nat {
    if ops == [] then 0 else (if ops[0].Keep? then 1 else 0) + Keeps(ops[1..])
  }

  function PrintedOp(op: Op): seq<Line> {
    match op
    case Keep(_) => []
    case Remove(line) => ["-" + line]
    case Add(line) => ["+" + line]
  }

  /** What the diff prints of a script: kept lines are skipped. */
  function Printed(ops: seq<Op>): seq<Line> {
    if ops == [] then [] else PrintedOp(ops[0]) + Printed(ops[1..])
  }

  predicate Transforms(ops: seq<Op>, a: seq<Line>, b: seq<Line>) {
    FromLines(ops) == a && ToLines(ops) == b
  }

  // ---------------------------------------------------------------- the table

  function Max(x: nat, y: nat): nat {
    if x >= y then x else y
  }

  /** The entry of the table for the suffixes a and b. */
  function Best(a: seq<Line>, b: seq<Line>): nat
    decreases |a| + |b|
  {
    if a == [] || b == [] then 0
    else if a[0] == b[0] then Best(a[1..], b[1..]) + 1
    else Max(Best(a[1..], b), Best(a, b[1..]))
  }

  /** The entry of the table at a position. */
  function BestFrom(a: seq<Line>, b: seq<Line>, i: nat, j: nat): nat
    requires i <= |a| && j <= |b|
  {
    Best(a[i..], b[j..])
  }

  method LongestCommonSubsequence(a: seq<Line>, b: seq<Line>) returns (matrix: array2<nat>)
    ensures fresh(matrix) && matrix.Length0 == |a| + 1 && matrix.Length1 == |b| + 1
    ensures forall i, j :: 0 <= i <= |a| && 0 <= j <= |b| ==> matrix[i, j] == BestFrom(a, b, i, j)
  {
    NoneAtEnds(a, b);
    hide BestFrom, Best, Max;
    matrix := new nat[|a| + 1, |b| + 1]((_, _) => 0);
    for i := |a| downto 0
      invariant forall k, l :: i <= k <= |a| && 0 <= l <= |b| ==> matrix[k, l] == BestFrom(a, b, k, l)
      invariant forall k :: 0 <= k < i ==> matrix[k, |b|] == 0
    {
      for j := |b| downto 0
        invariant forall k, l :: i < k <= |a| && 0 <= l <= |b| ==> matrix[k, l] == BestFrom(a, b, k, l)
        invariant forall l :: j <= l <= |b| ==> matrix[i, l] == BestFrom(a, b, i, l)
        invariant forall k :: 0 <= k < i ==> matrix[k, |b|] == 0
      {
        BestAt(a, b, i, j);
        matrix[i, j] :=
          if a[i] == b[j] then matrix[i + 1, j + 1] + 1 else Max(matrix[i + 1, j], matrix[i, j + 1]);
      }
    }
  }

  lemma NoneAtEnds(a: seq<Line>, b: seq<Line>)
    ensures forall k :: 0 <= k <= |a| ==> BestFrom(a, b, k, |b|) == 0
    ensures forall l :: 0 <= l <= |b| ==> BestFrom(a, b, |a|, l) == 0
  {
    forall k | 0 <= k <= |a| ensures BestFrom(a, b, k, |b|) == 0 {
      BestOfEmpty(a[k..], b[|b|..]);
    }
    forall l | 0 <= l <= |b| ensures BestFrom(a, b, |a|, l) == 0 {
      BestOfEmpty(a[|a|..], b[l..]);
    }
  }

  lemma BestAt(a: seq<Line>, b: seq<Line>, i: nat, j: nat)
    requires i < |a| && j < |b|
    ensures BestFrom(a, b, i, j)
         == if a[i] == b[j] then BestFrom(a, b, i + 1, j + 1) + 1
            else Max(BestFrom(a, b, i + 1, j), BestFrom(a, b, i, j + 1))
  {
    assert a[i..][1..] == a[i + 1..] && b[j..][1..] == b[j + 1..];
  }

  // ---------------------------------------------------------------- the walk

  /** The script that the walk follows: equal lines are taken at once, then the better suffix decides. */
  function Walk(a: seq<Line>, b: seq<Line>): seq<Op>
    decreases |a| + |b|
  {
    if a != [] && b != [] then
      if a[0] == b[0] then [Keep(a[0])] + Walk(a[1..], b[1..])
      else if Best(a[1..], b) >= Best(a, b[1..]) then [Remove(a[0])] + Walk(a[1..], b)
      else [Add(b[0])] + Walk(a, b[1..])
    else if a != [] then [Remove(a[0])] + Walk(a[1..], b)
    else if b != [] then [Add(b[0])] + Walk(a, b[1..])
    else []
  }

  // What is printed before the changes.
  const HEADER: seq<Line> := ["--- current", "+++ proposed"]

  function Diff(from: string, to: string): string {
    if from == to then ""
    else Join(HEADER + Printed(Walk(SourceLines(from), SourceLines(to))), "\n") + "\n"
  }

  lemma WalkAt(a: seq<Line>, b: seq<Line>, i: nat, j: nat)
    requires i <= |a| && j <= |b|
    ensures Walk(a[i..], b[j..]) ==
      if i < |a| && j < |b| then
        if a[i] == b[j] then [Keep(a[i])] + Walk(a[i + 1..], b[j + 1..])
        else if Best(a[i + 1..], b[j..]) >= Best(a[i..], b[j + 1..]) then [Remove(a[i])] + Walk(a[i + 1..], b[j..])
        else [Add(b[j])] + Walk(a[i..], b[j + 1..])
      else if i < |a| then [Remove(a[i])] + Walk(a[i + 1..], b[j..])
      else if j < |b| then [Add(b[j])] + Walk(a[i..], b[j + 1..])
      else []
  {
    if i < |a| {
      assert a[i..][1..] == a[i + 1..];
    }
    if j < |b| {
      assert b[j..][1..] == b[j + 1..];
    }
  }

  /** What is left to print at a position. */
  function PrintedFrom(a: seq<Line>, b: seq<Line>, i: nat, j: nat): seq<Line>
    requires i <= |a| && j <= |b|
  {
    Printed(Walk(a[i..], b[j..]))
  }

  lemma PrintedAt(a: seq<Line>, b: seq<Line>, i: nat, j: nat)
    requires i <= |a| && j <= |b|
    ensures PrintedFrom(a, b, i, j) ==
      if i < |a| && j < |b| then
        if a[i] == b[j] then PrintedFrom(a, b, i + 1, j + 1)
        else if BestFrom(a, b, i + 1, j) >= BestFrom(a, b, i, j + 1) then ["-" + a[i]] + PrintedFrom(a, b, i + 1, j)
        else ["+" + b[j]] + PrintedFrom(a, b, i, j + 1)
      else if i < |a| then ["-" + a[i]] + PrintedFrom(a, b, i + 1, j)
      else if j < |b| then ["+" + b[j]] + PrintedFrom(a, b, i, j + 1)
      else []
  {
    WalkAt(a, b, i, j);
    var ops := Walk(a[i..], b[j..]);
    hide Walk, Best;
    if ops != [] {
      PrintedFirst(ops[0], ops[1..]);
      assert ops == [ops[0]] + ops[1..];
    }
  }

  lemma PrintedFirst(op: Op, ops: seq<Op>)
    ensures Printed([op] + ops) == PrintedOp(op) + Printed(ops) && [] + Printed(ops) == Printed(ops)
  {
    assert ([op] + ops)[1..] == ops;
  }

  lemma PrintedFromStart(a: seq<Line>, b: seq<Line>)
    ensures PrintedFrom(a, b, 0, 0) == Printed(Walk(a, b))
  {
    assert a[0..] == a && b[0..] == b;
  }

  lemma OneMoreLine(lines: seq<Line>, line: Line, rest: seq<Line>)
    ensures (lines + [line]) + rest == lines + ([line] + rest)
  {
  }

  method SpecificationSourceDiff(from: string, to: string) returns (diff: string)
    ensures diff == Diff(from, to)
  {
    if from == to {
      return "";
    }
    var a, b := SourceLines(from), SourceLines(to);
    var changed := ChangedLines(a, b);
    return Join(HEADER + changed, "\n") + "\n";
  }

  method ChangedLines(a: seq<Line>, b: seq<Line>) returns (lines: seq<Line>)
    ensures lines == Printed(Walk(a, b))
  {
    var matrix := LongestCommonSubsequence(a, b);
    PrintedFromStart(a, b);
    hide Walk, Best, BestFrom, Printed, PrintedFrom;
    lines := [];
    var i, j := 0, 0;
    while i < |a| && j < |b|
      invariant i <= |a| && j <= |b|
      invariant forall k, l :: 0 <= k <= |a| && 0 <= l <= |b| ==> matrix[k, l] == BestFrom(a, b, k, l)
      invariant PrintedFrom(a, b, 0, 0) == lines + PrintedFrom(a, b, i, j)
      decreases |a| - i + |b| - j
    {
      PrintedAt(a, b, i, j);
      if a[i] == b[j] {
        i, j := i + 1, j + 1;
      } else if matrix[i + 1, j] >= matrix[i, j + 1] {
        OneMoreLine(lines, "-" + a[i], PrintedFrom(a, b, i + 1, j));
        lines := lines + ["-" + a[i]];
        i := i + 1;
      } else {
        OneMoreLine(lines, "+" + b[j], PrintedFrom(a, b, i, j + 1));
        lines := lines + ["+" + b[j]];
        j := j + 1;
      }
    }
    while i < |a|
      invariant i <= |a| && j <= |b| && (i < |a| ==> j == |b|)
      invariant PrintedFrom(a, b, 0, 0) == lines + PrintedFrom(a, b, i, j)
    {
      PrintedAt(a, b, i, j);
      OneMoreLine(lines, "-" + a[i], PrintedFrom(a, b, i + 1, j));
      lines := lines + ["-" + a[i]];
      i := i + 1;
    }
    while j < |b|
      invariant j <= |b|
      invariant PrintedFrom(a, b, 0, 0) == lines + PrintedFrom(a, b, |a|, j)
    {
      PrintedAt(a, b, |a|, j);
      OneMoreLine(lines, "+" + b[j], PrintedFrom(a, b, |a|, j + 1));
      lines := lines + ["+" + b[j]];
      j := j + 1;
    }
    PrintedAt(a, b, |a|, |b|);
  }

  // ---------------------------------------------------------------- the diff is correct and minimal

  lemma {:induction false} WalkTransforms(a: seq<Line>, b: seq<Line>)
    ensures Transforms(Walk(a, b), a, b) && Keeps(Walk(a, b)) == Best(a, b)
    decreases |a| + |b|
  {
    if a != [] || b != [] {
      var op := Walk(a, b)[0];
      var a', b' := if op.Add? then a else a[1..], if op.Remove? then b else b[1..];
      WalkFirst(a, b);
      hide Walk, Best;
      WalkTransforms(a', b');
      FirstTransforms(op, Walk(a', b'), a', b');
      assert op.Add? || a == [a[0]] + a[1..];
      assert op.Remove? || b == [b[0]] + b[1..];
    }
  }

  /** The walk's first step, and what it adds to the best match. */
  lemma WalkFirst(a: seq<Line>, b: seq<Line>)
    requires a != [] || b != []
    ensures
      var walk := Walk(a, b);
      && walk != []
      && (if walk[0].Add? then b != [] && walk[0].line == b[0]
          else a != [] && walk[0].line == a[0] && (walk[0].Keep? ==> b != [] && b[0] == a[0]))
      && walk == [walk[0]] + Walk(if walk[0].Add? then a else a[1..], if walk[0].Remove? then b else b[1..])
      && Best(a, b) == (if walk[0].Keep? then 1 else 0)
                       + Best(if walk[0].Add? then a else a[1..], if walk[0].Remove? then b else b[1..])
  {
    var op := Walk(a, b)[0];
    BestOfEmpty(if op.Add? then a else a[1..], if op.Remove? then b else b[1..]);
  }

  lemma FirstTransforms(op: Op, ops: seq<Op>, a: seq<Line>, b: seq<Line>)
    requires Transforms(ops, a, b)
    ensures Transforms([op] + ops, if op.Add? then a else [op.line] + a, if op.Remove? then b else [op.line] + b)
    ensures Keeps([op] + ops) == (if op.Keep? then 1 else 0) + Keeps(ops)
  {
    assert ([op] + ops)[1..] == ops;
    assert [] + a == a && [] + b == b;
  }

  lemma BestOfEmpty(a: seq<Line>, b: seq<Line>)
    ensures a == [] || b == [] ==> Best(a, b) == 0
  {
  }

  lemma {:induction false} CostOfScript(ops: seq<Op>)
    ensures Cost(ops) + 2 * Keeps(ops) == |FromLines(ops)| + |ToLines(ops)|
    ensures |Printed(ops)| == Cost(ops)
  {
    if ops != [] {
      CostOfScript(ops[1..]);
    }
  }

  /** Dropping a first line loses at most one match and gains none. */
  lemma {:induction false} BestOfTails(a: seq<Line>, b: seq<Line>)
    ensures a != [] ==> Best(a[1..], b) <= Best(a, b) <= Best(a[1..], b) + 1
    ensures b != [] ==> Best(a, b[1..]) <= Best(a, b) <= Best(a, b[1..]) + 1
    decreases |a| + |b|
  {
    if a != [] && b != [] {
      BestOfTails(a[1..], b);
      BestOfTails(a, b[1..]);
      BestOfTails(a[1..], b[1..]);
    }
  }

  /** No script keeps more lines than the table says: taking equal lines at once is optimal. */
  lemma {:induction false} KeepsAtMostBest(ops: seq<Op>)
    ensures Keeps(ops) <= Best(FromLines(ops), ToLines(ops))
  {
    if ops != [] {
      KeepsAtMostBest(ops[1..]);
      var a, b := FromLines(ops), ToLines(ops);
      BestOfTails(a, b);
      match ops[0]
      case Keep(line) =>
        assert a[1..] == FromLines(ops[1..]) && b[1..] == ToLines(ops[1..]);
      case Remove(line) =>
        assert a[1..] == FromLines(ops[1..]) && b == ToLines(ops[1..]);
      case Add(line) =>
        assert a == FromLines(ops[1..]) && b[1..] == ToLines(ops[1..]);
    }
  }

  /**
   The walk turns the from-lines into the to-lines, prints n + m - 2 * LCS lines, and no script
   that does the same removes and adds fewer.
   */
  lemma DiffIsMinimal(a: seq<Line>, b: seq<Line>, ops: seq<Op>)
    requires Transforms(ops, a, b)
    ensures Transforms(Walk(a, b), a, b)
    ensures |Printed(Walk(a, b))| == |a| + |b| - 2 * Best(a, b)
    ensures |Printed(Walk(a, b))| <= Cost(ops)
  {
    WalkTransforms(a, b);
    CostOfScript(Walk(a, b));
    CostOfScript(ops);
    KeepsAtMostBest(ops);
  }

  /** The best entry of the table is the length of a longest common subsequence. */
  ghost predicate IsSubsequence(xs: seq<Line>, ys: seq<Line>) {
    if xs == [] then true
    else if ys == [] then false
    else (xs[0] == ys[0] && IsSubsequence(xs[1..], ys[1..])) || IsSubsequence(xs, ys[1..])
  }

  function KeptLines(ops: seq<Op>): seq<Line> {
    if ops == [] then [] else (if ops[0].Keep? then [ops[0].line] else []) + KeptLines(ops[1..])
  }

  lemma {:induction false} KeptIsCommon(ops: seq<Op>)
    ensures |KeptLines(ops)| == Keeps(ops)
    ensures IsSubsequence(KeptLines(ops), FromLines(ops)) && IsSubsequence(KeptLines(ops), ToLines(ops))
  {
    if ops != [] {
      KeptIsCommon(ops[1..]);
      var kept, a, b := KeptLines(ops[1..]), FromLines(ops[1..]), ToLines(ops[1..]);
      var line := ops[0].line;
      assert ([line] + kept)[1..] == kept && ([line] + a)[1..] == a && ([line] + b)[1..] == b;
      assert [] + kept == kept && [] + a == a && [] + b == b;
    }
  }

  lemma {:induction false} CommonAtMostBest(xs: seq<Line>, a: seq<Line>, b: seq<Line>)
    requires IsSubsequence(xs, a) && IsSubsequence(xs, b)
    ensures |xs| <= Best(a, b)
    decreases |a| + |b|
  {
    if xs != [] {
      BestOfTails(a, b);
      if xs[0] == a[0] == b[0] && IsSubsequence(xs[1..], a[1..]) && IsSubsequence(xs[1..], b[1..]) {
        CommonAtMostBest(xs[1..], a[1..], b[1..]);
      } else if IsSubsequence(xs, a[1..]) {
        CommonAtMostBest(xs, a[1..], b);
      } else {
        CommonAtMostBest(xs, a, b[1..]);
      }
    }
  }

  lemma TableIsLongestCommonSubsequence(a: seq<Line>, b: seq<Line>)
    ensures exists xs :: IsSubsequence(xs, a) && IsSubsequence(xs, b) && |xs| == Best(a, b)
    ensures forall xs :: IsSubsequence(xs, a) && IsSubsequence(xs, b) ==> |xs| <= Best(a, b)
  {
    WalkTransforms(a, b);
    KeptIsCommon(Walk(a, b));
    forall xs | IsSubsequence(xs, a) && IsSubsequence(xs, b) ensures |xs| <= Best(a, b) {
      CommonAtMostBest(xs, a, b);
    }
  }

  // ---------------------------------------------------------------- reading the printed lines

  /** The lines that carry a mark, without it. */
  function Marked(lines: seq<Line>, mark: char): seq<Line> {
    if lines == [] then []
    else (if lines[0] != [] && lines[0][0] == mark then [lines[0][1..]] else []) + Marked(lines[1..], mark)
  }

  function RemovedLines(ops: seq<Op>): seq<Line> {
    if ops == [] then [] else (if ops[0].Remove? then [ops[0].line] else []) + RemovedLines(ops[1..])
  }

  function AddedLines(ops: seq<Op>): seq<Line> {
    if ops == [] then [] else (if ops[0].Add? then [ops[0].line] else []) + AddedLines(ops[1..])
  }

  /** The printed lines tell what was removed and what was added, in order. */
  lemma {:induction false} PrintedTellsChanges(ops: seq<Op>)
    ensures Marked(Printed(ops), '-') == RemovedLines(ops)
    ensures Marked(Printed(ops), '+') == AddedLines(ops)
  {
    if ops != [] {
      PrintedTellsChanges(ops[1..]);
      var line := ops[0].line;
      assert ("-" + line)[1..] == line && ("+" + line)[1..] == line;
      assert ops[0].Keep? ==> Printed(ops) == Printed(ops[1..]);
      assert !ops[0].Keep? ==> Printed(ops)[1..] == Printed(ops[1..]);
    }
  }

  // ---------------------------------------------------------------- diffs that show no change

  lemma {:induction false} FreeScript(ops: seq<Op>)
    requires Cost(ops) == 0
    ensures FromLines(ops) == ToLines(ops)
  {
    if ops != [] {
      FreeScript(ops[1..]);
    }
  }

  lemma {:induction false} WalkOfSame(lines: seq<Line>)
    ensures Printed(Walk(lines, lines)) == []
  {
    if lines != [] {
      WalkOfSame(lines[1..]);
      PrintedFirst(Keep(lines[0]), Walk(lines[1..], lines[1..]));
    }
  }

  lemma NothingPrintedExactlyWhenSame(a: seq<Line>, b: seq<Line>)
    ensures Printed(Walk(a, b)) == [] <==> a == b
  {
    WalkTransforms(a, b);
    CostOfScript(Walk(a, b));
    if a == b {
      WalkOfSame(a);
    } else if Printed(Walk(a, b)) == [] {
      FreeScript(Walk(a, b));
    }
  }

  predicate HoldsNewline(line: Line) {
    '\n' in line
  }

  /**
   The second source is the first with each carriage return and line feed as a line feed; no other
   newline is in either.
   */
  predicate OnlyNewlinesDiffer(crlf: string, lf: string) {
    && Includes(crlf, "\r\n")
    && !Includes(lf, "\r\n")
    && (forall line :: line in SourceLines(crlf) ==> !HoldsNewline(line))
    && lf == Join(SourceLines(crlf), "\n")
  }

  lemma {:induction false} SplitHoldsNone(s: string, current: string)
    requires !HoldsNewline(current)
    ensures forall line :: line in SplitFrom(s, "\n", current) ==> !HoldsNewline(line)
    decreases |s|
  {
    if s != [] {
      if "\n" <= s {
        SplitHoldsNone(s[1..], []);
      } else {
        SplitHoldsNone(s[1..], current + [s[0]]);
      }
    }
  }

  lemma {:induction false} SplitReadsOn(line: Line, rest: string, current: string)
    requires !HoldsNewline(line)
    ensures SplitFrom(line + rest, "\n", current) == SplitFrom(rest, "\n", current + line)
    decreases |line|
  {
    if line == [] {
      assert line + rest == rest && current + line == current;
    } else {
      SplitReadsOn(line[1..], rest, current + [line[0]]);
      assert (line + rest)[1..] == line[1..] + rest;
      assert current + [line[0]] + line[1..] == current + line;
    }
  }

  lemma {:induction false} SplitUndoesJoin(lines: seq<Line>)
    requires lines != [] && forall line :: line in lines ==> !HoldsNewline(line)
    ensures SplitFrom(Join(lines, "\n"), "\n", []) == lines
  {
    var first, rest := lines[0], lines[1..];
    if rest == [] {
      SplitReadsOn(first, [], []);
      assert first + [] == first && [] + first == first;
    } else {
      SplitUndoesJoin(rest);
      var tail := Join(rest, "\n");
      SplitReadsOn(first, "\n" + tail, []);
      assert first + "\n" + tail == first + ("\n" + tail) && [] + first == first;
      assert ("\n" + tail)[1..] == tail;
    }
  }

  lemma SameLinesExactlyWhen(crlf: string, lf: string)
    requires Includes(crlf, "\r\n") && !Includes(lf, "\r\n")
    ensures SourceLines(crlf) == SourceLines(lf) <==> OnlyNewlinesDiffer(crlf, lf)
  {
    LinesJoinToSource(lf);
    SplitHoldsNone(lf, []);
    if OnlyNewlinesDiffer(crlf, lf) {
      SplitUndoesJoin(SourceLines(crlf));
    }
  }

  /** Of two sources that differ, exactly when the diff prints its two header lines and no change. */
  lemma NoChangeShownExactlyWhen(from: string, to: string)
    requires from != to
    ensures Printed(Walk(SourceLines(from), SourceLines(to))) == []
       <==> OnlyNewlinesDiffer(from, to) || OnlyNewlinesDiffer(to, from)
  {
    NothingPrintedExactlyWhenSame(SourceLines(from), SourceLines(to));
    hide Printed, Walk, Includes, SplitFrom, Join, HoldsNewline;
    if NewlineOf(from) == NewlineOf(to) {
      LinesJoinToSource(from);
      LinesJoinToSource(to);
    } else if Includes(from, "\r\n") {
      SameLinesExactlyWhen(from, to);
    } else {
      SameLinesExactlyWhen(to, from);
    }
  }

  /** A diff of two sources that differ, with the header lines alone. */
  lemma NewlineStyleIsNotShown()
    ensures "a\r\nb" != "a\nb" && Diff("a\r\nb", "a\nb") == Join(HEADER, "\n") + "\n"
  {
    hide Walk, SourceLines, Join;
    CarriageReturnLines();
    LineFeedLines();
    NothingPrintedExactlyWhenSame(["a", "b"], ["a", "b"]);
    assert HEADER + [] == HEADER;
  }

  lemma CarriageReturnLines()
    ensures SourceLines("a\r\nb") == ["a", "b"]
  {
    var s, rest := "a\r\nb", "\r\nb";
    assert s[1..] == rest && rest[2..] == "b" && "\r\n" <= rest;
    assert Includes(rest, "\r\n");
    assert SplitFrom("b", "\r\n", []) == ["b"] by {
      assert "b"[1..] == "" && [] + ['b'] == "b";
    }
    assert [] + ['a'] == "a";
  }

  lemma {:induction false} NoReturn(s: string)
    requires '\r' !in s
    ensures !Includes(s, "\r\n")
  {
    if s != [] {
      NoReturn(s[1..]);
      assert "\r\n"[0] == '\r';
    }
  }

  lemma LineFeedLines()
    ensures SourceLines("a\nb") == ["a", "b"]
  {
    var s, lines := "a\nb", ["a", "b"];
    NoReturn(s);
    assert lines[1..] == ["b"] && Join(["b"], "\n") == "b";
    assert "a" + "\n" + "b" == s;
    SplitUndoesJoin(lines);
  }

  // ---------------------------------------------------------------- the order of changes

  /** Where the lines differ the removal comes first, exactly when some longest match does without the line. */
  lemma RemovalFirstExactlyWhen(a: seq<Line>, b: seq<Line>)
    requires a != [] && b != [] && a[0] != b[0]
    ensures Walk(a, b)[0] == Remove(a[0]) || Walk(a, b)[0] == Add(b[0])
    ensures Walk(a, b)[0] == Remove(a[0])
       <==> exists xs :: IsSubsequence(xs, a[1..]) && IsSubsequence(xs, b) && |xs| == Best(a, b)
  {
    TableIsLongestCommonSubsequence(a[1..], b);
    BestOfTails(a, b);
    hide IsSubsequence;
  }
}
