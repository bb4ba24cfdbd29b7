/**
 Text replacements of packages/spec/src/authoring/source-operations.ts: spans of a source are
 replaced one after the other, the last span first, so that the offsets of the others stay right.
 */
module SourceOperations {

  type Source = string

  datatype Replacement = Replacement(start: nat, end: nat, text: Source)

  // ---------------------------------------------------------------- splicing

  // String.slice: an offset past the end is the end.
  function UpTo(s: Source, n: nat): Source {
    if n <= |s| then s[..n] else s
  }

  function After(s: Source, n: nat): Source {
    if n <= |s| then s[n..] else []
  }

  function Splice(s: Source, r: Replacement): Source {
    UpTo(s, r.start) + r.text + After(s, r.end)
  }

  function SpliceAll(s: Source, rs: seq<Replacement>): Source {
    if rs == [] then s else Splice(SpliceAll(s, rs[..|rs| - 1]), rs[|rs| - 1])
  }

  /** Array.toSorted by descending start is stable: among equal starts the list's order stays. */
  function InsertByStart(r: Replacement, ordered: seq<Replacement>): seq<Replacement> {
    if ordered != [] && r.start < ordered[0].start then [ordered[0]] + InsertByStart(r, ordered[1..])
    else [r] + ordered
  }

  function Descending(rs: seq<Replacement>): seq<Replacement> {
    if rs == [] then [] else InsertByStart(rs[0], Descending(rs[1..]))
  }

  function Replaced(source: Source, rs: seq<Replacement>): Source {
    SpliceAll(source, Descending(rs))
  }

  method ApplyReplacements(source: Source, replacements: seq<Replacement>) returns (next: Source)
    ensures next == Replaced(source, replacements)
  {
    var ordered := Descending(replacements);
    next := source;
    for i := 0 to |ordered|
      invariant next == SpliceAll(source, ordered[..i])
    {
      assert ordered[..i + 1][..i] == ordered[..i];
      next := UpTo(next, ordered[i].start) + ordered[i].text + After(next, ordered[i].end);
    }
    assert ordered[..|ordered|] == ordered;
  }

  // ---------------------------------------------------------------- simultaneous replacement

  predicate Fits(source: Source, r: Replacement) {
    r.start <= r.end <= |source|
  }

  /** The spans lie in the source and apart from each other, and no two start at one offset. */
  ghost predicate Apart(source: Source, rs: seq<Replacement>) {
    && (forall r :: r in rs ==> Fits(source, r))
    && (forall i, j :: 0 <= i < j < |rs| ==> Separate(rs[i], rs[j]) && rs[i].start != rs[j].start)
  }

  predicate Separate(x: Replacement, y: Replacement) {
    x.end <= y.start || y.end <= x.start
  }

  function Growth(r: Replacement): int {
    |r.text| - (r.end - r.start)
  }

  /** By how much the spans that start before an offset shift the text at it. */
  function Shift(rs: seq<Replacement>, offset: nat): int {
    if rs == [] then 0 else (if rs[0].start < offset then Growth(rs[0]) else 0) + Shift(rs[1..], offset)
  }

  predicate Outside(rs: seq<Replacement>, p: nat) {
    forall r :: r in rs ==> !(r.start <= p < r.end)
  }

  predicate CharAt(t: Source, k: int, c: char) {
    0 <= k < |t| && t[k] == c
  }

  predicate TextAt(t: Source, k: int, text: Source) {
    0 <= k <= k + |text| <= |t| && t[k..k + |text|] == text
  }

  /**
   All replacements at once, in no order: each offset outside the spans keeps its character, each
   span has its text instead, and both are shifted by the spans before them.
   */
  ghost predicate IsSimultaneous(source: Source, rs: seq<Replacement>, t: Source) {
    && |t| == |source| + Shift(rs, |source| + 1)
    && (forall p: nat | p < |source| && Outside(rs, p) :: CharAt(t, p + Shift(rs, p + 1), source[p]))
    && (forall r | r in rs :: TextAt(t, r.start + Shift(rs, r.start), r.text))
  }

  // ---------------------------------------------------------------- gaps and texts in source order

  /** From `from` on, the gaps of the source and the texts in turn. */
  function Interleaved(source: Source, from: nat, rs: seq<Replacement>): Source
    requires Ascends(source, from, rs)
    decreases |rs|
  {
    if rs == [] then source[from..]
    else source[from..rs[0].start] + rs[0].text + Interleaved(source, rs[0].end, rs[1..])
  }

  /** The spans follow each other; of two that meet, the later starts where the earlier ends. */
  predicate Ascends(source: Source, from: nat, rs: seq<Replacement>)
    decreases |rs|
  {
    if rs == [] then from <= |source|
    else from <= rs[0].start && Fits(source, rs[0]) && Ascends(source, rs[0].end, rs[1..])
  }

  function Reverse(rs: seq<Replacement>): seq<Replacement> {
    if rs == [] then [] else [rs[|rs| - 1]] + Reverse(rs[..|rs| - 1])
  }

  lemma {:induction false} StaysInSource(source: Source, from: nat, rs: seq<Replacement>)
    requires Ascends(source, from, rs)
    ensures from <= |source|
    decreases |rs|
  {
    if rs != [] {
      StaysInSource(source, rs[0].end, rs[1..]);
    }
  }

  lemma SpliceInto(source: Source, rest: Source, r: Replacement)
    requires Fits(source, r)
    ensures Splice(source[..r.end] + rest, r) == source[..r.start] + (r.text + rest)
  {
    var t := source[..r.end] + rest;
    assert UpTo(t, r.start) == source[..r.start] && After(t, r.end) == rest;
  }

  /** Splicing the spans from the last to the first interleaves gaps and texts. */
  lemma {:induction false} SplicesInterleave(source: Source, from: nat, rs: seq<Replacement>)
    requires Ascends(source, from, Reverse(rs))
    ensures from <= |source| && SpliceAll(source, rs) == source[..from] + Interleaved(source, from, Reverse(rs))
    decreases |rs|
  {
    StaysInSource(source, from, Reverse(rs));
    if rs != [] {
      var r, others := rs[|rs| - 1], rs[..|rs| - 1];
      var rest := Reverse(others);
      assert Reverse(rs)[0] == r && Reverse(rs)[1..] == rest;
      SplicesInterleave(source, r.end, others);
      SpliceInto(source, Interleaved(source, r.end, rest), r);
      FirstInterleaved(source, from, Reverse(rs));
      hide Splice, Ascends, Reverse, Interleaved, UpTo, After;
    }
  }

  lemma FirstInterleaved(source: Source, from: nat, rs: seq<Replacement>)
    requires Ascends(source, from, rs) && rs != []
    ensures rs[0].start <= |source| && from <= |source|
    ensures source[..from] + Interleaved(source, from, rs)
         == source[..rs[0].start] + (rs[0].text + Interleaved(source, rs[0].end, rs[1..]))
  {
    var start, text, tail := rs[0].start, rs[0].text, Interleaved(source, rs[0].end, rs[1..]);
    assert Interleaved(source, from, rs) == source[from..start] + text + tail;
    hide Ascends, Interleaved, Fits;
    var head, gap := source[..from], source[from..start];
    assert head + gap == source[..start];
    assert head + (gap + text + tail) == (head + gap) + (text + tail);
  }

  // ---------------------------------------------------------------- interleaving is simultaneous

  lemma {:induction false} NoShiftBefore(source: Source, from: nat, rs: seq<Replacement>, offset: nat)
    requires Ascends(source, from, rs) && offset <= from
    ensures Shift(rs, offset) == 0
    decreases |rs|
  {
    if rs != [] {
      NoShiftBefore(source, rs[0].end, rs[1..], offset);
    }
  }

  lemma {:induction false} InterleavedLength(source: Source, from: nat, rs: seq<Replacement>)
    requires Ascends(source, from, rs)
    ensures from <= |source| && |Interleaved(source, from, rs)| == |source| - from + Shift(rs, |source| + 1)
    decreases |rs|
  {
    if rs != [] {
      InterleavedLength(source, rs[0].end, rs[1..]);
    }
  }

  lemma CharBehind(before: Source, t: Source, k: int, c: char)
    requires CharAt(t, k, c)
    ensures CharAt(before + t, |before| + k, c)
  {
  }

  lemma FirstGap(source: Source, from: nat, rs: seq<Replacement>, p: nat)
    requires Ascends(source, from, rs) && rs != [] && from <= p < rs[0].start
    ensures CharAt(Interleaved(source, from, rs), p - from, source[p])
  {
    var gap := source[from..rs[0].start];
    assert gap[p - from] == source[p];
    assert Interleaved(source, from, rs) == gap + rs[0].text + Interleaved(source, rs[0].end, rs[1..]);
  }

  lemma {:induction false} GapsKept(source: Source, from: nat, rs: seq<Replacement>, p: nat)
    requires Ascends(source, from, rs) && from <= p < |source| && Outside(rs, p)
    ensures CharAt(Interleaved(source, from, rs), p - from + Shift(rs, p + 1), source[p])
    decreases |rs|
  {
    if rs == [] {
      assert source[from..][p - from] == source[p];
    } else {
      var r, rest := rs[0], rs[1..];
      assert r in rs && forall x :: x in rest ==> x in rs;
      if p < r.start {
        NoShiftBefore(source, r.end, rest, p + 1);
        hide CharAt, Interleaved, Ascends;
        FirstGap(source, from, rs, p);
      } else {
        var before, behind := source[from..r.start] + r.text, Interleaved(source, r.end, rest);
        assert p >= r.end;
        assert Interleaved(source, from, rs) == before + behind;
        hide CharAt, Ascends, Interleaved;
        GapsKept(source, r.end, rest, p);
        hide Outside;
        CharBehind(before, behind, p - r.end + Shift(rest, p + 1), source[p]);
      }
    }
  }

  lemma {:induction false} TextsPlaced(source: Source, from: nat, rs: seq<Replacement>, r: Replacement)
    requires Ascends(source, from, rs) && r in rs && StartsApart(rs)
    ensures r.start >= from && TextAt(Interleaved(source, from, rs), r.start - from + Shift(rs, r.start), r.text)
    decreases |rs|
  {
    var first, rest := rs[0], rs[1..];
    if r == first {
      NoShiftBefore(source, first.end, rest, r.start);
    } else {
      StartsApartRest(rs, r);
      TextsPlaced(source, first.end, rest, r);
      var before := source[from..first.start] + first.text;
      TextAfter(before, Interleaved(source, first.end, rest), r.start - first.end + Shift(rest, r.start), r.text);
      hide TextAt, StartsApart;
    }
  }

  lemma TextAfter(before: Source, t: Source, k: int, text: Source)
    requires TextAt(t, k, text)
    ensures TextAt(before + t, |before| + k, text)
  {
  }

  ghost predicate StartsApart(rs: seq<Replacement>) {
    forall i, j :: 0 <= i < j < |rs| ==> rs[i].start != rs[j].start
  }

  lemma StartsApartRest(rs: seq<Replacement>, r: Replacement)
    requires rs != [] && StartsApart(rs) && r in rs && r != rs[0]
    ensures StartsApart(rs[1..]) && r in rs[1..] && r.start != rs[0].start
  {
  }

  lemma {:induction false} OutsideBefore(source: Source, from: nat, rs: seq<Replacement>, p: nat)
    requires Ascends(source, from, rs) && p < from
    ensures Outside(rs, p)
    decreases |rs|
  {
    if rs != [] {
      OutsideBefore(source, rs[0].end, rs[1..], p);
      assert forall r :: r in rs ==> r == rs[0] || r in rs[1..];
    }
  }

  /** Every character of the interleaving is one of a gap or one of a text. */
  lemma {:induction false} EveryCharPlaced(source: Source, from: nat, rs: seq<Replacement>, k: nat)
      returns (gap: bool, p: nat, r: Replacement)
    requires Ascends(source, from, rs) && k < |Interleaved(source, from, rs)| && StartsApart(rs)
    ensures gap ==> from <= p < |source| && Outside(rs, p) && k == p - from + Shift(rs, p + 1)
    ensures !gap ==>
      r in rs && r.start - from + Shift(rs, r.start) <= k < r.start - from + Shift(rs, r.start) + |r.text|
    decreases |rs|
  {
    if rs == [] {
      return true, from + k, Replacement(0, 0, []);
    }
    var first, rest := rs[0], rs[1..];
    var before := first.start - from;
    assert forall x :: x in rs ==> x == first || x in rest;
    if k < before {
      NoShiftBefore(source, first.end, rest, from + k + 1);
      OutsideBefore(source, first.end, rest, from + k);
      return true, from + k, first;
    } else if k < before + |first.text| {
      NoShiftBefore(source, first.end, rest, first.start);
      return false, 0, first;
    }
    assert |Interleaved(source, from, rs)| == before + |first.text| + |Interleaved(source, first.end, rest)|;
    hide Interleaved;
    gap, p, r := EveryCharPlaced(source, first.end, rest, k - before - |first.text|);
    if !gap {
      TextsPlaced(source, first.end, rest, r);
    }
    hide Ascends, StartsApart, Outside, TextAt;
  }

  lemma InterleavedIsSimultaneous(source: Source, rs: seq<Replacement>)
    requires Ascends(source, 0, rs) && StartsApart(rs)
    ensures IsSimultaneous(source, rs, Interleaved(source, 0, rs))
  {
    var t := Interleaved(source, 0, rs);
    InterleavedLength(source, 0, rs);
    forall p: nat | p < |source| && Outside(rs, p) ensures CharAt(t, p + Shift(rs, p + 1), source[p]) {
      GapsKept(source, 0, rs, p);
    }
    forall r | r in rs ensures TextAt(t, r.start + Shift(rs, r.start), r.text) {
      TextsPlaced(source, 0, rs, r);
    }
  }

  /** Simultaneous replacement has one outcome. */
  lemma SimultaneousIsInterleaved(source: Source, rs: seq<Replacement>, t: Source)
    requires Ascends(source, 0, rs) && StartsApart(rs) && IsSimultaneous(source, rs, t)
    ensures t == Interleaved(source, 0, rs)
  {
    var i := Interleaved(source, 0, rs);
    InterleavedIsSimultaneous(source, rs);
    hide Ascends, StartsApart, Interleaved, IsSimultaneous;
    forall k: nat | k < |t| ensures CharAt(i, k, t[k]) {
      SameChar(source, rs, t, i, k);
    }
    assert |t| == |i| by {
      SameLength(source, rs, t, i);
    }
  }

  lemma SameLength(source: Source, rs: seq<Replacement>, t: Source, i: Source)
    requires IsSimultaneous(source, rs, t) && IsSimultaneous(source, rs, i)
    ensures |t| == |i|
  {
  }

  lemma SameChar(source: Source, rs: seq<Replacement>, t: Source, i: Source, k: nat)
    requires Ascends(source, 0, rs) && StartsApart(rs) && k < |t| && i == Interleaved(source, 0, rs)
    requires IsSimultaneous(source, rs, t) && IsSimultaneous(source, rs, i)
    ensures CharAt(i, k, t[k])
  {
    hide Ascends, StartsApart, Interleaved;
    var gap, p, r := EveryCharPlaced(source, 0, rs, k);
    if gap {
      assert CharAt(t, p + Shift(rs, p + 1), source[p]) && CharAt(i, p + Shift(rs, p + 1), source[p]);
    } else {
      var at := r.start + Shift(rs, r.start);
      assert TextAt(t, at, r.text) && TextAt(i, at, r.text);
      assert t[at..at + |r.text|][k - at] == i[at..at + |r.text|][k - at];
    }
  }

  // ---------------------------------------------------------------- the stable sort

  ghost predicate Same(xs: seq<Replacement>, ys: seq<Replacement>) {
    && (forall r :: r in xs <==> r in ys)
    && (forall offset: nat :: Shift(xs, offset) == Shift(ys, offset))
  }

  lemma {:induction false} InsertKeeps(r: Replacement, ordered: seq<Replacement>)
    ensures Same(InsertByStart(r, ordered), [r] + ordered)
  {
    if ordered != [] && r.start < ordered[0].start {
      InsertKeeps(r, ordered[1..]);
      assert ([r] + ordered)[1..] == ordered && ordered == [ordered[0]] + ordered[1..];
      assert ([r] + ordered[1..])[1..] == ordered[1..];
    }
  }

  lemma {:induction false} SortKeeps(rs: seq<Replacement>)
    ensures Same(Descending(rs), rs)
  {
    if rs != [] {
      SortKeeps(rs[1..]);
      InsertKeeps(rs[0], Descending(rs[1..]));
      assert rs == [rs[0]] + rs[1..];
    }
  }

  lemma {:induction false} ShiftSum(xs: seq<Replacement>, ys: seq<Replacement>, offset: nat)
    ensures Shift(xs + ys, offset) == Shift(xs, offset) + Shift(ys, offset)
  {
    if xs == [] {
      assert xs + ys == ys;
    } else {
      assert (xs + ys)[1..] == xs[1..] + ys;
      ShiftSum(xs[1..], ys, offset);
    }
  }

  lemma {:induction false} ReverseKeeps(rs: seq<Replacement>)
    ensures Same(Reverse(rs), rs)
  {
    if rs != [] {
      var others, last := rs[..|rs| - 1], [rs[|rs| - 1]];
      ReverseKeeps(others);
      assert rs == others + last;
      forall offset: nat ensures Shift(Reverse(rs), offset) == Shift(rs, offset) {
        ShiftSum(others, last, offset);
        ShiftSum(last, Reverse(others), offset);
      }
    }
  }

  // ---------------------------------------------------------------- which spans splice

  /**
   What a span leaves to one that is listed later: spans that start at one offset are spliced as
   listed, so the later one must be an insertion; others must not overlap.
   */
  predicate InTurn(first: Replacement, later: Replacement) {
    if first.start == later.start then later.end == later.start else Separate(first, later)
  }

  ghost predicate Spliceable(source: Source, rs: seq<Replacement>) {
    && (forall r :: r in rs ==> Fits(source, r))
    && (forall i, j :: 0 <= i < j < |rs| ==> InTurn(rs[i], rs[j]))
  }

  predicate EndBy(rs: seq<Replacement>, offset: nat) {
    forall x :: x in rs ==> x.end <= offset
  }

  predicate StartFrom(rs: seq<Replacement>, offset: nat) {
    forall x :: x in rs ==> offset <= x.start
  }

  predicate AllInTurn(r: Replacement, rs: seq<Replacement>) {
    forall x :: x in rs ==> InTurn(r, x)
  }

  /** Each span ends before all earlier ones start: splicing it does not touch them. */
  predicate Follow(source: Source, rs: seq<Replacement>) {
    rs == [] || (Fits(source, rs[0]) && EndBy(rs[1..], rs[0].start) && Follow(source, rs[1..]))
  }

  predicate Sorted(rs: seq<Replacement>) {
    rs == [] || ((forall x :: x in rs[1..] ==> x.start <= rs[0].start) && Sorted(rs[1..]))
  }

  lemma {:induction false} InsertSorts(r: Replacement, ordered: seq<Replacement>)
    requires Sorted(ordered)
    ensures Sorted(InsertByStart(r, ordered))
  {
    if ordered != [] && r.start < ordered[0].start {
      InsertSorts(r, ordered[1..]);
      InsertKeeps(r, ordered[1..]);
    }
  }

  lemma {:induction false} SortSorts(rs: seq<Replacement>)
    ensures Sorted(Descending(rs))
  {
    if rs != [] {
      SortSorts(rs[1..]);
      InsertSorts(rs[0], Descending(rs[1..]));
    }
  }

  lemma AllInTurnBefore(source: Source, r: Replacement, rs: seq<Replacement>)
    requires Fits(source, r) && Follow(source, rs) && Sorted(rs) && (rs != [] ==> rs[0].start <= r.start)
    ensures AllInTurn(r, rs) <==> EndBy(rs, r.start)
  {
    FollowFit(source, rs);
    hide Follow;
  }

  lemma {:induction false} FollowFit(source: Source, rs: seq<Replacement>)
    requires Follow(source, rs)
    ensures forall x :: x in rs ==> Fits(source, x)
  {
    if rs != [] {
      FollowFit(source, rs[1..]);
    }
  }

  /** Inserting keeps the order of splicing clear exactly when the span is in turn with all others. */
  lemma {:induction false} InsertFollows(source: Source, r: Replacement, ordered: seq<Replacement>)
    requires Sorted(ordered)
    ensures Follow(source, InsertByStart(r, ordered))
       <==> Fits(source, r) && AllInTurn(r, ordered) && Follow(source, ordered)
    decreases |ordered|
  {
    if ordered == [] || ordered[0].start <= r.start {
      assert ([r] + ordered)[1..] == ordered;
      if Fits(source, r) && Follow(source, ordered) {
        AllInTurnBefore(source, r, ordered);
      }
    } else {
      var first, rest := ordered[0], ordered[1..];
      var inserted := InsertByStart(r, rest);
      InsertFollows(source, r, rest);
      InsertKeeps(r, rest);
      assert ([first] + inserted)[1..] == inserted;
      assert forall x :: x in inserted <==> x == r || x in rest;
      assert forall x :: x in ordered <==> x == first || x in rest;
      hide InsertByStart, Shift;
    }
  }

  lemma SpliceableFirst(source: Source, rs: seq<Replacement>)
    requires rs != []
    ensures Spliceable(source, rs)
       <==> Fits(source, rs[0]) && AllInTurn(rs[0], rs[1..]) && Spliceable(source, rs[1..])
  {
    var rest := rs[1..];
    assert forall k :: 0 <= k < |rest| ==> rest[k] == rs[k + 1];
    assert forall x :: x in rs <==> x == rs[0] || x in rest;
    if Fits(source, rs[0]) && AllInTurn(rs[0], rest) && Spliceable(source, rest) {
      forall i, j | 0 <= i < j < |rs| ensures InTurn(rs[i], rs[j]) {
        assert rs[j] == rest[j - 1];
        assert i > 0 ==> rs[i] == rest[i - 1];
      }
    }
  }

  lemma {:induction false} SortFollows(source: Source, rs: seq<Replacement>)
    ensures Follow(source, Descending(rs)) <==> Spliceable(source, rs)
  {
    if rs != [] {
      var first, rest := rs[0], rs[1..];
      SpliceableFirst(source, rs);
      SortFollows(source, rest);
      SortKeeps(rest);
      SortSorts(rest);
      assert AllInTurn(first, Descending(rest)) == AllInTurn(first, rest);
      InsertFollows(source, first, Descending(rest));
      hide Spliceable, Follow, AllInTurn, Same;
    }
  }

  lemma {:induction false} FollowLast(source: Source, others: seq<Replacement>, last: Replacement)
    ensures Follow(source, others + [last])
       <==> Follow(source, others) && Fits(source, last) && StartFrom(others, last.end)
  {
    var rs := others + [last];
    if others == [] {
      assert rs == [last];
    } else {
      var rest := others[1..];
      assert rs[1..] == rest + [last];
      FollowLast(source, rest, last);
      assert forall x :: x in rs[1..] <==> x == last || x in rest;
      assert forall x :: x in others <==> x == others[0] || x in rest;
    }
  }

  lemma {:induction false} ReverseAscends(source: Source, from: nat, rs: seq<Replacement>)
    ensures Ascends(source, from, Reverse(rs)) <==> from <= |source| && Follow(source, rs) && StartFrom(rs, from)
    decreases |rs|
  {
    if rs != [] {
      var others, last := rs[..|rs| - 1], rs[|rs| - 1];
      assert rs == others + [last];
      FollowLast(source, others, last);
      assert Reverse(rs)[0] == last && Reverse(rs)[1..] == Reverse(others);
      ReverseAscends(source, last.end, others);
      hide Follow, Reverse;
      assert forall x :: x in rs <==> x == last || x in others;
    }
  }

  /** The spans in the order in which the result shows them. */
  function InOrder(rs: seq<Replacement>): seq<Replacement> {
    Reverse(Descending(rs))
  }

  /**
   Exactly when the splices keep off each other, and then they leave the gaps and every text, in
   source order, and of equal starts in the reverse of the listed order.
   */
  lemma SplicesExactlyWhen(source: Source, rs: seq<Replacement>)
    ensures Ascends(source, 0, InOrder(rs)) <==> Spliceable(source, rs)
    ensures Spliceable(source, rs) ==> Replaced(source, rs) == Interleaved(source, 0, InOrder(rs))
  {
    SortFollows(source, rs);
    ReverseAscends(source, 0, Descending(rs));
    if Spliceable(source, rs) {
      SplicesInterleave(source, 0, Descending(rs));
      assert source[..0] + Interleaved(source, 0, InOrder(rs)) == Interleaved(source, 0, InOrder(rs));
    }
  }

  lemma TwoWithEqualStarts(source: Source, first: Replacement, later: Replacement)
    requires first.start == later.start
    ensures Replaced(source, [first, later]) == Splice(Splice(source, first), later)
  {
    var rs := [first, later];
    EqualStartsStay(rs, first.start);
    assert rs[..1] == [first] && [first][..0] == [];
    assert SpliceAll(source, [first]) == Splice(source, first);
  }

  /** An insertion that is listed before a replacement at its offset: the replaced span is cut from the insertion. */
  lemma InsertedTextIsCut(source: Source, at: nat, inserted: Source, replacement: Replacement)
    requires Fits(source, replacement) && replacement.start == at
    ensures Replaced(source, [Replacement(at, at, inserted), replacement])
         == source[..at] + replacement.text + After(inserted + source[at..], replacement.end - at)
  {
    hide Splice, Replaced, After;
    var insertion, behind := Replacement(at, at, inserted), inserted + source[at..];
    TwoWithEqualStarts(source, insertion, replacement);
    InsertionSplices(source, at, inserted);
    SpliceBehind(source[..at], behind, replacement);
  }

  lemma InsertionSplices(source: Source, at: nat, inserted: Source)
    requires at <= |source|
    ensures Splice(source, Replacement(at, at, inserted)) == source[..at] + (inserted + source[at..])
  {
    assert source[..at] + inserted + source[at..] == source[..at] + (inserted + source[at..]);
  }

  lemma SpliceBehind(before: Source, behind: Source, r: Replacement)
    requires r.start == |before| <= r.end
    ensures Splice(before + behind, r) == before + r.text + After(behind, r.end - |before|)
  {
    var t := before + behind;
    assert UpTo(t, r.start) == before && After(t, r.end) == After(behind, r.end - |before|);
    hide After, UpTo;
  }

  /** An insertion that is listed after the replacement stays, in front of the new text. */
  lemma LaterInsertionStays(source: Source, at: nat, inserted: Source, replacement: Replacement)
    requires Fits(source, replacement) && replacement.start == at
    ensures Replaced(source, [replacement, Replacement(at, at, inserted)])
         == source[..at] + (inserted + (replacement.text + source[replacement.end..]))
  {
    var replaced := Splice(source, replacement);
    TwoWithEqualStarts(source, replacement, Replacement(at, at, inserted));
    assert replaced == source[..at] + (replacement.text + source[replacement.end..]);
    assert replaced[..at] == source[..at] && replaced[at..] == replacement.text + source[replacement.end..];
    hide Splice, Replaced;
    InsertionSplices(replaced, at, inserted);
  }

  /** What was inserted is gone, and a character that was to be replaced is left. */
  lemma InsertionIsOverwritten()
    ensures Replaced("abcdef", [Replacement(3, 3, "X"), Replacement(3, 5, "Y")]) == "abcYef"
    ensures Replaced("abcdef", [Replacement(3, 5, "Y"), Replacement(3, 3, "X")]) == "abcXYf"
  {
    hide Replaced;
    InsertedTextIsCut("abcdef", 3, "X", Replacement(3, 5, "Y"));
    LaterInsertionStays("abcdef", 3, "X", Replacement(3, 5, "Y"));
  }

  // ---------------------------------------------------------------- spans apart

  lemma {:induction false} InsertStartsApart(r: Replacement, ordered: seq<Replacement>)
    requires StartsApart(ordered) && forall x :: x in ordered ==> x.start != r.start
    ensures StartsApart(InsertByStart(r, ordered))
  {
    if ordered != [] && r.start < ordered[0].start {
      InsertStartsApart(r, ordered[1..]);
      InsertKeeps(r, ordered[1..]);
      StartsApartMore(ordered[0], InsertByStart(r, ordered[1..]));
    } else {
      StartsApartMore(r, ordered);
    }
  }

  lemma {:induction false} OrderStartsApart(rs: seq<Replacement>)
    requires StartsApart(rs)
    ensures StartsApart(Descending(rs))
  {
    if rs != [] {
      OrderStartsApart(rs[1..]);
      SortKeeps(rs[1..]);
      InsertStartsApart(rs[0], Descending(rs[1..]));
    }
  }

  lemma {:induction false} ReverseStartsApart(rs: seq<Replacement>)
    requires StartsApart(rs)
    ensures StartsApart(Reverse(rs))
  {
    if rs != [] {
      var others, last := rs[..|rs| - 1], rs[|rs| - 1];
      ReverseStartsApart(others);
      ReverseKeeps(others);
      StartsApartMore(last, Reverse(others));
    }
  }

  lemma StartsApartMore(r: Replacement, rs: seq<Replacement>)
    requires StartsApart(rs) && forall x :: x in rs ==> x.start != r.start
    ensures StartsApart([r] + rs)
  {
  }

  lemma ReplacedInterleaves(source: Source, rs: seq<Replacement>)
    requires Apart(source, rs)
    ensures Ascends(source, 0, InOrder(rs)) && StartsApart(InOrder(rs))
    ensures Replaced(source, rs) == Interleaved(source, 0, InOrder(rs))
  {
    assert Spliceable(source, rs);
    SplicesExactlyWhen(source, rs);
    OrderStartsApart(rs);
    ReverseStartsApart(Descending(rs));
    hide Ascends, StartsApart, Interleaved, Replaced, Descending, Reverse, Apart;
  }

  lemma InOrderKeeps(rs: seq<Replacement>)
    ensures Same(InOrder(rs), rs)
  {
    SortKeeps(rs);
    ReverseKeeps(Descending(rs));
    hide Descending, Reverse, Shift;
  }

  /**
   Replacing span by span is simultaneous replacement: of spans that are apart, in whatever order
   they are listed, the result is the one text in which everything outside the spans stays and
   every span has its new text.
   */
  lemma ReplacedExactlySimultaneously(source: Source, rs: seq<Replacement>, t: Source)
    requires Apart(source, rs)
    ensures t == Replaced(source, rs) <==> IsSimultaneous(source, rs, t)
  {
    ReplacedInterleaves(source, rs);
    InOrderKeeps(rs);
    hide IsSimultaneous, Ascends, StartsApart, Interleaved, Replaced, InOrder, Apart, Same;
    SameSimultaneous(source, InOrder(rs), rs, t);
    InterleavedIsSimultaneous(source, InOrder(rs));
    if IsSimultaneous(source, rs, t) {
      SimultaneousIsInterleaved(source, InOrder(rs), t);
    }
  }

  lemma SameSimultaneous(source: Source, xs: seq<Replacement>, ys: seq<Replacement>, t: Source)
    requires Same(xs, ys)
    ensures IsSimultaneous(source, xs, t) <==> IsSimultaneous(source, ys, t)
  {
    forall p: nat {:trigger Outside(xs, p)} {:trigger Outside(ys, p)} ensures Outside(xs, p) == Outside(ys, p) {
    }
  }

  ghost predicate SameElements(xs: seq<Replacement>, ys: seq<Replacement>) {
    forall r :: r in xs <==> r in ys
  }

  lemma {:induction false} SameShift(xs: seq<Replacement>, ys: seq<Replacement>, offset: nat)
    requires StartsApart(xs) && StartsApart(ys) && SameElements(xs, ys)
    ensures Shift(xs, offset) == Shift(ys, offset)
    decreases |xs|
  {
    if ys != [] {
      assert ys[0] in xs;
    }
    if xs != [] {
      assert xs[0] in ys;
      var j :| 0 <= j < |ys| && ys[j] == xs[0];
      var before, after := ys[..j], ys[j + 1..];
      var less := before + after;
      forall r ensures r in less <==> r in xs[1..] {
        WithoutFirst(xs, r);
        WithoutOne(ys, j, r);
      }
      assert SameElements(xs[1..], less);
      LessShift(ys, j, offset);
      hide SameElements;
      SameShift(xs[1..], less, offset);
    }
  }

  lemma LessShift(ys: seq<Replacement>, j: nat, offset: nat)
    requires j < |ys| && StartsApart(ys)
    ensures StartsApart(ys[..j] + ys[j + 1..])
    ensures Shift(ys, offset) == Shift(ys[..j] + ys[j + 1..], offset) + Shift([ys[j]], offset)
  {
    var before, after := ys[..j], ys[j + 1..];
    ShiftSum(before, after, offset);
    ShiftSum(before, [ys[j]] + after, offset);
    ShiftSum([ys[j]], after, offset);
    assert ys == before + ([ys[j]] + after);
  }

  lemma WithoutFirst(xs: seq<Replacement>, r: Replacement)
    requires xs != [] && StartsApart(xs)
    ensures r in xs[1..] <==> r in xs && r != xs[0]
  {
  }

  lemma WithoutOne(ys: seq<Replacement>, j: nat, r: Replacement)
    requires j < |ys| && StartsApart(ys)
    ensures r in ys[..j] + ys[j + 1..] <==> r in ys && r != ys[j]
  {
    var less := ys[..j] + ys[j + 1..];
    if r in ys && r != ys[j] {
      var i :| 0 <= i < |ys| && ys[i] == r;
      assert less[if i < j then i else i - 1] == r;
    }
  }

  /** The order of the list does not matter. */
  lemma AnyOrder(source: Source, xs: seq<Replacement>, ys: seq<Replacement>)
    requires Apart(source, xs) && Apart(source, ys) && SameElements(xs, ys)
    ensures Replaced(source, xs) == Replaced(source, ys)
  {
    forall offset: nat ensures Shift(xs, offset) == Shift(ys, offset) {
      SameShift(xs, ys, offset);
    }
    ReplacedExactlySimultaneously(source, xs, Replaced(source, xs));
    ReplacedExactlySimultaneously(source, ys, Replaced(source, xs));
    SameSimultaneous(source, xs, ys, Replaced(source, xs));
  }

  // ---------------------------------------------------------------- equal starts

  /** The texts from the last listed to the first. */
  function Backwards(rs: seq<Replacement>): Source {
    if rs == [] then [] else rs[|rs| - 1].text + Backwards(rs[..|rs| - 1])
  }

  lemma {:induction false} EqualStartsStay(rs: seq<Replacement>, start: nat)
    requires forall r :: r in rs ==> r.start == start
    ensures Descending(rs) == rs
  {
    if rs != [] {
      EqualStartsStay(rs[1..], start);
    }
  }

  lemma {:induction false} InsertedBackwards(source: Source, at: nat, rs: seq<Replacement>)
    requires at <= |source| && forall r :: r in rs ==> r.start == r.end == at
    ensures SpliceAll(source, rs) == source[..at] + (Backwards(rs) + source[at..])
  {
    if rs == [] {
      assert [] + source[at..] == source[at..];
    } else {
      var others, last := rs[..|rs| - 1], rs[|rs| - 1];
      InsertedBackwards(source, at, others);
      assert SpliceAll(source, rs) == Splice(SpliceAll(source, others), last);
      SpliceInto(source, Backwards(others) + source[at..], last);
      hide Splice, SpliceAll;
      assert last in rs && Backwards(rs) == last.text + Backwards(others);
      assert last.text + (Backwards(others) + source[at..]) == (last.text + Backwards(others)) + source[at..];
    }
  }

  /** Texts inserted at one offset come out in the reverse of the listed order. */
  lemma EqualStartsReverse(source: Source, at: nat, rs: seq<Replacement>)
    requires at <= |source| && forall r :: r in rs ==> r.start == r.end == at
    ensures Replaced(source, rs) == source[..at] + (Backwards(rs) + source[at..])
  {
    EqualStartsStay(rs, at);
    InsertedBackwards(source, at, rs);
  }
}
