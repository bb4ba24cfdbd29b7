/**
 Shard selection (packages/spec/src/selection/sharding.ts): scenarios are ranked by past
 duration and handed, longest first, to the least loaded shard.

 Durations are reals.  `localeCompare`, the tie breaker of the ranking, is an arbitrary
 relation passed as a parameter: nothing below depends on it.
 */
module Sharding {
  import opened Wrappers

  // The key is the scenario identity that `selectionKey` resolves; `ignored` records the
  // ignore tag that keeps a selected scenario out of the shardable ones.
  datatype Selection = Selection(key: string, name: string, ignored: bool)

  datatype Shard = Shard(index: nat, total: nat) {
    predicate Valid() {
      1 <= index <= total
    }
  }

  // A JavaScript record of durations, in enumeration order.
  datatype Entry = Entry(key: string, duration: real)

  ghost predicate DistinctKeys(entries: seq<Entry>) {
    forall i, j :: 0 <= i < j < |entries| ==> entries[i].key != entries[j].key
  }

  type Locale = (string, string) -> bool

  // ---------------------------------------------------------------- sorting

  function InsertAscending(x: real, xs: seq<real>): seq<real> {
    if xs == [] then [x]
    else if x <= xs[0] then [x] + xs
    else [xs[0]] + InsertAscending(x, xs[1..])
  }

  function SortAscending(xs: seq<real>): seq<real> {
    if xs == [] then [] else InsertAscending(xs[0], SortAscending(xs[1..]))
  }

  /** The comparator of rankedSelections: longer first, ties by locale order of the key. */
  predicate RanksBefore(locale: Locale, left: Entry, right: Entry) {
    left.duration > right.duration || (left.duration == right.duration && locale(left.key, right.key))
  }

  function InsertRanked(locale: Locale, x: Entry, xs: seq<Entry>): seq<Entry> {
    if xs == [] then [x]
    else if RanksBefore(locale, x, xs[0]) then [x] + xs
    else [xs[0]] + InsertRanked(locale, x, xs[1..])
  }

  function SortRanked(locale: Locale, xs: seq<Entry>): seq<Entry> {
    if xs == [] then [] else InsertRanked(locale, xs[0], SortRanked(locale, xs[1..]))
  }

  ghost predicate Descending(xs: seq<Entry>) {
    forall i, j :: 0 <= i < j < |xs| ==> xs[i].duration >= xs[j].duration
  }

  // ---------------------------------------------------------------- durations

  function Median(values: seq<real>): real {
    if values == [] then 0.0
    else
      var sorted := SortAscending(values);
      SortAscendingPermutes(values);
      var middle := |sorted| / 2;
      if |sorted| % 2 == 0 then (sorted[middle - 1] + sorted[middle]) / 2.0 else sorted[middle]
  }

  function Lookup(history: seq<Entry>, key: string): Option<real> {
    if history == [] then None
    else if history[0].key == key then Some(history[0].duration)
    else Lookup(history[1..], key)
  }

  function Durations(history: seq<Entry>): seq<real> {
    seq(|history|, i requires 0 <= i < |history| => history[i].duration)
  }

  function DurationOf(history: seq<Entry>, key: string): real {
    match Lookup(history, key)
    case Some(duration) => duration
    case None => Median(Durations(history))
  }

  function Unranked(selections: seq<Selection>, history: seq<Entry>): seq<Entry> {
    seq(|selections|, i requires 0 <= i < |selections| =>
      Entry(selections[i].key, DurationOf(history, selections[i].key)))
  }

  predicate HasAnyHistory(selections: seq<Selection>, history: seq<Entry>) {
    exists i :: 0 <= i < |selections| && Lookup(history, selections[i].key).Some?
  }

  function RankedSelections(selections: seq<Selection>, history: seq<Entry>, locale: Locale): Option<seq<Entry>> {
    if HasAnyHistory(selections, history)
    then Some(SortRanked(locale, Unranked(selections, history)))
    else None
  }

  // ---------------------------------------------------------------- the greedy assignment

  function FirstMinimum(totals: seq<real>): (target: nat)
    requires totals != []
    ensures target < |totals|
    ensures forall s :: 0 <= s < |totals| ==> totals[target] <= totals[s]
    ensures forall s :: 0 <= s < target ==> totals[target] < totals[s]
  {
    if |totals| == 1 then 0
    else
      var before := FirstMinimum(totals[..|totals| - 1]);
      if totals[|totals| - 1] < totals[before] then |totals| - 1 else before
  }

  method LeastLoadedShard(totals: array<real>) returns (target: nat)
    requires totals.Length > 0
    ensures target < totals.Length && target == FirstMinimum(totals[..])
  {
    target := 0;
    for index := 1 to totals.Length
      invariant target < index && target == FirstMinimum(totals[..index])
    {
      assert totals[..index + 1][..index] == totals[..index];
      if totals[index] < totals[target] {
        target := index;
      }
    }
    assert totals[..] == totals[..totals.Length];
  }

  /** The work that assignment `a` of the first |a| durations puts on one shard. */
  function Load(ds: seq<real>, a: seq<nat>, shard: nat): real
    requires |ds| == |a|
  {
    if ds == [] then 0.0
    else
      var n := |ds| - 1;
      Load(ds[..n], a[..n], shard) + (if a[n] == shard then ds[n] else 0.0)
  }

  function Loads(ds: seq<real>, a: seq<nat>, shards: nat): (r: seq<real>)
    requires |ds| == |a|
    ensures |r| == shards && forall s :: 0 <= s < shards ==> r[s] == Load(ds, a, s)
  {
    seq(shards, s requires 0 <= s < shards => Load(ds, a, s))
  }

  function Greedy(ds: seq<real>, shards: nat): (a: seq<nat>)
    requires shards > 0
    ensures |a| == |ds| && forall i :: 0 <= i < |a| ==> a[i] < shards
  {
    if ds == [] then []
    else
      var n := |ds| - 1;
      var a := Greedy(ds[..n], shards);
      a + [FirstMinimum(Loads(ds[..n], a, shards))]
  }

  function AssignmentMap(keys: seq<string>, a: seq<nat>): map<string, nat>
    requires |keys| == |a|
  {
    if keys == [] then map[]
    else
      var n := |keys| - 1;
      AssignmentMap(keys[..n], a[..n])[keys[n] := a[n]]
  }

  function Keys(ranked: seq<Entry>): seq<string> {
    seq(|ranked|, i requires 0 <= i < |ranked| => ranked[i].key)
  }

  function Assignments(ranked: seq<Entry>, shards: nat): map<string, nat>
    requires shards > 0
  {
    AssignmentMap(Keys(ranked), Greedy(Durations(ranked), shards))
  }

  lemma LoadStep(ds: seq<real>, a: seq<nat>, i: nat, target: nat, shard: nat)
    requires i < |ds| && |a| == i
    ensures Load(ds[..i + 1], a + [target], shard)
         == Load(ds[..i], a, shard) + (if target == shard then ds[i] else 0.0)
  {
    assert ds[..i + 1][..i] == ds[..i];
    assert (a + [target])[..i] == a;
  }

  /** `totals` holds the load of every shard, and `a` is the greedy assignment, after `ds`. */
  ghost predicate Tracks(totals: seq<real>, ds: seq<real>, a: seq<nat>)
  {
    && totals != [] && |a| == |ds|
    && a == Greedy(ds, |totals|)
    && forall s :: 0 <= s < |totals| ==> totals[s] == Load(ds, a, s)
  }

  lemma TracksStep(totals: seq<real>, ds: seq<real>, a: seq<nat>, i: nat, target: nat)
    requires i < |ds| && Tracks(totals, ds[..i], a) && target == FirstMinimum(totals)
    ensures Tracks(totals[target := totals[target] + ds[i]], ds[..i + 1], a + [target])
  {
    var next := totals[target := totals[target] + ds[i]];
    assert ds[..i + 1][..i] == ds[..i];
    assert Loads(ds[..i], a, |totals|) == totals;
    forall s | 0 <= s < |totals| ensures next[s] == Load(ds[..i + 1], a + [target], s) {
      LoadStep(ds, a, i, target, s);
    }
  }

  lemma AssignmentMapStep(keys: seq<string>, a: seq<nat>, i: nat, target: nat)
    requires i < |keys| && |a| == i
    ensures AssignmentMap(keys[..i + 1], a + [target]) == AssignmentMap(keys[..i], a)[keys[i] := target]
  {
    assert keys[..i + 1][..i] == keys[..i];
    assert (a + [target])[..i] == a;
  }

  method DurationAssignments(ranked: seq<Entry>, shardCount: nat) returns (assignments: map<string, nat>)
    requires shardCount > 0
    ensures assignments == Assignments(ranked, shardCount)
  {
    hide FirstMinimum;
    var totals := new real[shardCount](_ => 0.0);
    assignments := map[];
    ghost var ds, keys := Durations(ranked), Keys(ranked);
    ghost var a: seq<nat> := [];
    for i := 0 to |ranked|
      invariant Tracks(totals[..], ds[..i], a)
      invariant assignments == AssignmentMap(keys[..i], a)
    {
      ghost var before := totals[..];
      var target := LeastLoadedShard(totals);
      TracksStep(before, ds, a, i, target);
      AssignmentMapStep(keys, a, i, target);
      assignments := assignments[ranked[i].key := target];
      totals[target] := totals[target] + ranked[i].duration;
      assert totals[..] == before[target := before[target] + ds[i]];
      a := a + [target];
    }
    assert ds[..|ranked|] == ds && keys[..|ranked|] == keys;
  }

  // ---------------------------------------------------------------- selection

  function Filter<T>(xs: seq<T>, keep: T -> bool): seq<T> {
    if xs == [] then []
    else (if keep(xs[0]) then [xs[0]] else []) + Filter(xs[1..], keep)
  }

  /** Keeps the elements whose position is `residue` modulo `total`, the first one at `offset`. */
  function EveryNth(xs: seq<Selection>, residue: nat, total: nat, offset: nat): seq<Selection>
    requires total > 0
  {
    if xs == [] then []
    else (if offset % total == residue then [xs[0]] else []) + EveryNth(xs[1..], residue, total, offset + 1)
  }

  function ShardByCount(selections: seq<Selection>, shard: Shard): seq<Selection>
    requires shard.Valid()
  {
    EveryNth(selections, shard.index - 1, shard.total, 0)
  }

  function ShardByDuration(selections: seq<Selection>, shard: Shard, history: seq<Entry>,
          locale: Locale): seq<Selection>
    requires shard.Valid()
  {
    match RankedSelections(selections, history, locale)
    case None => ShardByCount(selections, shard)
    case Some(ranked) =>
      var assignments := Assignments(ranked, shard.total);
      Filter(selections, (s: Selection) => s.key in assignments && assignments[s.key] == shard.index - 1)
  }

  function Sharded(shardable: seq<Selection>, shard: Shard, history: Option<seq<Entry>>, locale: Locale): seq<Selection>
    requires shard.Valid()
  {
    match history
    case Some(durations) => ShardByDuration(shardable, shard, durations, locale)
    case None => ShardByCount(shardable, shard)
  }

  function KeySet(selections: seq<Selection>): set<string> {
    set s | s in selections :: s.key
  }

  function Shardable(selected: seq<Selection>): seq<Selection> {
    Filter(selected, (s: Selection) => !s.ignored)
  }

  function SelectShard(selected: seq<Selection>, shard: Shard, history: Option<seq<Entry>>,
          locale: Locale): seq<Selection>
    requires shard.Valid()
  {
    var keys := KeySet(Sharded(Shardable(selected), shard, history, locale));
    Filter(selected, (s: Selection) => s.key in keys)
  }

  // ---------------------------------------------------------------- sorting lemmas

  lemma {:induction false} InsertAscendingPermutes(x: real, xs: seq<real>)
    ensures |InsertAscending(x, xs)| == |xs| + 1
    ensures multiset(InsertAscending(x, xs)) == multiset([x] + xs)
  {
    if xs != [] && x > xs[0] {
      InsertAscendingPermutes(x, xs[1..]);
      assert xs == [xs[0]] + xs[1..];
    }
  }

  lemma {:induction false} SortAscendingPermutes(xs: seq<real>)
    ensures |SortAscending(xs)| == |xs|
    ensures multiset(SortAscending(xs)) == multiset(xs)
  {
    if xs != [] {
      SortAscendingPermutes(xs[1..]);
      InsertAscendingPermutes(xs[0], SortAscending(xs[1..]));
      assert xs == [xs[0]] + xs[1..];
    }
  }

  // ---------------------------------------------------------------- work is conserved

  function Sum(ds: seq<real>): real {
    if ds == [] then 0.0 else Sum(ds[..|ds| - 1]) + ds[|ds| - 1]
  }

  /** The work on shards 0 to m - 1 together. */
  function SumOfLoads(ds: seq<real>, a: seq<nat>, m: nat): real
    requires |ds| == |a|
  {
    if m == 0 then 0.0 else SumOfLoads(ds, a, m - 1) + Load(ds, a, m - 1)
  }

  ghost predicate InRange(a: seq<nat>, m: nat) {
    forall i :: 0 <= i < |a| ==> a[i] < m
  }

  lemma {:induction false} SumOfLoadsStep(ds: seq<real>, a: seq<nat>, m: nat)
    requires |ds| == |a| > 0
    ensures SumOfLoads(ds, a, m)
         == SumOfLoads(ds[..|ds| - 1], a[..|ds| - 1], m) + (if a[|ds| - 1] < m then ds[|ds| - 1] else 0.0)
  {
    if m > 0 {
      SumOfLoadsStep(ds, a, m - 1);
    }
  }

  /** However work is assigned, the shards together carry all of it. */
  lemma {:induction false} LoadsAddUp(ds: seq<real>, a: seq<nat>, m: nat)
    requires |ds| == |a| && InRange(a, m)
    ensures SumOfLoads(ds, a, m) == Sum(ds)
  {
    if ds == [] {
      EmptyLoads(ds, a, m);
    } else {
      SumOfLoadsStep(ds, a, m);
      LoadsAddUp(ds[..|ds| - 1], a[..|ds| - 1], m);
    }
  }

  lemma {:induction false} EmptyLoads(ds: seq<real>, a: seq<nat>, m: nat)
    requires |ds| == |a| == 0
    ensures SumOfLoads(ds, a, m) == 0.0
  {
    if m > 0 {
      EmptyLoads(ds, a, m - 1);
    }
  }

  lemma {:induction false} LoadsAtMost(ds: seq<real>, a: seq<nat>, m: nat, bound: real)
    requires |ds| == |a| && forall s: nat :: s < m ==> Load(ds, a, s) <= bound
    ensures SumOfLoads(ds, a, m) <= m as real * bound
  {
    if m > 0 {
      LoadsAtMost(ds, a, m - 1, bound);
      assert m as real * bound == (m - 1) as real * bound + bound;
    }
  }

  lemma {:induction false} LoadsAtLeast(ds: seq<real>, a: seq<nat>, m: nat, bound: real)
    requires |ds| == |a| && forall s: nat :: s < m ==> Load(ds, a, s) >= bound
    ensures SumOfLoads(ds, a, m) >= m as real * bound
  {
    if m > 0 {
      LoadsAtLeast(ds, a, m - 1, bound);
      assert m as real * bound == (m - 1) as real * bound + bound;
    }
  }

  lemma {:induction false} LoadNonNegative(ds: seq<real>, a: seq<nat>, s: nat)
    requires |ds| == |a| && forall i :: 0 <= i < |ds| ==> ds[i] >= 0.0
    ensures Load(ds, a, s) >= 0.0
  {
    if ds != [] {
      LoadNonNegative(ds[..|ds| - 1], a[..|ds| - 1], s);
    }
  }

  // ---------------------------------------------------------------- the list-scheduling bound

  /** The shard that the greedy gives the last job to, and its load before that job. */
  ghost function LastTarget(ds: seq<real>, m: nat): nat
    requires ds != [] && m > 0
  {
    Greedy(ds, m)[|ds| - 1]
  }

  ghost function LastLoad(ds: seq<real>, m: nat): real
    requires ds != [] && m > 0
  {
    Load(ds[..|ds| - 1], Greedy(ds[..|ds| - 1], m), LastTarget(ds, m))
  }

  lemma GreedyUnfold(ds: seq<real>, m: nat)
    requires ds != [] && m > 0
    ensures Greedy(ds, m)[..|ds| - 1] == Greedy(ds[..|ds| - 1], m)
    ensures LastTarget(ds, m) < m
    ensures LastTarget(ds, m) == FirstMinimum(Loads(ds[..|ds| - 1], Greedy(ds[..|ds| - 1], m), m))
  {
  }

  lemma LastLoadIsLeast(ds: seq<real>, m: nat, s: nat)
    requires ds != [] && m > 0 && s < m
    ensures LastLoad(ds, m) <= Load(ds[..|ds| - 1], Greedy(ds[..|ds| - 1], m), s)
  {
    GreedyUnfold(ds, m);
    var totals := Loads(ds[..|ds| - 1], Greedy(ds[..|ds| - 1], m), m);
    assert totals[FirstMinimum(totals)] <= totals[s];
  }

  lemma LastLoadIsBelowMean(ds: seq<real>, m: nat)
    requires ds != [] && m > 0
    ensures m as real * LastLoad(ds, m) <= Sum(ds[..|ds| - 1])
  {
    hide Load, Greedy, LastLoad, Sum, SumOfLoads;
    var before := ds[..|ds| - 1];
    var a := Greedy(before, m);
    forall s: nat | s < m ensures Load(before, a, s) >= LastLoad(ds, m) {
      LastLoadIsLeast(ds, m, s);
    }
    LoadsAtLeast(before, a, m, LastLoad(ds, m));
    LoadsAddUp(before, a, m);
  }

  /** The last job raises the load of its target only. */
  lemma LoadAfterLast(ds: seq<real>, m: nat, s: nat)
    requires ds != [] && m > 0
    ensures Load(ds, Greedy(ds, m), s)
         == if s == LastTarget(ds, m) then LastLoad(ds, m) + ds[|ds| - 1]
            else Load(ds[..|ds| - 1], Greedy(ds[..|ds| - 1], m), s)
  {
    GreedyUnfold(ds, m);
  }

  ghost predicate WithinListBound(m: real, load: real, sum: real, longest: real) {
    m * load <= sum + (m - 1.0) * longest
  }

  lemma EmptyListBound(m: real, longest: real)
    requires m >= 1.0 && longest >= 0.0
    ensures WithinListBound(m, 0.0, 0.0, longest)
  {
  }

  lemma ListBoundGrows(m: real, load: real, d: real, sum: real, longest: real)
    requires d >= 0.0 && WithinListBound(m, load, sum, longest)
    ensures WithinListBound(m, load, sum + d, longest)
  {
  }

  lemma ListBoundByMean(m: real, load: real, d: real, sum: real, longest: real)
    requires m >= 1.0 && m * load <= sum && d <= longest
    ensures WithinListBound(m, load + d, sum + d, longest)
  {
    assert m * (load + d) == m * load + d + (m - 1.0) * d;
    assert (m - 1.0) * d <= (m - 1.0) * longest;
  }

  lemma ListBoundForLast(ds: seq<real>, m: nat, longest: real)
    requires ds != [] && m > 0 && ds[|ds| - 1] <= longest
    ensures WithinListBound(m as real, LastLoad(ds, m) + ds[|ds| - 1], Sum(ds), longest)
  {
    hide Greedy, LastLoad, WithinListBound;
    LastLoadIsBelowMean(ds, m);
    ListBoundByMean(m as real, LastLoad(ds, m), ds[|ds| - 1], Sum(ds[..|ds| - 1]), longest);
  }

  /** Greedy assignment in any order: m * load <= sum + (m - 1) * longest. */
  lemma {:induction false} ListSchedulingBound(ds: seq<real>, m: nat, longest: real, s: nat)
    requires m > 0 && s < m && longest >= 0.0
    requires forall i :: 0 <= i < |ds| ==> 0.0 <= ds[i] <= longest
    ensures WithinListBound(m as real, Load(ds, Greedy(ds, m), s), Sum(ds), longest)
  {
    hide Greedy, LastLoad, LastTarget, WithinListBound;
    if ds == [] {
      EmptyListBound(m as real, longest);
    } else {
      var n := |ds| - 1;
      LoadAfterLast(ds, m, s);
      if s == LastTarget(ds, m) {
        ListBoundForLast(ds, m, longest);
      } else {
        ListSchedulingBound(ds[..n], m, longest, s);
        ListBoundGrows(m as real, Load(ds[..n], Greedy(ds[..n], m), s), ds[n], Sum(ds[..n]), longest);
      }
    }
  }

  // ---------------------------------------------------------------- Graham's bound for longest first

  /** A job is heavy (weight 2) when it cannot share a shard of capacity T with a job of length d. */
  function Weights(ds: seq<real>, d: real, T: real): (ws: seq<real>)
    ensures |ws| == |ds|
    ensures forall i :: 0 <= i < |ds| ==> ws[i] == if ds[i] + d > T then 2.0 else 1.0
  {
    seq(|ds|, i requires 0 <= i < |ds| => if ds[i] + d > T then 2.0 else 1.0)
  }

  /** How the weight of a shard tells its load apart, when every job has at least length d > T / 3. */
  lemma {:induction false} WeightOfLoad(ds: seq<real>, a: seq<nat>, s: nat, d: real, T: real)
    requires |ds| == |a| && 0.0 < d <= T < 3.0 * d
    requires forall i :: 0 <= i < |ds| ==> ds[i] >= d
    ensures
      var load, weight := Load(ds, a, s), Load(Weights(ds, d, T), a, s);
      || (weight == 0.0 && load == 0.0)
      || (weight == 1.0 && d <= load <= T - d)
      || (weight == 2.0 && load > T - d)
      || (weight >= 3.0 && load > T)
  {
    if ds != [] {
      var n := |ds| - 1;
      WeightOfLoad(ds[..n], a[..n], s, d, T);
      assert Weights(ds, d, T)[..n] == Weights(ds[..n], d, T);
    }
  }

  lemma AlternativeIsLight(ds: seq<real>, m: nat, alt: seq<nat>, d: real, T: real)
    requires |alt| == |ds| && InRange(alt, m) && 0.0 < d <= T < 3.0 * d
    requires forall i :: 0 <= i < |ds| ==> ds[i] >= d
    requires forall s: nat :: s < m ==> Load(ds, alt, s) <= T
    ensures Sum(Weights(ds, d, T)) <= m as real * 2.0
  {
    hide Load, SumOfLoads, Sum, Weights;
    var ws := Weights(ds, d, T);
    forall s: nat | s < m ensures Load(ws, alt, s) <= 2.0 {
      WeightOfLoad(ds, alt, s, d, T);
    }
    LoadsAtMost(ws, alt, m, 2.0);
    LoadsAddUp(ws, alt, m);
  }

  lemma OverfullIsHeavy(ds: seq<real>, m: nat, a: seq<nat>, d: real, T: real)
    requires |a| == |ds| && InRange(a, m) && 0.0 < d <= T < 3.0 * d
    requires forall i :: 0 <= i < |ds| ==> ds[i] >= d
    requires forall s: nat :: s < m ==> Load(ds, a, s) > T - d
    ensures Sum(Weights(ds, d, T)) >= m as real * 2.0
  {
    hide Load, SumOfLoads, Sum, Weights;
    var ws := Weights(ds, d, T);
    forall s: nat | s < m ensures Load(ws, a, s) >= 2.0 {
      WeightOfLoad(ds, a, s, d, T);
    }
    LoadsAtLeast(ws, a, m, 2.0);
    LoadsAddUp(ws, a, m);
  }

  /** A job longer than a third of T never makes the greedy exceed T, if T is feasible at all. */
  lemma LongJobFits(ds: seq<real>, m: nat, alt: seq<nat>, T: real)
    requires ds != [] && m > 0 && |alt| == |ds| && InRange(alt, m)
    requires forall i :: 0 <= i < |ds| ==> ds[i] >= ds[|ds| - 1] > 0.0
    requires forall s: nat :: s < m ==> Load(ds, alt, s) <= T
    requires T < 3.0 * ds[|ds| - 1]
    ensures LastLoad(ds, m) + ds[|ds| - 1] <= T
  {
    var n := |ds| - 1;
    var before, d := ds[..n], ds[n];
    LoadNonNegative(before, alt[..n], alt[n]);
    assert Load(ds, alt, alt[n]) >= d;
    assert Weights(ds, d, T)[..n] == Weights(before, d, T);
    if LastLoad(ds, m) + d > T {
      AlternativeIsLight(ds, m, alt, d, T);
      forall s: nat | s < m ensures Load(before, Greedy(before, m), s) > T - d {
        LastLoadIsLeast(ds, m, s);
      }
      OverfullIsHeavy(before, m, Greedy(before, m), d, T);
      assert false;
    }
  }

  /** load <= (4/3 - 1/(3m)) * T */
  ghost predicate WithinGrahamBound(m: real, load: real, T: real) {
    3.0 * m * load <= (4.0 * m - 1.0) * T
  }

  lemma ShortJobArithmetic(m: real, load: real, d: real, sum: real, T: real)
    requires m >= 1.0 && 3.0 * d <= T && m * load <= sum && sum + d <= m * T
    ensures WithinGrahamBound(m, load + d, T)
  {
    assert 3.0 * m * (load + d) == 3.0 * (m * load) + 3.0 * d + (m - 1.0) * (3.0 * d);
    assert (m - 1.0) * (3.0 * d) <= (m - 1.0) * T;
    assert (4.0 * m - 1.0) * T == 3.0 * (m * T) + (m - 1.0) * T;
  }

  lemma LongJobArithmetic(m: real, load: real, T: real)
    requires m >= 1.0 && load <= T && T >= 0.0
    ensures WithinGrahamBound(m, load, T)
  {
    assert m * load <= m * T;
    assert (4.0 * m - 1.0) * T == 3.0 * (m * T) + (m - 1.0) * T;
    assert (m - 1.0) * T >= 0.0;
  }

  ghost predicate Feasible(ds: seq<real>, m: nat, alt: seq<nat>, T: real) {
    |alt| == |ds| && InRange(alt, m) && forall s: nat :: s < m ==> Load(ds, alt, s) <= T
  }

  ghost predicate LongestFirst(ds: seq<real>) {
    && (forall i :: 0 <= i < |ds| ==> ds[i] >= 0.0)
    && (forall i, j :: 0 <= i < j < |ds| ==> ds[i] >= ds[j])
  }

  lemma FeasibleSum(ds: seq<real>, m: nat, alt: seq<nat>, T: real)
    requires Feasible(ds, m, alt, T)
    ensures Sum(ds) <= m as real * T
  {
    LoadsAtMost(ds, alt, m, T);
    LoadsAddUp(ds, alt, m);
  }

  lemma LastJobShort(ds: seq<real>, m: nat, alt: seq<nat>, T: real)
    requires ds != [] && m > 0 && Feasible(ds, m, alt, T)
    requires 3.0 * ds[|ds| - 1] <= T
    ensures WithinGrahamBound(m as real, LastLoad(ds, m) + ds[|ds| - 1], T)
  {
    hide Load, Greedy, LastLoad, WithinGrahamBound;
    FeasibleSum(ds, m, alt, T);
    LastLoadIsBelowMean(ds, m);
    ShortJobArithmetic(m as real, LastLoad(ds, m), ds[|ds| - 1], Sum(ds[..|ds| - 1]), T);
  }

  lemma FeasiblePrefix(ds: seq<real>, m: nat, alt: seq<nat>, T: real)
    requires ds != [] && LongestFirst(ds) && Feasible(ds, m, alt, T)
    ensures Feasible(ds[..|ds| - 1], m, alt[..|ds| - 1], T)
  {
    var before, a := ds[..|ds| - 1], alt[..|ds| - 1];
    forall s: nat | s < m ensures Load(before, a, s) <= T {
      assert Load(before, a, s) <= Load(ds, alt, s);
    }
  }

  lemma LastJobBound(ds: seq<real>, m: nat, alt: seq<nat>, T: real)
    requires ds != [] && m > 0 && LongestFirst(ds) && Feasible(ds, m, alt, T)
    ensures WithinGrahamBound(m as real, LastLoad(ds, m) + ds[|ds| - 1], T)
  {
    LoadNonNegative(ds, alt, 0);
    if 3.0 * ds[|ds| - 1] <= T {
      LastJobShort(ds, m, alt, T);
    } else {
      LongJobFits(ds, m, alt, T);
      LongJobArithmetic(m as real, LastLoad(ds, m) + ds[|ds| - 1], T);
    }
  }

  /**
   Graham's bound: longest-first greedy is within 4/3 - 1/(3m) of every other assignment.
   `alt` is any assignment of the same jobs and T any capacity that suffices for it.
   */
  lemma {:induction false} LongestFirstBound(ds: seq<real>, m: nat, alt: seq<nat>, T: real, s: nat)
    requires m > 0 && s < m && LongestFirst(ds) && Feasible(ds, m, alt, T)
    ensures WithinGrahamBound(m as real, Load(ds, Greedy(ds, m), s), T)
  {
    if ds == [] {
      LoadNonNegative(ds, alt, s);
      LongJobArithmetic(m as real, 0.0, T);
    } else {
      LoadAfterLast(ds, m, s);
      if s == LastTarget(ds, m) {
        LastJobBound(ds, m, alt, T);
      } else {
        FeasiblePrefix(ds, m, alt, T);
        LongestFirstBound(ds[..|ds| - 1], m, alt[..|ds| - 1], T, s);
      }
    }
  }

  // ---------------------------------------------------------------- the bound on real selections

  lemma {:induction false} InsertRankedPermutes(locale: Locale, x: Entry, xs: seq<Entry>)
    ensures multiset(InsertRanked(locale, x, xs)) == multiset([x] + xs)
    ensures |InsertRanked(locale, x, xs)| == |xs| + 1
  {
    if xs != [] && !RanksBefore(locale, x, xs[0]) {
      InsertRankedPermutes(locale, x, xs[1..]);
      assert xs == [xs[0]] + xs[1..];
    }
  }

  lemma {:induction false} InsertRankedDescends(locale: Locale, x: Entry, xs: seq<Entry>)
    requires Descending(xs)
    ensures Descending(InsertRanked(locale, x, xs))
  {
    if xs != [] && !RanksBefore(locale, x, xs[0]) {
      var rest := InsertRanked(locale, x, xs[1..]);
      InsertRankedDescends(locale, x, xs[1..]);
      InsertRankedPermutes(locale, x, xs[1..]);
      forall j | 0 <= j < |rest| ensures xs[0].duration >= rest[j].duration {
        assert rest[j] in multiset(rest);
        assert rest[j] == x || rest[j] in xs[1..];
      }
    }
  }

  /** The ranking is a permutation of its input, longest first, whatever the locale order is. */
  lemma {:induction false} RankingSorts(locale: Locale, xs: seq<Entry>)
    ensures Descending(SortRanked(locale, xs))
    ensures multiset(SortRanked(locale, xs)) == multiset(xs)
    ensures |SortRanked(locale, xs)| == |xs|
  {
    if xs != [] {
      RankingSorts(locale, xs[1..]);
      InsertRankedDescends(locale, xs[0], SortRanked(locale, xs[1..]));
      InsertRankedPermutes(locale, xs[0], SortRanked(locale, xs[1..]));
      assert xs == [xs[0]] + xs[1..];
    }
  }

  lemma {:induction false} LookupIsListed(history: seq<Entry>, key: string)
    ensures Lookup(history, key).Some? ==> Lookup(history, key).value in Durations(history)
  {
    if history != [] {
      LookupIsListed(history[1..], key);
      assert Durations(history)[1..] == Durations(history[1..]);
      assert Durations(history)[0] == history[0].duration;
    }
  }

  /** The fallback duration lies between any bounds of the recorded durations. */
  lemma MedianWithinBounds(values: seq<real>, low: real, high: real)
    requires values != [] && forall v :: v in values ==> low <= v <= high
    ensures low <= Median(values) <= high
  {
    var sorted := SortAscending(values);
    SortAscendingPermutes(values);
    assert forall v :: v in multiset(sorted) ==> v in values;
    forall i | 0 <= i < |sorted| ensures low <= sorted[i] <= high {
      assert sorted[i] in multiset(sorted);
    }
  }

  datatype Half = Below | Above

  predicate LiesIn(half: Half, v: real, middle: real) {
    if half.Below? then v < middle else v > middle
  }

  function CountIn(half: Half, values: seq<real>, middle: real): nat {
    if values == [] then 0
    else (if LiesIn(half, values[0], middle) then 1 else 0) + CountIn(half, values[1..], middle)
  }

  ghost predicate Ascending(xs: seq<real>) {
    forall i, j :: 0 <= i < j < |xs| ==> xs[i] <= xs[j]
  }

  lemma {:induction false} InsertAscends(x: real, xs: seq<real>, half: Half, middle: real)
    requires Ascending(xs)
    ensures Ascending(InsertAscending(x, xs))
    ensures forall v :: v in InsertAscending(x, xs) ==> v == x || v in xs
    ensures CountIn(half, InsertAscending(x, xs), middle) == CountIn(half, [x] + xs, middle)
  {
    assert ([x] + xs)[1..] == xs;
    if xs != [] && InsertAscending(x, xs) != [x] + xs {
      InsertAscends(x, xs[1..], half, middle);
      assert ([x] + xs[1..])[1..] == xs[1..];
    }
  }

  lemma {:induction false} SortAscends(xs: seq<real>, half: Half, middle: real)
    ensures Ascending(SortAscending(xs)) && CountIn(half, SortAscending(xs), middle) == CountIn(half, xs, middle)
  {
    if xs != [] {
      SortAscends(xs[1..], half, middle);
      InsertAscends(xs[0], SortAscending(xs[1..]), half, middle);
      assert ([xs[0]] + SortAscending(xs[1..]))[1..] == SortAscending(xs[1..]);
    }
  }

  lemma {:induction false} FewBelow(xs: seq<real>, middle: real, k: nat)
    requires k <= |xs| && forall i :: k <= i < |xs| ==> xs[i] >= middle
    ensures CountIn(Below, xs, middle) <= k
  {
    if xs != [] {
      FewBelow(xs[1..], middle, if k == 0 then 0 else k - 1);
    }
  }

  lemma {:induction false} FewAbove(xs: seq<real>, middle: real, k: nat)
    requires k <= |xs| && forall i :: 0 <= i < k ==> xs[i] <= middle
    ensures CountIn(Above, xs, middle) <= |xs| - k
  {
    if xs != [] {
      FewAbove(xs[1..], middle, if k == 0 then 0 else k - 1);
    }
  }

  /** The fallback duration is a median: at most half of the values lie on either side of it. */
  lemma MedianHalves(values: seq<real>)
    ensures 2 * CountIn(Below, values, Median(values)) <= |values|
    ensures 2 * CountIn(Above, values, Median(values)) <= |values|
  {
    if values != [] {
      var sorted, m := SortAscending(values), Median(values);
      SortAscendingPermutes(values);
      SortAscends(values, Below, m);
      SortAscends(values, Above, m);
      MiddleOf(sorted, m);
      hide Median, SortAscending, Ascending, CountIn;
      FewBelow(sorted, m, |sorted| / 2);
      FewAbove(sorted, m, |sorted| - |sorted| / 2);
    }
  }

  lemma MiddleOf(sorted: seq<real>, m: real)
    requires sorted != [] && Ascending(sorted)
    requires
      var middle := |sorted| / 2;
      m == if |sorted| % 2 == 0 then (sorted[middle - 1] + sorted[middle]) / 2.0 else sorted[middle]
    ensures forall i :: |sorted| / 2 <= i < |sorted| ==> sorted[i] >= m
    ensures forall i :: 0 <= i < |sorted| - |sorted| / 2 ==> sorted[i] <= m
  {
  }

  ghost predicate NonNegative(history: seq<Entry>) {
    forall i :: 0 <= i < |history| ==> history[i].duration >= 0.0
  }

  lemma DurationNonNegative(history: seq<Entry>, key: string)
    requires NonNegative(history)
    ensures DurationOf(history, key) >= 0.0
  {
    LookupIsListed(history, key);
    if history != [] {
      MedianWithinBounds(Durations(history), 0.0, UpperBound(Durations(history)));
    }
  }

  function UpperBound(values: seq<real>): (high: real)
    ensures forall v :: v in values ==> v <= high
  {
    if values == [] then 0.0
    else
      var rest := UpperBound(values[1..]);
      assert forall v :: v in values ==> v == values[0] || v in values[1..];
      if values[0] > rest then values[0] else rest
  }

  /** The work that a key-to-shard map puts on one shard. */
  function Share(entries: seq<Entry>, assignment: map<string, nat>, shard: nat): real {
    if entries == [] then 0.0
    else
      (if entries[0].key in assignment && assignment[entries[0].key] == shard then entries[0].duration else 0.0)
      + Share(entries[1..], assignment, shard)
  }

  lemma {:induction false} ShareOfInsert(locale: Locale, x: Entry, xs: seq<Entry>, assignment: map<string, nat>,
          shard: nat)
    ensures Share(InsertRanked(locale, x, xs), assignment, shard) == Share([x] + xs, assignment, shard)
  {
    if xs != [] && !RanksBefore(locale, x, xs[0]) {
      ShareOfInsert(locale, x, xs[1..], assignment, shard);
      assert ([x] + xs)[1..] == xs && ([x] + xs[1..])[1..] == xs[1..];
    }
  }

  lemma {:induction false} ShareOfSort(locale: Locale, xs: seq<Entry>, assignment: map<string, nat>, shard: nat)
    ensures Share(SortRanked(locale, xs), assignment, shard) == Share(xs, assignment, shard)
  {
    if xs != [] {
      ShareOfSort(locale, xs[1..], assignment, shard);
      ShareOfInsert(locale, xs[0], SortRanked(locale, xs[1..]), assignment, shard);
      assert ([xs[0]] + SortRanked(locale, xs[1..]))[1..] == SortRanked(locale, xs[1..]);
    }
  }

  lemma {:induction false} ShareOfLast(entries: seq<Entry>, assignment: map<string, nat>, shard: nat)
    requires entries != []
    ensures
      var last := entries[|entries| - 1];
      Share(entries, assignment, shard)
      == Share(entries[..|entries| - 1], assignment, shard)
         + (if last.key in assignment && assignment[last.key] == shard then last.duration else 0.0)
  {
    if |entries| > 1 {
      ShareOfLast(entries[1..], assignment, shard);
      assert entries[1..][..|entries| - 2] == entries[..|entries| - 1][1..];
    }
  }

  ghost predicate Assigns(assignment: map<string, nat>, entries: seq<Entry>, a: seq<nat>) {
    |a| == |entries|
    && forall i :: 0 <= i < |entries| ==> entries[i].key in assignment && assignment[entries[i].key] == a[i]
  }

  lemma {:induction false} ShareIsLoad(entries: seq<Entry>, assignment: map<string, nat>, a: seq<nat>, shard: nat)
    requires Assigns(assignment, entries, a)
    ensures Share(entries, assignment, shard) == Load(Durations(entries), a, shard)
  {
    if entries != [] {
      var n := |entries| - 1;
      ShareOfLast(entries, assignment, shard);
      ShareIsLoad(entries[..n], assignment, a[..n], shard);
      assert Durations(entries)[..n] == Durations(entries[..n]);
    }
  }

  lemma {:induction false} DistinctKeysKeepAssignments(keys: seq<string>, a: seq<nat>)
    requires |keys| == |a| && forall i, j :: 0 <= i < j < |keys| ==> keys[i] != keys[j]
    ensures forall i :: 0 <= i < |keys| ==> keys[i] in AssignmentMap(keys, a) && AssignmentMap(keys, a)[keys[i]] == a[i]
  {
    if keys != [] {
      DistinctKeysKeepAssignments(keys[..|keys| - 1], a[..|keys| - 1]);
    }
  }

  lemma PairInMultiset(ys: seq<Entry>, i: nat, j: nat)
    requires i < j < |ys|
    ensures multiset{ys[i], ys[j]} <= multiset(ys)
  {
    assert ys == ys[..i] + ([ys[i]] + ys[i + 1..j] + [ys[j]]) + ys[j + 1..];
    var middle := [ys[i]] + ys[i + 1..j] + [ys[j]];
    assert multiset(middle) == multiset{ys[i]} + multiset(ys[i + 1..j]) + multiset{ys[j]};
    assert multiset(ys) == multiset(ys[..i]) + multiset(middle) + multiset(ys[j + 1..]);
  }

  lemma SortKeepsDistinctKeys(locale: Locale, xs: seq<Entry>)
    requires DistinctKeys(xs)
    ensures DistinctKeys(SortRanked(locale, xs))
  {
    hide SortRanked;
    var ys := SortRanked(locale, xs);
    RankingSorts(locale, xs);
    forall i, j | 0 <= i < j < |ys| ensures ys[i].key != ys[j].key {
      PairInMultiset(ys, i, j);
      DistinctElements(xs, ys[i], ys[j]);
    }
  }

  lemma {:induction false} AtMostOnce(xs: seq<Entry>, e: Entry)
    requires DistinctKeys(xs)
    ensures multiset(xs)[e] <= 1
  {
    if xs != [] {
      AtMostOnce(xs[1..], e);
      assert xs == [xs[0]] + xs[1..];
      assert e == xs[0] ==> e !in xs[1..];
    }
  }

  lemma DistinctElements(xs: seq<Entry>, e: Entry, f: Entry)
    requires DistinctKeys(xs) && multiset(xs) >= multiset{e, f}
    ensures e.key != f.key
  {
    AtMostOnce(xs, e);
    assert multiset{e, f}[e] <= multiset(xs)[e];
    assert e != f;
    assert e in multiset{e, f} && f in multiset{e, f};
    assert e in xs && f in xs;
  }

  function Work(history: seq<Entry>, selections: seq<Selection>): real {
    if selections == [] then 0.0
    else DurationOf(history, selections[0].key) + Work(history, selections[1..])
  }

  lemma {:induction false} WorkOfFilter(history: seq<Entry>, selections: seq<Selection>, assignment: map<string, nat>,
          shard: nat)
    ensures Work(history, Filter(selections, (s: Selection) => s.key in assignment && assignment[s.key] == shard))
         == Share(Unranked(selections, history), assignment, shard)
  {
    if selections != [] {
      WorkOfFilter(history, selections[1..], assignment, shard);
      assert Unranked(selections, history)[1..] == Unranked(selections[1..], history);
      var keep := (s: Selection) => s.key in assignment && assignment[s.key] == shard;
      assert ([selections[0]] + Filter(selections[1..], keep))[1..] == Filter(selections[1..], keep);
      assert [] + Filter(selections[1..], keep) == Filter(selections[1..], keep);
    }
  }

  ghost predicate DistinctSelections(selections: seq<Selection>) {
    forall i, j :: 0 <= i < j < |selections| ==> selections[i].key != selections[j].key
  }

  /**
   The shards that duration history produces are balanced: the work selected for a shard is
   within 4/3 - 1/(3 * total) of the capacity T of any other way to split the selections.
   */
  lemma DurationShardsAreBalanced(selections: seq<Selection>, history: seq<Entry>, locale: Locale, shard: Shard,
                                  other: map<string, nat>, T: real)
    requires shard.Valid() && DistinctSelections(selections) && NonNegative(history)
    requires HasAnyHistory(selections, history)
    requires forall x :: x in selections ==> x.key in other && other[x.key] < shard.total
    requires forall s: nat :: s < shard.total ==> Share(Unranked(selections, history), other, s) <= T
    ensures
      WithinGrahamBound(shard.total as real, Work(history, ShardByDuration(selections, shard, history, locale)), T)
  {
    hide Load, Greedy, Share, SortRanked, Work, ShardByDuration, Feasible, LongestFirst, WithinGrahamBound;
    var entries := Unranked(selections, history);
    var ranked := SortRanked(locale, entries);
    RankedIsLongestFirst(selections, history, locale);
    RankingSorts(locale, entries);
    var alt := OtherAssignment(ranked, other, shard.total, entries);
    OtherIsFeasible(locale, entries, other, shard.total, alt, T);
    LongestFirstBound(Durations(ranked), shard.total, alt, T, shard.index - 1);
    ShardWorkIsLoad(selections, history, locale, shard);
  }

  lemma RankedIsLongestFirst(selections: seq<Selection>, history: seq<Entry>, locale: Locale)
    requires NonNegative(history)
    ensures LongestFirst(Durations(SortRanked(locale, Unranked(selections, history))))
  {
    RankingSorts(locale, Unranked(selections, history));
    RankedDurationsNonNegative(selections, history, locale);
  }

  lemma OtherIsFeasible(locale: Locale, entries: seq<Entry>, other: map<string, nat>, m: nat, alt: seq<nat>, T: real)
    requires Assigns(other, SortRanked(locale, entries), alt) && InRange(alt, m)
    requires forall s: nat :: s < m ==> Share(entries, other, s) <= T
    ensures Feasible(Durations(SortRanked(locale, entries)), m, alt, T)
  {
    var ranked := SortRanked(locale, entries);
    var ds := Durations(ranked);
    forall s: nat | s < m ensures Load(ds, alt, s) <= T {
      ShareIsLoad(ranked, other, alt, s);
      ShareOfSort(locale, entries, other, s);
    }
  }

  lemma RankedDurationsNonNegative(selections: seq<Selection>, history: seq<Entry>, locale: Locale)
    requires NonNegative(history)
    ensures forall e :: e in SortRanked(locale, Unranked(selections, history)) ==> e.duration >= 0.0
  {
    var entries := Unranked(selections, history);
    RankingSorts(locale, entries);
    forall e | e in SortRanked(locale, entries) ensures e.duration >= 0.0 {
      assert e in multiset(entries);
      var i :| 0 <= i < |entries| && entries[i] == e;
      DurationNonNegative(history, selections[i].key);
    }
  }

  ghost function OtherAssignment(ranked: seq<Entry>, other: map<string, nat>, m: nat,
          entries: seq<Entry>): (a: seq<nat>)
    requires multiset(ranked) == multiset(entries)
    requires forall e :: e in entries ==> e.key in other && other[e.key] < m
    ensures Assigns(other, ranked, a) && InRange(a, m)
  {
    assert forall i :: 0 <= i < |ranked| ==> ranked[i] in multiset(entries);
    seq(|ranked|, i requires 0 <= i < |ranked| => other[ranked[i].key])
  }

  /** The work of the selections in a shard is the load that the greedy recorded for it. */
  lemma ShardWorkIsLoad(selections: seq<Selection>, history: seq<Entry>, locale: Locale, shard: Shard)
    requires shard.Valid() && DistinctSelections(selections) && HasAnyHistory(selections, history)
    ensures
      var ds := Durations(SortRanked(locale, Unranked(selections, history)));
      Work(history, ShardByDuration(selections, shard, history, locale))
      == Load(ds, Greedy(ds, shard.total), shard.index - 1)
  {
    hide SortRanked, Greedy, Load, Share, Work, Filter, AssignmentMap;
    var entries := Unranked(selections, history);
    var ranked := SortRanked(locale, entries);
    var assignments := Assignments(ranked, shard.total);
    SortKeepsDistinctKeys(locale, entries);
    DistinctKeysKeepAssignments(Keys(ranked), Greedy(Durations(ranked), shard.total));
    assert forall i :: 0 <= i < |ranked| ==> Keys(ranked)[i] == ranked[i].key;
    ShareIsLoad(ranked, assignments, Greedy(Durations(ranked), shard.total), shard.index - 1);
    ShareOfSort(locale, entries, assignments, shard.index - 1);
    WorkOfFilter(history, selections, assignments, shard.index - 1);
  }

  // ---------------------------------------------------------------- the shards partition the selection

  ghost predicate IsSubsequence<T>(xs: seq<T>, ys: seq<T>) {
    if xs == [] then true
    else if ys == [] then false
    else (xs[0] == ys[0] && IsSubsequence(xs[1..], ys[1..])) || IsSubsequence(xs, ys[1..])
  }

  lemma {:induction false} FilterIsSubsequence<T>(xs: seq<T>, keep: T -> bool)
    ensures IsSubsequence(Filter(xs, keep), xs)
  {
    if xs != [] {
      FilterIsSubsequence(xs[1..], keep);
      var rest := Filter(xs[1..], keep);
      if keep(xs[0]) {
        assert Filter(xs, keep) == [xs[0]] + rest;
      } else {
        assert Filter(xs, keep) == rest;
      }
    }
  }

  lemma {:induction false} FilterCounts<T>(xs: seq<T>, keep: T -> bool, x: T)
    ensures multiset(Filter(xs, keep))[x] == if keep(x) then multiset(xs)[x] else 0
  {
    if xs != [] {
      FilterCounts(xs[1..], keep, x);
      assert xs == [xs[0]] + xs[1..];
      if keep(xs[0]) {
        assert Filter(xs, keep) == [xs[0]] + Filter(xs[1..], keep);
      } else {
        assert Filter(xs, keep) == Filter(xs[1..], keep);
      }
    }
  }

  /** Filtering keeps the order and exactly the occurrences that pass. */
  lemma FilterKeepsOrder<T>(xs: seq<T>, keep: T -> bool)
    ensures IsSubsequence(Filter(xs, keep), xs)
    ensures forall x :: multiset(Filter(xs, keep))[x] == if keep(x) then multiset(xs)[x] else 0
    ensures forall x :: x in Filter(xs, keep) <==> x in xs && keep(x)
  {
    FilterIsSubsequence(xs, keep);
    forall x ensures multiset(Filter(xs, keep))[x] == if keep(x) then multiset(xs)[x] else 0 {
      FilterCounts(xs, keep, x);
    }
    forall x ensures x in Filter(xs, keep) <==> x in xs && keep(x) {
      FilterCounts(xs, keep, x);
      assert x in Filter(xs, keep) <==> multiset(Filter(xs, keep))[x] > 0;
      assert x in xs <==> multiset(xs)[x] > 0;
    }
  }

  lemma {:induction false} EveryNthTakes(xs: seq<Selection>, residue: nat, total: nat, offset: nat, x: Selection)
    requires total > 0
    ensures x in EveryNth(xs, residue, total, offset)
       <==> exists p :: 0 <= p < |xs| && xs[p] == x && (p + offset) % total == residue
  {
    if xs != [] {
      var rest := xs[1..];
      EveryNthTakes(rest, residue, total, offset + 1, x);
      assert EveryNth(xs, residue, total, offset)
          == (if offset % total == residue then [xs[0]] else []) + EveryNth(rest, residue, total, offset + 1);
      hide EveryNth;
      if x in EveryNth(rest, residue, total, offset + 1) {
        var p :| 0 <= p < |rest| && rest[p] == x && (p + (offset + 1)) % total == residue;
        assert xs[p + 1] == x && (p + 1 + offset) % total == residue;
      }
      if p :| 0 <= p < |xs| && xs[p] == x && (p + offset) % total == residue {
        if p > 0 {
          assert rest[p - 1] == x && (p - 1 + (offset + 1)) % total == residue;
        }
      }
    }
  }

  /** Shard `index` of `total` selects the scenarios whose key is `key`. */
  predicate Takes(selected: seq<Selection>, history: Option<seq<Entry>>, locale: Locale, shard: Shard, key: string)
    requires shard.Valid()
  {
    key in KeySet(Sharded(Shardable(selected), shard, history, locale))
  }

  /** A shard returns, in their original order, exactly the selected scenarios whose key it takes. */
  lemma ShardInOriginalOrder(selected: seq<Selection>, history: Option<seq<Entry>>, locale: Locale, shard: Shard)
    requires shard.Valid()
    ensures
      var result := SelectShard(selected, shard, history, locale);
      && IsSubsequence(result, selected)
      && forall x :: multiset(result)[x]
          == if Takes(selected, history, locale, shard, x.key) then multiset(selected)[x] else 0
  {
    var keys := KeySet(Sharded(Shardable(selected), shard, history, locale));
    FilterKeepsOrder(selected, (s: Selection) => s.key in keys);
  }

  ghost predicate UsesHistory(selected: seq<Selection>, history: Option<seq<Entry>>) {
    history.Some? && HasAnyHistory(Shardable(selected), history.value)
  }

  ghost predicate HasKeyAtResidue(xs: seq<Selection>, key: string, residue: nat, total: nat)
    requires total > 0
  {
    exists p :: 0 <= p < |xs| && xs[p].key == key && p % total == residue
  }

  lemma KeysOfEveryNth(xs: seq<Selection>, key: string, residue: nat, total: nat)
    requires total > 0
    ensures key in KeySet(EveryNth(xs, residue, total, 0)) <==> HasKeyAtResidue(xs, key, residue, total)
  {
    var chosen := EveryNth(xs, residue, total, 0);
    if key in KeySet(chosen) {
      var x :| x in chosen && x.key == key;
      EveryNthTakes(xs, residue, total, 0, x);
      var p :| 0 <= p < |xs| && xs[p] == x && (p + 0) % total == residue;
      assert xs[p].key == key && p % total == residue;
    }
    if HasKeyAtResidue(xs, key, residue, total) {
      var p :| 0 <= p < |xs| && xs[p].key == key && p % total == residue;
      assert (p + 0) % total == residue;
      EveryNthTakes(xs, residue, total, 0, xs[p]);
    }
  }

  /** The position rule of the count-based shards. */
  lemma TakenByCount(selected: seq<Selection>, history: Option<seq<Entry>>, locale: Locale, shard: Shard, key: string)
    requires shard.Valid() && !UsesHistory(selected, history)
    ensures Takes(selected, history, locale, shard, key)
       <==> HasKeyAtResidue(Shardable(selected), key, shard.index - 1, shard.total)
  {
    hide EveryNth, KeySet, HasKeyAtResidue, Shardable;
    KeysOfEveryNth(Shardable(selected), key, shard.index - 1, shard.total);
  }

  lemma {:induction false} AssignmentMapCovers(keys: seq<string>, a: seq<nat>, m: nat)
    requires |keys| == |a| && InRange(a, m)
    ensures forall k :: k in AssignmentMap(keys, a) <==> k in keys
    ensures forall k :: k in AssignmentMap(keys, a) ==> AssignmentMap(keys, a)[k] < m
  {
    if keys != [] {
      AssignmentMapCovers(keys[..|keys| - 1], a[..|keys| - 1], m);
      assert keys == keys[..|keys| - 1] + [keys[|keys| - 1]];
    }
  }

  lemma KeysOfFilter(xs: seq<Selection>, assignments: map<string, nat>, target: nat, key: string)
    ensures key in KeySet(Filter(xs, (s: Selection) => s.key in assignments && assignments[s.key] == target))
       <==> key in KeySet(xs) && key in assignments && assignments[key] == target
  {
    FilterKeepsOrder(xs, (s: Selection) => s.key in assignments && assignments[s.key] == target);
    if key in KeySet(xs) && key in assignments && assignments[key] == target {
      var x :| x in xs && x.key == key;
      assert x in Filter(xs, (s: Selection) => s.key in assignments && assignments[s.key] == target);
    }
  }

  lemma TakesByAssignment(selected: seq<Selection>, history: Option<seq<Entry>>, locale: Locale, shard: Shard,
          key: string)
    requires shard.Valid() && UsesHistory(selected, history)
    ensures
      var assignments := Assignments(SortRanked(locale, Unranked(Shardable(selected), history.value)), shard.total);
      Takes(selected, history, locale, shard, key)
      <==> key in KeySet(Shardable(selected)) && key in assignments && assignments[key] == shard.index - 1
  {
    hide Filter, Assignments, SortRanked, Unranked, KeySet, HasAnyHistory;
    var xs := Shardable(selected);
    var assignments := Assignments(SortRanked(locale, Unranked(xs, history.value)), shard.total);
    KeysOfFilter(xs, assignments, shard.index - 1, key);
  }

  /** With history, a key goes to one shard: also when several selections share the key. */
  lemma TakenByHistory(selected: seq<Selection>, history: Option<seq<Entry>>, locale: Locale, shard: Shard, key: string)
    requires shard.Valid() && UsesHistory(selected, history) && key in KeySet(Shardable(selected))
    ensures
      var assignments := Assignments(SortRanked(locale, Unranked(Shardable(selected), history.value)), shard.total);
      && key in assignments
      && assignments[key] < shard.total
      && (Takes(selected, history, locale, shard, key) <==> shard.index == assignments[key] + 1)
  {
    var xs := Shardable(selected);
    var ranked := SortRanked(locale, Unranked(xs, history.value));
    var x :| x in xs && x.key == key;
    KeyIsRanked(xs, history.value, locale, x);
    AssignmentMapCovers(Keys(ranked), Greedy(Durations(ranked), shard.total), shard.total);
    TakesByAssignment(selected, history, locale, shard, key);
  }

  lemma KeyIsRanked(xs: seq<Selection>, history: seq<Entry>, locale: Locale, x: Selection)
    requires x in xs
    ensures x.key in Keys(SortRanked(locale, Unranked(xs, history)))
  {
    var entries := Unranked(xs, history);
    var ranked := SortRanked(locale, entries);
    RankingSorts(locale, entries);
    var i :| 0 <= i < |xs| && xs[i] == x;
    assert entries[i] in multiset(entries);
    assert entries[i] in multiset(ranked);
    var j :| 0 <= j < |ranked| && ranked[j] == entries[i];
    assert Keys(ranked)[j] == x.key;
  }

  /** Nothing that shares no key with a shardable scenario is ever returned. */
  lemma OnlyShardableKeys(selected: seq<Selection>, history: Option<seq<Entry>>, locale: Locale, shard: Shard,
          key: string)
    requires shard.Valid() && Takes(selected, history, locale, shard, key)
    ensures key in KeySet(Shardable(selected))
  {
    if UsesHistory(selected, history) {
      TakesByAssignment(selected, history, locale, shard, key);
    } else {
      TakenByCount(selected, history, locale, shard, key);
    }
  }

  /** Every shardable scenario is returned by some shard, whatever keys repeat. */
  lemma EveryShardableIsTaken(selected: seq<Selection>, history: Option<seq<Entry>>, locale: Locale, total: nat,
          key: string)
    requires total > 0 && key in KeySet(Shardable(selected))
    ensures exists index :: 1 <= index <= total && Takes(selected, history, locale, Shard(index, total), key)
  {
    var xs := Shardable(selected);
    if UsesHistory(selected, history) {
      TakenByHistory(selected, history, locale, Shard(1, total), key);
      var target := Assignments(SortRanked(locale, Unranked(xs, history.value)), total)[key];
      TakenByHistory(selected, history, locale, Shard(target + 1, total), key);
    } else {
      var x :| x in xs && x.key == key;
      var p :| 0 <= p < |xs| && xs[p] == x;
      TakenByCount(selected, history, locale, Shard(p % total + 1, total), key);
    }
  }

  /** No key is taken by two shards. */
  ghost predicate Disjoint(selected: seq<Selection>, history: Option<seq<Entry>>, locale: Locale, total: nat) {
    forall key, i, j |
      && 1 <= i <= total && 1 <= j <= total
      && Takes(selected, history, locale, Shard(i, total), key)
      && Takes(selected, history, locale, Shard(j, total), key)
      :: i == j
  }

  /** Equal keys sit at positions that the count rule cannot tell apart. */
  ghost predicate RepeatsAligned(xs: seq<Selection>, total: nat)
    requires total > 0
  {
    forall p, q :: 0 <= p < q < |xs| && xs[p].key == xs[q].key ==> p % total == q % total
  }

  /**
   Exactly when the shards do not overlap: always with history, and without it when no key
   repeats at positions that differ modulo the number of shards.
   */
  lemma ShardsDisjointExactlyWhen(selected: seq<Selection>, history: Option<seq<Entry>>, locale: Locale, total: nat)
    requires total > 0
    ensures Disjoint(selected, history, locale, total)
       <==> UsesHistory(selected, history) || RepeatsAligned(Shardable(selected), total)
  {
    if UsesHistory(selected, history) {
      forall key, i, j | 1 <= i <= total && 1 <= j <= total
        && Takes(selected, history, locale, Shard(i, total), key)
        && Takes(selected, history, locale, Shard(j, total), key)
        ensures i == j
      {
        OnlyShardableKeys(selected, history, locale, Shard(i, total), key);
        TakenByHistory(selected, history, locale, Shard(i, total), key);
        TakenByHistory(selected, history, locale, Shard(j, total), key);
      }
    } else if RepeatsAligned(Shardable(selected), total) {
      CountShardsDisjoint(selected, history, locale, total);
    } else {
      CountShardsOverlap(selected, history, locale, total);
    }
  }

  lemma CountShardsDisjoint(selected: seq<Selection>, history: Option<seq<Entry>>, locale: Locale, total: nat)
    requires total > 0 && !UsesHistory(selected, history) && RepeatsAligned(Shardable(selected), total)
    ensures Disjoint(selected, history, locale, total)
  {
    hide Shardable, UsesHistory, Takes, Sharded, KeySet;
    var xs := Shardable(selected);
    forall key, i, j | 1 <= i <= total && 1 <= j <= total
      && Takes(selected, history, locale, Shard(i, total), key)
      && Takes(selected, history, locale, Shard(j, total), key)
      ensures i == j
    {
      TakenByCount(selected, history, locale, Shard(i, total), key);
      TakenByCount(selected, history, locale, Shard(j, total), key);
      var p :| 0 <= p < |xs| && xs[p].key == key && p % total == i - 1;
      var q :| 0 <= q < |xs| && xs[q].key == key && q % total == j - 1;
    }
  }

  lemma CountShardsOverlap(selected: seq<Selection>, history: Option<seq<Entry>>, locale: Locale, total: nat)
    requires total > 0 && !UsesHistory(selected, history) && !RepeatsAligned(Shardable(selected), total)
    ensures !Disjoint(selected, history, locale, total)
  {
    hide Shardable, UsesHistory, Takes;
    var xs := Shardable(selected);
    var p, q :| 0 <= p < q < |xs| && xs[p].key == xs[q].key && p % total != q % total;
    TakenByCount(selected, history, locale, Shard(p % total + 1, total), xs[p].key);
    TakenByCount(selected, history, locale, Shard(q % total + 1, total), xs[p].key);
  }

  // Two scenarios with one key, at positions that the count rule tells apart.
  const KEY_TWICE := [Selection("checkout", "Checkout", false), Selection("checkout", "Checkout again", false)]

  lemma BothAreShardable()
    ensures Shardable(KEY_TWICE) == KEY_TWICE && !UsesHistory(KEY_TWICE, None)
  {
    assert KEY_TWICE[1..][1..] == [];
  }

  /** Of two shards without history, both run the scenarios that share a key. */
  lemma OneKeyInTwoShards(locale: Locale)
    ensures !Disjoint(KEY_TWICE, None, locale, 2)
    ensures forall index :: 1 <= index <= 2 ==> Takes(KEY_TWICE, None, locale, Shard(index, 2), "checkout")
  {
    hide Takes, Shardable, UsesHistory, Disjoint;
    BothAreShardable();
    ShardsDisjointExactlyWhen(KEY_TWICE, None, locale, 2);
    assert KEY_TWICE[0].key == KEY_TWICE[1].key == "checkout";
    forall index | 1 <= index <= 2 ensures Takes(KEY_TWICE, None, locale, Shard(index, 2), "checkout") {
      TakenByCount(KEY_TWICE, None, locale, Shard(index, 2), "checkout");
      assert KEY_TWICE[index - 1].key == "checkout" && (index - 1) % 2 == index - 1;
    }
  }

  ghost predicate ReturnedByExactlyOne(selected: seq<Selection>, history: Option<seq<Entry>>, locale: Locale,
                                       total: nat, x: Selection)
  {
    exists index ::
      && 1 <= index <= total
      && x in SelectShard(selected, Shard(index, total), history, locale)
      && forall other | 1 <= other <= total && other != index ::
           x !in SelectShard(selected, Shard(other, total), history, locale)
  }

  /** With distinct keys the shards partition the shardable scenarios, with and without history. */
  lemma ShardsPartition(selected: seq<Selection>, history: Option<seq<Entry>>, locale: Locale, total: nat, x: Selection)
    requires total > 0 && DistinctSelections(selected) && x in selected
    ensures !x.ignored ==> ReturnedByExactlyOne(selected, history, locale, total, x)
    ensures x.ignored ==>
      forall index | 1 <= index <= total :: x !in SelectShard(selected, Shard(index, total), history, locale)
  {
    hide SelectShard, Takes, Disjoint;
    ReturnedMeansTaken(selected, history, locale, total, x);
    if x.ignored {
      forall index | 1 <= index <= total
        ensures x !in SelectShard(selected, Shard(index, total), history, locale)
      {
        IgnoredIsNotTaken(selected, history, locale, Shard(index, total), x);
      }
    } else {
      TakenByExactlyOne(selected, history, locale, total, x);
    }
  }

  lemma IgnoredIsNotTaken(selected: seq<Selection>, history: Option<seq<Entry>>, locale: Locale, shard: Shard,
          x: Selection)
    requires shard.Valid() && DistinctSelections(selected) && x in selected && x.ignored
    ensures !Takes(selected, history, locale, shard, x.key)
  {
    hide Takes;
    FilterKeepsOrder(selected, (s: Selection) => !s.ignored);
    assert forall y :: y in selected && y.key == x.key ==> y == x;
    if Takes(selected, history, locale, shard, x.key) {
      OnlyShardableKeys(selected, history, locale, shard, x.key);
      assert false;
    }
  }

  lemma TakenByExactlyOne(selected: seq<Selection>, history: Option<seq<Entry>>, locale: Locale, total: nat,
          x: Selection)
    requires total > 0 && DistinctSelections(selected) && x in selected && !x.ignored
    ensures exists index ::
      && 1 <= index <= total
      && Takes(selected, history, locale, Shard(index, total), x.key)
      && forall other | 1 <= other <= total && other != index ::
           !Takes(selected, history, locale, Shard(other, total), x.key)
  {
    hide Takes, UsesHistory;
    FilterKeepsOrder(selected, (s: Selection) => !s.ignored);
    assert x in Shardable(selected);
    EveryShardableIsTaken(selected, history, locale, total, x.key);
    ShardableStaysDistinct(selected);
    ShardsDisjointExactlyWhen(selected, history, locale, total);
    var index :| 1 <= index <= total && Takes(selected, history, locale, Shard(index, total), x.key);
  }

  lemma ReturnedMeansTaken(selected: seq<Selection>, history: Option<seq<Entry>>, locale: Locale, total: nat,
          x: Selection)
    requires x in selected
    ensures forall index :: 1 <= index <= total ==>
      (x in SelectShard(selected, Shard(index, total), history, locale)
       <==> Takes(selected, history, locale, Shard(index, total), x.key))
  {
    forall index | 1 <= index <= total
      ensures x in SelectShard(selected, Shard(index, total), history, locale)
         <==> Takes(selected, history, locale, Shard(index, total), x.key)
    {
      var keys := KeySet(Sharded(Shardable(selected), Shard(index, total), history, locale));
      FilterKeepsOrder(selected, (s: Selection) => s.key in keys);
    }
  }

  lemma {:induction false} ShardableStaysDistinct(selected: seq<Selection>)
    requires DistinctSelections(selected)
    ensures DistinctSelections(Shardable(selected))
  {
    if selected != [] {
      ShardableStaysDistinct(selected[1..]);
      FilterKeepsOrder(selected[1..], (s: Selection) => !s.ignored);
      var rest := Shardable(selected[1..]);
      assert Shardable(selected) == (if !selected[0].ignored then [selected[0]] else []) + rest;
      forall j | 0 <= j < |rest| ensures rest[j].key != selected[0].key {
        assert rest[j] in selected[1..];
      }
    }
  }
}
