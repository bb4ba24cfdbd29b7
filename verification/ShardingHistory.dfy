/**
 What a history of durations means for the shards (packages/spec/src/selection/sharding.ts): a
 scenario with a recorded duration takes that long, and any other takes the median of the records.
 */
module ShardingHistory {
  import opened Wrappers
  import opened Sharding

  /** The history has this duration for the key. */
  ghost predicate Records(history: seq<Entry>, key: string, duration: real) {
    exists i :: 0 <= i < |history| && history[i] == Entry(key, duration)
  }

  ghost predicate IsRecorded(history: seq<Entry>, key: string) {
    exists i :: 0 <= i < |history| && history[i].key == key
  }

  lemma {:induction false} LookupIsRecord(history: seq<Entry>, key: string)
    ensures Lookup(history, key).Some? <==> IsRecorded(history, key)
    ensures Lookup(history, key).Some? ==> Records(history, key, Lookup(history, key).value)
  {
    if history != [] {
      LookupIsRecord(history[1..], key);
      if history[0].key == key {
        assert history[0] == Entry(key, history[0].duration);
      } else if Lookup(history, key).Some? {
        var i :| 0 <= i < |history[1..]| && history[1..][i] == Entry(key, Lookup(history, key).value);
        assert history[i + 1] == Entry(key, Lookup(history, key).value);
      }
      if i :| 0 <= i < |history| && history[i].key == key {
        assert i > 0 ==> history[1..][i - 1].key == key;
      }
    }
  }

  // ---------------------------------------------------------------- the median

  /** The value in the middle of the sorted values, or halfway between the two in the middle. */
  ghost predicate IsMiddle(s: seq<real>, m: real) {
    if s == [] then m == 0.0 else m == (s[(|s| - 1) / 2] + s[|s| / 2]) / 2.0
  }

  ghost predicate IsMedian(values: seq<real>, m: real) {
    exists s :: Ascending(s) && multiset(s) == multiset(values) && IsMiddle(s, m)
  }

  lemma FirstIsLeast(s: seq<real>, t: seq<real>)
    requires Ascending(s) && s != [] && multiset(s) == multiset(t)
    ensures forall y :: y in t ==> s[0] <= y
  {
    forall y | y in t ensures s[0] <= y {
      assert y in multiset(t);
      assert y in s;
    }
  }

  lemma WithoutFirst(s: seq<real>)
    requires s != []
    ensures multiset(s[1..]) == multiset(s) - multiset{s[0]} && (Ascending(s) ==> Ascending(s[1..]))
  {
    assert s == [s[0]] + s[1..];
  }

  lemma SameFirst(s: seq<real>, t: seq<real>)
    requires Ascending(s) && Ascending(t) && multiset(s) == multiset(t) && s != []
    ensures t != [] && s[0] == t[0]
  {
    assert s[0] in multiset(s) && s[0] in multiset(t);
    assert s[0] in t && t[0] in t && s[0] in s;
    FirstIsLeast(s, t);
    FirstIsLeast(t, s);
  }

  lemma SomeLeft(t: seq<real>)
    requires t != []
    ensures multiset(t) != multiset([])
  {
    assert t[0] in multiset(t);
  }

  lemma {:induction false} OneSorted(s: seq<real>, t: seq<real>)
    requires Ascending(s) && Ascending(t) && multiset(s) == multiset(t)
    ensures s == t
  {
    if s == [] {
      if t != [] {
        SomeLeft(t);
      }
    } else {
      SameFirst(s, t);
      WithoutFirst(s);
      WithoutFirst(t);
      hide Ascending;
      OneSorted(s[1..], t[1..]);
      assert s == [s[0]] + s[1..] && t == [t[0]] + t[1..];
    }
  }

  lemma MiddleOfSorted(values: seq<real>)
    ensures IsMiddle(SortAscending(values), Median(values))
  {
    var sorted := SortAscending(values);
    SortAscendingPermutes(values);
    hide SortAscending;
    if values != [] && |sorted| % 2 == 0 {
      assert (|sorted| - 1) / 2 == |sorted| / 2 - 1;
    }
  }

  /** The fallback duration is the median, and nothing else is. */
  lemma MedianExactly(values: seq<real>, m: real)
    ensures IsMedian(values, m) <==> m == Median(values)
  {
    var sorted := SortAscending(values);
    SortAscends(values, Below, 0.0);
    SortAscendingPermutes(values);
    MiddleOfSorted(values);
    hide Median, SortAscending, Ascending;
    if IsMedian(values, m) {
      var s :| Ascending(s) && multiset(s) == multiset(values) && IsMiddle(s, m);
      OneSorted(s, sorted);
    }
  }

  // ---------------------------------------------------------------- how long scenarios take

  // How long the scenario with a key takes.
  type Cost = string -> real

  /** Each key takes as long as its record says, or as long as the median when it has none. */
  ghost predicate FromRecords(history: seq<Entry>, cost: Cost) {
    forall key ::
      if IsRecorded(history, key) then Records(history, key, cost(key))
      else IsMedian(Durations(history), cost(key))
  }

  lemma CostIsDuration(history: seq<Entry>, cost: Cost, key: string)
    requires DistinctKeys(history) && FromRecords(history, cost)
    ensures DurationOf(history, key) == cost(key)
  {
    LookupIsRecord(history, key);
    MedianExactly(Durations(history), cost(key));
    if IsRecorded(history, key) {
      var i :| 0 <= i < |history| && history[i] == Entry(key, Lookup(history, key).value);
      var j :| 0 <= j < |history| && history[j] == Entry(key, cost(key));
      assert i == j;
    }
  }

  function TotalCost(cost: Cost, selections: seq<Selection>): real {
    if selections == [] then 0.0 else cost(selections[0].key) + TotalCost(cost, selections[1..])
  }

  /** What the selections take that a split puts on a shard. */
  function CostOn(cost: Cost, selections: seq<Selection>, split: map<string, nat>, shard: nat): real {
    if selections == [] then 0.0
    else
      (if selections[0].key in split && split[selections[0].key] == shard then cost(selections[0].key) else 0.0)
      + CostOn(cost, selections[1..], split, shard)
  }

  lemma {:induction false} WorkIsCost(history: seq<Entry>, cost: Cost, selections: seq<Selection>)
    requires DistinctKeys(history) && FromRecords(history, cost)
    ensures Work(history, selections) == TotalCost(cost, selections)
  {
    if selections != [] {
      hide DurationOf, DistinctKeys, FromRecords;
      CostIsDuration(history, cost, selections[0].key);
      WorkIsCost(history, cost, selections[1..]);
    }
  }

  lemma {:induction false} ShareIsCost(history: seq<Entry>, cost: Cost, selections: seq<Selection>,
                                       split: map<string, nat>, shard: nat)
    requires DistinctKeys(history) && FromRecords(history, cost)
    ensures Share(Unranked(selections, history), split, shard) == CostOn(cost, selections, split, shard)
  {
    if selections != [] {
      hide DurationOf, DistinctKeys, FromRecords;
      CostIsDuration(history, cost, selections[0].key);
      ShareIsCost(history, cost, selections[1..], split, shard);
      assert Unranked(selections, history)[1..] == Unranked(selections[1..], history);
    }
  }

  /** History is used exactly when some shardable scenario has a recorded duration. */
  lemma HistoryIsUsedExactlyWhen(selected: seq<Selection>, history: Option<seq<Entry>>)
    ensures UsesHistory(selected, history)
       <==> history.Some? && exists x :: x in selected && !x.ignored && IsRecorded(history.value, x.key)
  {
    FilterKeepsOrder(selected, (s: Selection) => !s.ignored);
    var xs := Shardable(selected);
    assert forall x :: x in xs <==> x in selected && !x.ignored;
    if history.Some? {
      forall key ensures Lookup(history.value, key).Some? <==> IsRecorded(history.value, key) {
        LookupIsRecord(history.value, key);
      }
      if x :| x in selected && !x.ignored && IsRecorded(history.value, x.key) {
        assert x in xs;
        var i :| 0 <= i < |xs| && xs[i] == x;
        assert Lookup(history.value, xs[i].key).Some?;
      }
      if HasAnyHistory(xs, history.value) {
        var i :| 0 <= i < |xs| && Lookup(history.value, xs[i].key).Some?;
        assert xs[i] in xs;
      }
    }
  }

  /**
   The bound in recorded time: of the recorded durations, and the median for scenarios without one,
   a shard gets at most 4/3 - 1/(3 * total) of the capacity of any other way to split the scenarios.
   */
  lemma RecordedTimeIsBalanced(selections: seq<Selection>, history: seq<Entry>, locale: Locale, shard: Shard,
                               cost: Cost, other: map<string, nat>, T: real)
    requires shard.Valid() && DistinctSelections(selections) && DistinctKeys(history) && FromRecords(history, cost)
    requires NonNegative(history) && exists x :: x in selections && IsRecorded(history, x.key)
    requires forall x :: x in selections ==> x.key in other && other[x.key] < shard.total
    requires forall s: nat :: s < shard.total ==> CostOn(cost, selections, other, s) <= T
    ensures WithinGrahamBound(shard.total as real,
                              TotalCost(cost, ShardByDuration(selections, shard, history, locale)), T)
  {
    hide ShardByDuration, WithinGrahamBound, DistinctKeys, FromRecords, NonNegative, Share, CostOn, Work, TotalCost,
      Unranked;
    SomeHistory(selections, history);
    forall s: nat | s < shard.total ensures Share(Unranked(selections, history), other, s) <= T {
      ShareIsCost(history, cost, selections, other, s);
    }
    DurationShardsAreBalanced(selections, history, locale, shard, other, T);
    WorkIsCost(history, cost, ShardByDuration(selections, shard, history, locale));
  }

  lemma SomeHistory(selections: seq<Selection>, history: seq<Entry>)
    requires exists x :: x in selections && IsRecorded(history, x.key)
    ensures HasAnyHistory(selections, history)
  {
    var x :| x in selections && IsRecorded(history, x.key);
    LookupIsRecord(history, x.key);
    var i :| 0 <= i < |selections| && selections[i] == x;
    assert Lookup(history, selections[i].key).Some?;
  }

  // ---------------------------------------------------------------- the ranking

  /** The comparison of keys is an order. */
  ghost predicate IsOrder(locale: Locale) {
    && (forall x :: !locale(x, x))
    && (forall x, y :: x != y ==> locale(x, y) != locale(y, x))
    && (forall x, y, z :: locale(x, y) && locale(y, z) ==> locale(x, z))
  }

  /** The longer one first, and of equally long ones the one with the earlier key. */
  predicate Precedes(locale: Locale, x: Entry, y: Entry) {
    x.duration > y.duration || (x.duration == y.duration && (x.key == y.key || locale(x.key, y.key)))
  }

  ghost predicate InRank(locale: Locale, xs: seq<Entry>) {
    forall i, j :: 0 <= i < j < |xs| ==> Precedes(locale, xs[i], xs[j])
  }

  lemma RankMore(locale: Locale, x: Entry, xs: seq<Entry>)
    requires InRank(locale, xs) && forall y :: y in xs ==> Precedes(locale, x, y)
    ensures InRank(locale, [x] + xs)
  {
  }

  lemma {:induction false} InsertMembers(locale: Locale, x: Entry, xs: seq<Entry>)
    ensures forall y :: y in InsertRanked(locale, x, xs) <==> y == x || y in xs
  {
    if xs != [] && !RanksBefore(locale, x, xs[0]) {
      InsertMembers(locale, x, xs[1..]);
      assert xs == [xs[0]] + xs[1..];
    }
  }

  lemma {:induction false} InsertInRank(locale: Locale, x: Entry, xs: seq<Entry>)
    requires IsOrder(locale) && InRank(locale, xs)
    ensures InRank(locale, InsertRanked(locale, x, xs))
  {
    if xs == [] {
    } else if RanksBefore(locale, x, xs[0]) {
      forall y | y in xs ensures Precedes(locale, x, y) {
        var k :| 0 <= k < |xs| && xs[k] == y;
        assert k > 0 ==> Precedes(locale, xs[0], y);
      }
      RankMore(locale, x, xs);
    } else {
      var rest := InsertRanked(locale, x, xs[1..]);
      InsertInRank(locale, x, xs[1..]);
      InsertMembers(locale, x, xs[1..]);
      forall y | y in rest ensures Precedes(locale, xs[0], y) {
        if y != x {
          var k :| 0 <= k < |xs[1..]| && xs[1..][k] == y;
          assert xs[k + 1] == y;
        }
      }
      RankMore(locale, xs[0], rest);
    }
  }

  /** The ranking is by duration, the longest first, and then by key. */
  lemma {:induction false} RankedByDurationAndKey(locale: Locale, xs: seq<Entry>)
    requires IsOrder(locale)
    ensures InRank(locale, SortRanked(locale, xs)) && multiset(SortRanked(locale, xs)) == multiset(xs)
  {
    RankingSorts(locale, xs);
    if xs != [] {
      RankedByDurationAndKey(locale, xs[1..]);
      InsertInRank(locale, xs[0], SortRanked(locale, xs[1..]));
    }
  }
}
