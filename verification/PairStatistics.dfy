/** Most common pairs of two columns and how far their estimates can be off
    (src/generic_index_correlation.c:300-440, 638-670). */
module PairStatistics {
  import opened Lexer
  import opened ValueOrder
  import opened Ranking
  import opened Frequencies
  import opened KeptRuns

  const PAIR_MCV_MAX: nat := 32

  type Pair = (Value, Value)

  datatype PairStats = PairStats(total: nat, distinct: nat, mcvs: seq<Run<Pair>>)

  // The first column decides, then the second.
  function PairLess(): (Pair, Pair) -> bool {
    (a: Pair, b: Pair) => Before(a.0, b.0) || (a.0 == b.0 && Before(a.1, b.1))
  }

  // By the first value, then by the second.
  lemma PairLessIs(a: Pair, b: Pair)
    ensures PairLess()(a, b) <==> Before(a.0, b.0) || (a.0 == b.0 && Before(a.1, b.1))
  {
  }

  lemma PairLessIsTotal()
    ensures TotalOrder(PairLess())
  {
    forall x: Pair, y: Pair
      ensures PairLess()(x, y) || PairLess()(y, x) || x == y
      ensures !(PairLess()(x, y) && PairLess()(y, x))
    {
      BeforeTotal(x.0, y.0);
      BeforeTotal(x.1, y.1);
      assert x == (x.0, x.1) && y == (y.0, y.1);
    }
    forall x: Pair, y: Pair, z: Pair | PairLess()(x, y) && PairLess()(y, z) ensures PairLess()(x, z) {
      if Before(x.0, y.0) && Before(y.0, z.0) { BeforeTransitive(x.0, y.0, z.0); }
      if x.0 == y.0 == z.0 { BeforeTransitive(x.1, y.1, z.1); }
    }
  }

  function SortPairs(pairs: seq<Pair>): (s: seq<Pair>)
    ensures |s| == |pairs|
  {
    Ranked(pairs, |pairs|, PairLess())
  }

  // The statistics describe the pairs.
  ghost predicate Describes(stats: PairStats, pairs: seq<Pair>) {
    && stats.total == |pairs| && stats.distinct == |Runs(SortPairs(pairs), 0)|
    && KeepsBest(SortPairs(pairs), stats.mcvs, PAIR_MCV_MAX, PairLess())
  }

  // Exactly the best thirty-two runs of the sorted pairs, with true frequencies.
  method BuildPairStats(pairs: seq<Pair>) returns (stats: PairStats)
    ensures Describes(stats, pairs)
    ensures forall m :: m in stats.mcvs ==> m.frequency == multiset(pairs)[m.value] > 0
  {
    PairLessIsTotal();
    var s := SortPairs(pairs);
    PairsSorted(pairs);
    var entries := new Run<Pair>[PAIR_MCV_MAX](_ => Run((Number(0), Number(0)), 0, 0));
    var count, distinct := CollectRuns(s, entries, PairLess());
    stats := PairStats(|pairs|, distinct, entries[..count]);
    KeptAreTrue(s, stats.mcvs, PAIR_MCV_MAX, PairLess());
  }

  // Exact for kept pairs, and for all pairs if there are few; any other estimate is
  // off by at most the least kept frequency, and never above any of them.
  method EstimatePair(stats: PairStats, pair: Pair, ghost pairs: seq<Pair>) returns (r: nat, exact: bool)
    requires Describes(stats, pairs)
    ensures exact <==> Kept(stats.mcvs, pair)
    ensures exact || stats.distinct <= PAIR_MCV_MAX ==> r == multiset(pairs)[pair]
    ensures !exact ==> forall m :: m in stats.mcvs ==> r <= m.frequency
    ensures !exact ==>
      var others, rows := stats.distinct - |stats.mcvs|, |pairs| - RowsIn(stats.mcvs, |stats.mcvs|);
      others >= 0 && rows >= 0 && AverageOfOthers(others, rows, r)
    ensures r == 0 ==> pair !in pairs
    ensures var error := FrequencyError(stats.mcvs, stats.distinct, PAIR_MCV_MAX, pair);
      multiset(pairs)[pair] - error <= r <= multiset(pairs)[pair] + error
  {
    ghost var s := SortPairs(pairs);
    PairsSorted(pairs);
    KeptAreTrue(s, stats.mcvs, PAIR_MCV_MAX, PairLess());
    if stats.total == 0 || stats.distinct == 0 {
      NoPairs(stats, pairs);
      return 0, false;
    }
    var found, i := FindRun(stats.mcvs, pair);
    if found {
      assert stats.mcvs[i] in stats.mcvs;
      return stats.mcvs[i].frequency, true;
    }
    exact := false;
    assert |s| == |pairs| by {
      assert |multiset(s)| == |multiset(pairs)|;
    }
    r := EstimateRest(stats.mcvs, stats.total, stats.distinct, PAIR_MCV_MAX, s, PairLess(), pair);
    RestIsNear(s, stats.mcvs, PAIR_MCV_MAX, PairLess(), pair, r);
  }

  lemma NoPairs(stats: PairStats, pairs: seq<Pair>)
    requires Describes(stats, pairs) && (stats.total == 0 || stats.distinct == 0)
    ensures pairs == [] && stats.mcvs == [] && stats.distinct == 0
  {
    KeptAreTrue(SortPairs(pairs), stats.mcvs, PAIR_MCV_MAX, PairLess());
    RunsHoldAllRows(SortPairs(pairs), 0);
  }

  lemma PairsSorted(pairs: seq<Pair>)
    ensures Sorted(SortPairs(pairs), PairLess()) && multiset(SortPairs(pairs)) == multiset(pairs)
  {
    PairLessIsTotal();
    TotalIsWeak(PairLess());
    RankedOrdered(pairs, |pairs|, PairLess());
    RankedKeeps(pairs, |pairs|, PairLess());
    assert pairs[..|pairs|] == pairs;
  }
}
