/** What the kept runs of a sorted column tell about the others: true frequencies,
    nothing better left out, and the average that stands for a value not kept
    (src/generic_index_stats.c:286-292, 601-659, src/generic_index_correlation.c:638-670). */
module KeptRuns {
  import opened Ranking
  import opened Frequencies

  // The best `max` runs of the sorted entries.
  ghost predicate KeepsBest<T(!new)>(s: seq<T>, mcvs: seq<Run<T>>, max: nat, less: (T, T) -> bool) {
    && TotalOrder(less) && Sorted(s, less)
    && mcvs == Best(Ranked(Runs(s, 0), |Runs(s, 0)|, Better(less)), max)
  }

  ghost predicate Kept<T>(mcvs: seq<Run<T>>, v: T) {
    exists m :: m in mcvs && m.value == v
  }

  // The kept entries are true runs.
  lemma KeptAreTrue<T(!new)>(s: seq<T>, mcvs: seq<Run<T>>, max: nat, less: (T, T) -> bool)
    requires KeepsBest(s, mcvs, max, less)
    ensures forall m :: m in mcvs ==> TrueRun(s, m) && m in Runs(s, 0) && m.frequency == multiset(s)[m.value] > 0
    ensures |mcvs| == if |Runs(s, 0)| < max then |Runs(s, 0)| else max
  {
    var runs, better := Runs(s, 0), Better(less);
    var ranked := Ranked(runs, |runs|, better);
    RunsAreTrue(s, 0);
    RankedKeeps(runs, |runs|, better);
    assert runs[..|runs|] == runs;
    forall m | m in mcvs ensures TrueRun(s, m) && m in runs && m.frequency == multiset(s)[m.value] > 0 {
      assert m in ranked && m in multiset(ranked);
      RunCounts(s, m, less);
    }
  }

  // No run left out is better than one that was kept.
  lemma KeptAreBest<T(!new)>(s: seq<T>, mcvs: seq<Run<T>>, max: nat, less: (T, T) -> bool, r: Run<T>, m: Run<T>)
    requires KeepsBest(s, mcvs, max, less) && r in Runs(s, 0) && r !in mcvs && m in mcvs
    ensures !Better(less)(r, m)
  {
    var runs, better := Runs(s, 0), Better(less);
    var ranked := Ranked(runs, |runs|, better);
    RankedKeeps(runs, |runs|, better);
    assert runs[..|runs|] == runs;
    assert r in multiset(ranked);
    var i :| 0 <= i < |ranked| && ranked[i] == r;
    var j :| 0 <= j < |mcvs| && mcvs[j] == m;
    assert forall k :: 0 <= k < |mcvs| ==> ranked[k] == mcvs[k] && ranked[k] != r;
    BetterRanks(less);
    RankedOrdered(runs, |runs|, better);
  }

  // In particular the kept runs are the longest, and among equally long ones those of
  // the smallest values.
  lemma KeptComeFirst<T(!new)>(s: seq<T>, mcvs: seq<Run<T>>, max: nat, less: (T, T) -> bool, r: Run<T>, m: Run<T>)
    requires KeepsBest(s, mcvs, max, less) && r in Runs(s, 0) && r !in mcvs && m in mcvs
    ensures r.frequency <= m.frequency && (r.frequency == m.frequency ==> !less(r.value, m.value))
  {
    KeptAreBest(s, mcvs, max, less, r, m);
  }

  // The run of a value that occurs.
  lemma RunOf<T(!new)>(s: seq<T>, v: T, less: (T, T) -> bool) returns (r: Run<T>)
    requires Sorted(s, less) && TotalOrder(less) && v in s
    ensures r in Runs(s, 0) && r.value == v && r.frequency == multiset(s)[v]
  {
    var k :| 0 <= k < |s| && s[k] == v;
    RunsAreTrue(s, 0);
    assert Covered(Runs(s, 0), k);
    r :| r in Runs(s, 0) && r.before <= k < r.before + r.frequency;
    assert TrueRun(s, r);
    RunCounts(s, r, less);
  }

  // With few distinct values all of them are kept.
  lemma FewValuesAreKept<T(!new)>(s: seq<T>, mcvs: seq<Run<T>>, max: nat, less: (T, T) -> bool, v: T)
    requires KeepsBest(s, mcvs, max, less) && |Runs(s, 0)| <= max && v in s
    ensures Kept(mcvs, v)
  {
    var runs := Runs(s, 0);
    var ranked := Ranked(runs, |runs|, Better(less));
    RankedKeeps(runs, |runs|, Better(less));
    assert runs[..|runs|] == runs;
    var r := RunOf(s, v, less);
    assert r in multiset(ranked);
  }

  // A value that was not kept is no more frequent than any that was.
  lemma OthersAreRarer<T(!new)>(s: seq<T>, mcvs: seq<Run<T>>, max: nat, less: (T, T) -> bool, v: T, m: Run<T>)
    requires KeepsBest(s, mcvs, max, less) && !Kept(mcvs, v) && m in mcvs
    ensures multiset(s)[v] <= m.frequency
  {
    if v in s {
      var r := RunOf(s, v, less);
      KeptAreBest(s, mcvs, max, less, r, m);
    }
  }

  method FindRun<T(==)>(mcvs: seq<Run<T>>, v: T) returns (found: bool, i: nat)
    ensures found <==> Kept(mcvs, v)
    ensures found ==> i < |mcvs| && mcvs[i].value == v
  {
    i := 0;
    while i < |mcvs|
      invariant 0 <= i <= |mcvs|
      invariant forall k :: 0 <= k < i ==> mcvs[k].value != v
    {
      if mcvs[i].value == v {
        return true, i;
      }
      i := i + 1;
    }
    return false, i;
  }

  // Rows held by the first `n` runs.
  function RowsIn<T>(runs: seq<Run<T>>, n: nat): nat
    requires n <= |runs|
  {
    if n == 0 then 0 else RowsIn(runs, n - 1) + runs[n - 1].frequency
  }

  lemma {:induction false} RankedRows<T>(runs: seq<Run<T>>, n: nat, better: (Run<T>, Run<T>) -> bool)
    requires n <= |runs|
    ensures RowsIn(Ranked(runs, n, better), n) == RowsIn(runs, n)
  {
    if n > 0 {
      RankedRows(runs, n - 1, better);
      InsertRows(Ranked(runs, n - 1, better), runs[n - 1], better);
    }
  }

  lemma InsertRows<T>(runs: seq<Run<T>>, x: Run<T>, better: (Run<T>, Run<T>) -> bool)
    ensures RowsIn(Insert(runs, x, better), |runs| + 1) == RowsIn(runs, |runs|) + x.frequency
  {
    InsertPoints(runs, x, better);
    RowsInSplit(Insert(runs, x, better), runs, Place(runs, x, |runs|, better), |runs| + 1);
  }

  // `c` is `b` without entry `k`.
  lemma {:induction false} RowsInSplit<T>(b: seq<Run<T>>, c: seq<Run<T>>, k: nat, m: nat)
    requires k < m <= |b| && m - 1 <= |c|
    requires forall i :: 0 <= i < k ==> c[i] == b[i]
    requires forall i :: k < i < m ==> c[i - 1] == b[i]
    ensures RowsIn(b, m) == RowsIn(c, m - 1) + b[k].frequency
    decreases m
  {
    if k == m - 1 {
      RowsInSame(b, c, k);
    } else {
      RowsInSplit(b, c, k, m - 1);
    }
  }

  lemma {:induction false} RowsInSame<T>(a: seq<Run<T>>, b: seq<Run<T>>, n: nat)
    requires n <= |a| && n <= |b| && forall i :: 0 <= i < n ==> a[i] == b[i]
    ensures RowsIn(a, n) == RowsIn(b, n)
  {
    if n > 0 {
      RowsInSame(a, b, n - 1);
    }
  }

  lemma {:induction false} RunsHoldAllRows<T>(s: seq<T>, start: nat)
    requires start <= |s|
    ensures RowsIn(Runs(s, start), |Runs(s, start)|) == |s| - start
    decreases |s| - start
  {
    if start < |s| {
      var e := RunEnd(s, start, start + 1);
      var runs, rest := Runs(s, start), Runs(s, e);
      RunsHoldAllRows(s, e);
      RowsInSplit(runs, rest, 0, |runs|);
    }
  }

  lemma {:induction false} RowsInGrows<T>(a: seq<Run<T>>, n: nat, m: nat)
    requires n <= m <= |a|
    ensures RowsIn(a, n) <= RowsIn(a, m)
    decreases m
  {
    if n < m {
      RowsInGrows(a, n, m - 1);
    }
  }

  // The kept runs never hold more rows than there are, so the remainder is not negative.
  lemma KeptRowsFit<T(!new)>(s: seq<T>, mcvs: seq<Run<T>>, max: nat, less: (T, T) -> bool)
    requires KeepsBest(s, mcvs, max, less)
    ensures RowsIn(mcvs, |mcvs|) <= |s| && |mcvs| <= |Runs(s, 0)|
  {
    var runs := Runs(s, 0);
    var ranked := Ranked(runs, |runs|, Better(less));
    RankedRows(runs, |runs|, Better(less));
    RunsHoldAllRows(s, 0);
    RowsInGrows(ranked, |mcvs|, |ranked|);
    RowsInSame(mcvs, ranked, |mcvs|);
  }

  // Ranked runs from `k` on hold at most as many rows each as run `k - 1`.
  lemma {:induction false} RestIsSmaller<T>(ranked: seq<Run<T>>, k: nat, n: nat, f: nat)
    requires k <= n <= |ranked| && forall i :: k <= i < n ==> ranked[i].frequency <= f
    ensures RowsIn(ranked, n) <= RowsIn(ranked, k) + (n - k) * f
    decreases n
  {
    if k < n {
      RestIsSmaller(ranked, k, n - 1, f);
      assert (n - k) * f == (n - 1 - k) * f + f;
    }
  }

  lemma Scale(a: nat, b: nat, x: nat)
    ensures a <= b ==> a * x <= b * x
  {
  }

  lemma DivideBelow(a: nat, d: nat, q: nat)
    requires d > 0 && a < q * d
    ensures a / d < q
  {
    Scale(q, a / d, d);
    assert a / d * d <= a;
  }

  lemma DivideAbove(a: nat, d: nat, q: nat)
    requires d > 0 && q * d <= a
    ensures q <= a / d
  {
    Scale(a / d + 1, q, d);
    assert a < (a / d + 1) * d;
  }

  // Rounded up.
  function Average(rows: nat, d: nat): nat
    requires d > 0
  {
    (rows + d - 1) / d
  }

  // The least number whose product with `d` covers the rows.
  lemma AverageIs(rows: nat, d: nat)
    requires d > 0
    ensures d * Average(rows, d) >= rows
    ensures rows > 0 ==> Average(rows, d) > 0 && d * (Average(rows, d) - 1) < rows
  {
    var a := Average(rows, d);
    DivideAbove(rows + d - 1, d, 0);
    assert a * d <= rows + d - 1 < (a + 1) * d;
    assert (a + 1) * d == a * d + d && (a - 1) * d == a * d - d;
    assert d * a == a * d && d * (a - 1) == (a - 1) * d;
  }

  lemma AverageBelow(rows: nat, d: nat, f: nat)
    requires d > 0 && rows <= d * f
    ensures Average(rows, d) <= f
  {
    DivideBelow(rows + d - 1, d, f + 1);
  }

  // The runs left out come behind the kept ones and are no larger.
  lemma RestRanked<T(!new)>(s: seq<T>, mcvs: seq<Run<T>>, max: nat, less: (T, T) -> bool, m: Run<T>)
    returns (ranked: seq<Run<T>>)
    requires KeepsBest(s, mcvs, max, less) && m in mcvs
    ensures |ranked| == |Runs(s, 0)| >= |mcvs|
    ensures RowsIn(ranked, |ranked|) == |s|
    ensures RowsIn(ranked, |mcvs|) == RowsIn(mcvs, |mcvs|)
    ensures forall i :: |mcvs| <= i < |ranked| ==> ranked[i].frequency <= m.frequency
  {
    var runs, k := Runs(s, 0), |mcvs|;
    ranked := Ranked(runs, |runs|, Better(less));
    BetterRanks(less);
    RankedOrdered(runs, |runs|, Better(less));
    RankedRows(runs, |runs|, Better(less));
    RunsHoldAllRows(s, 0);
    RowsInSame(mcvs, ranked, k);
    var j :| 0 <= j < k && mcvs[j] == m;
    forall i | k <= i < |ranked| ensures ranked[i].frequency <= m.frequency {
      assert !Better(less)(ranked[i], ranked[j]);
    }
  }

  // The average frequency of the runs left out is at most that of any kept run.
  lemma RestAverage<T(!new)>(s: seq<T>, mcvs: seq<Run<T>>, max: nat, less: (T, T) -> bool, m: Run<T>)
    requires KeepsBest(s, mcvs, max, less) && m in mcvs && |mcvs| < |Runs(s, 0)|
    requires RowsIn(mcvs, |mcvs|) <= |s|
    ensures 1 <= m.frequency
    ensures Average(|s| - RowsIn(mcvs, |mcvs|), |Runs(s, 0)| - |mcvs|) <= m.frequency
  {
    var ranked := RestRanked(s, mcvs, max, less, m);
    KeptAreTrue(s, mcvs, max, less);
    RestIsSmaller(ranked, |mcvs|, |ranked|, m.frequency);
    AverageOfRest(|s|, RowsIn(mcvs, |mcvs|), |Runs(s, 0)|, |mcvs|, m.frequency);
  }

  lemma AverageOfRest(total: nat, held: nat, distinct: nat, k: nat, f: nat)
    requires held <= total <= held + (distinct - k) * f && k < distinct
    ensures Average(total - held, distinct - k) <= f
  {
    AverageBelow(total - held, distinct - k, f);
  }

  // How far the estimate of a frequency can be off: not at all when the value was
  // kept or all values were, else by the least frequency that was kept.
  ghost function FrequencyError<T(!new)>(mcvs: seq<Run<T>>, distinct: nat, max: nat, v: T): nat {
    if Kept(mcvs, v) || distinct <= max || mcvs == [] then 0 else mcvs[|mcvs| - 1].frequency
  }

  // Every run holds a row.
  lemma {:induction false} RestIsLarger<T>(ranked: seq<Run<T>>, k: nat, n: nat)
    requires k <= n <= |ranked| && forall i :: k <= i < n ==> ranked[i].frequency >= 1
    ensures RowsIn(ranked, n) >= RowsIn(ranked, k) + (n - k)
    decreases n
  {
    if k < n {
      RestIsLarger(ranked, k, n - 1);
    }
  }

  // The runs left out hold at least a row each.
  lemma RowsAreLeft<T(!new)>(s: seq<T>, mcvs: seq<Run<T>>, max: nat, less: (T, T) -> bool)
    requires KeepsBest(s, mcvs, max, less)
    ensures |mcvs| <= |Runs(s, 0)| && |s| - RowsIn(mcvs, |mcvs|) >= |Runs(s, 0)| - |mcvs|
    ensures |mcvs| == |Runs(s, 0)| ==> |s| == RowsIn(mcvs, |mcvs|)
  {
    var runs, k := Runs(s, 0), |mcvs|;
    var ranked := Ranked(runs, |runs|, Better(less));
    RankedRows(runs, |runs|, Better(less));
    RankedKeeps(runs, |runs|, Better(less));
    RunsHoldAllRows(s, 0);
    RunsAreTrue(s, 0);
    RowsInSame(mcvs, ranked, k);
    assert runs[..|runs|] == runs;
    forall i | k <= i < |ranked| ensures ranked[i].frequency >= 1 {
      assert ranked[i] in multiset(ranked);
      assert TrueRun(s, ranked[i]);
    }
    RestIsLarger(ranked, k, |ranked|);
  }

  lemma RestFacts<T(!new)>(s: seq<T>, mcvs: seq<Run<T>>, max: nat, less: (T, T) -> bool, v: T)
    requires KeepsBest(s, mcvs, max, less) && !Kept(mcvs, v)
    ensures RowsIn(mcvs, |mcvs|) <= |s| && |mcvs| <= |Runs(s, 0)|
    ensures |Runs(s, 0)| <= max ==> |mcvs| == |Runs(s, 0)| && multiset(s)[v] == 0
    ensures |mcvs| < |Runs(s, 0)| ==>
      var rest := Average(|s| - RowsIn(mcvs, |mcvs|), |Runs(s, 0)| - |mcvs|);
      forall m :: m in mcvs ==> rest <= m.frequency && 1 <= m.frequency
  {
    KeptRowsFit(s, mcvs, max, less);
    NothingElse(s, mcvs, max, less, v);
    if |mcvs| < |Runs(s, 0)| {
      forall m | m in mcvs
        ensures Average(|s| - RowsIn(mcvs, |mcvs|), |Runs(s, 0)| - |mcvs|) <= m.frequency && 1 <= m.frequency
      {
        RestAverage(s, mcvs, max, less, m);
      }
    }
  }

  lemma NothingElse<T(!new)>(s: seq<T>, mcvs: seq<Run<T>>, max: nat, less: (T, T) -> bool, v: T)
    requires KeepsBest(s, mcvs, max, less) && !Kept(mcvs, v)
    ensures |Runs(s, 0)| <= max ==> |mcvs| == |Runs(s, 0)| && multiset(s)[v] == 0
  {
    KeptAreTrue(s, mcvs, max, less);
    if |Runs(s, 0)| <= max && v in s {
      FewValuesAreKept(s, mcvs, max, less, v);
    }
  }

  // The least number of rows per value that covers the rows left.
  ghost predicate AverageOfOthers(others: nat, rows: nat, r: nat) {
    if rows == 0 then r == 0 else others * (r - 1) < rows <= others * r
  }

  // A value that was not kept gets the average of those left out.
  method EstimateRest<T(!new, ==)>(mcvs: seq<Run<T>>, total: nat, distinct: nat, ghost max: nat,
                                   ghost s: seq<T>, ghost less: (T, T) -> bool, ghost v: T)
    returns (r: nat)
    requires KeepsBest(s, mcvs, max, less) && total == |s| && distinct == |Runs(s, 0)| && !Kept(mcvs, v)
    ensures distinct <= max ==> r == 0 == multiset(s)[v]
    ensures forall m :: m in mcvs ==> r <= m.frequency
    ensures RowsIn(mcvs, |mcvs|) <= total && |mcvs| <= distinct
    ensures AverageOfOthers(distinct - |mcvs|, total - RowsIn(mcvs, |mcvs|), r)
    ensures r == 0 ==> multiset(s)[v] == 0
  {
    KeptRowsFit(s, mcvs, max, less);
    var mcvRows := SumRows(mcvs);
    r := RoundedAverage(total - mcvRows, distinct - |mcvs|);
    RestIsRight(s, mcvs, max, less, v, r);
  }

  // At least one row per value, if there are any of both.
  method RoundedAverage(rows: nat, others: nat) returns (r: nat)
    ensures r == if others == 0 || rows == 0 then 0 else Average(rows, others)
  {
    if others == 0 || rows == 0 {
      return 0;
    }
    var average := Average(rows, others);
    r := if average == 0 then 1 else average;
    AverageIs(rows, others);
  }

  lemma RestIsRight<T(!new)>(s: seq<T>, mcvs: seq<Run<T>>, max: nat, less: (T, T) -> bool, v: T, r: nat)
    requires KeepsBest(s, mcvs, max, less) && !Kept(mcvs, v)
    requires RowsIn(mcvs, |mcvs|) <= |s| && |mcvs| <= |Runs(s, 0)|
    requires var others, rows := |Runs(s, 0)| - |mcvs|, |s| - RowsIn(mcvs, |mcvs|);
      r == if others == 0 || rows == 0 then 0 else Average(rows, others)
    ensures |Runs(s, 0)| <= max ==> r == 0 == multiset(s)[v]
    ensures forall m :: m in mcvs ==> r <= m.frequency
    ensures AverageOfOthers(|Runs(s, 0)| - |mcvs|, |s| - RowsIn(mcvs, |mcvs|), r)
    ensures r == 0 ==> multiset(s)[v] == 0
  {
    RestFacts(s, mcvs, max, less, v);
    RowsAreLeft(s, mcvs, max, less);
    if |mcvs| < |Runs(s, 0)| {
      AverageIs(|s| - RowsIn(mcvs, |mcvs|), |Runs(s, 0)| - |mcvs|);
    } else {
      KeptAreTrue(s, mcvs, max, less);
    }
  }

  method SumRows<T>(mcvs: seq<Run<T>>) returns (rows: nat)
    ensures rows == RowsIn(mcvs, |mcvs|)
  {
    rows := 0;
    for k := 0 to |mcvs|
      invariant rows == RowsIn(mcvs, k)
    {
      rows := rows + mcvs[k].frequency;
    }
  }

  // No value is further off than the least kept frequency.
  lemma RestIsNear<T(!new)>(s: seq<T>, mcvs: seq<Run<T>>, max: nat, less: (T, T) -> bool, v: T, r: nat)
    requires KeepsBest(s, mcvs, max, less) && !Kept(mcvs, v) && max > 0
    requires forall m :: m in mcvs ==> r <= m.frequency
    requires |Runs(s, 0)| <= max ==> r == multiset(s)[v]
    ensures multiset(s)[v] - FrequencyError(mcvs, |Runs(s, 0)|, max, v) <= r
    ensures r <= multiset(s)[v] + FrequencyError(mcvs, |Runs(s, 0)|, max, v)
  {
    KeptAreTrue(s, mcvs, max, less);
    if |Runs(s, 0)| > max {
      OthersAreRarer(s, mcvs, max, less, v, mcvs[|mcvs| - 1]);
    }
  }
}
