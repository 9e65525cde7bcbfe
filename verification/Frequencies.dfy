/** The most common entries of a sorted column, or of sorted pairs of columns:
    runs of equal entries, the best of them kept
    (src/generic_index_stats.c:549-569, src/generic_index_correlation.c:414-432). */
module Frequencies {
  import opened Ranking

  datatype Run<T> = Run(value: T, frequency: nat, before: nat)

  ghost predicate TotalOrder<T(!new)>(less: (T, T) -> bool) {
    && (forall x, y :: less(x, y) || less(y, x) || x == y)
    && (forall x, y :: !(less(x, y) && less(y, x)))
    && (forall x, y, z :: less(x, y) && less(y, z) ==> less(x, z))
  }

  ghost predicate Sorted<T(!new)>(s: seq<T>, less: (T, T) -> bool) {
    forall i, j :: 0 <= i < j < |s| ==> !less(s[j], s[i])
  }

  // More rows first, then the smaller value.
  function Better<T>(less: (T, T) -> bool): (Run<T>, Run<T>) -> bool {
    (a: Run<T>, b: Run<T>) => a.frequency > b.frequency || (a.frequency == b.frequency && less(a.value, b.value))
  }

  lemma NotLess<T(!new)>(less: (T, T) -> bool, a: T, b: T, c: T)
    requires TotalOrder(less) && !less(a, b) && !less(b, c)
    ensures !less(a, c)
  {
    assert less(b, a) || a == b;
    assert less(c, b) || b == c;
  }

  lemma TotalIsWeak<T(!new)>(less: (T, T) -> bool)
    requires TotalOrder(less)
    ensures StrictWeak(less)
  {
    forall x ensures !less(x, x) {
      assert !(less(x, x) && less(x, x));
    }
    forall x, y, z | !less(x, y) && !less(y, z) ensures !less(x, z) {
      NotLess(less, x, y, z);
    }
  }

  lemma BetterRanks<T(!new)>(less: (T, T) -> bool)
    requires TotalOrder(less)
    ensures StrictWeak(Better(less))
  {
    var better := Better(less);
    forall x ensures !better(x, x) {
      assert !(less(x.value, x.value) && less(x.value, x.value));
    }
    forall x, y, z | !better(x, y) && !better(y, z) ensures !better(x, z) {
      if x.frequency == y.frequency == z.frequency {
        NotLess(less, x.value, y.value, z.value);
      }
    }
    forall x, y, z | better(x, y) && better(y, z) ensures better(x, z) {
      if x.frequency == y.frequency == z.frequency {
        assert less(x.value, y.value) && less(y.value, z.value);
      }
    }
  }

  function RunEnd<T(==)>(s: seq<T>, start: nat, end: nat): (e: nat)
    requires start < end <= |s|
    requires forall k :: start <= k < end ==> s[k] == s[start]
    ensures end <= e <= |s|
    ensures forall k :: start <= k < e ==> s[k] == s[start]
    ensures e < |s| ==> s[e] != s[start]
    decreases |s| - end
  {
    if end < |s| && s[end] == s[start] then RunEnd(s, start, end + 1) else end
  }

  function Runs<T(==)>(s: seq<T>, start: nat): seq<Run<T>>
    requires start <= |s|
    decreases |s| - start
  {
    if start == |s| then []
    else
      var e := RunEnd(s, start, start + 1);
      [Run(s[start], e - start, start)] + Runs(s, e)
  }

  // A maximal stretch of one value.
  ghost predicate TrueRun<T>(s: seq<T>, r: Run<T>) {
    && r.frequency > 0 && r.before + r.frequency <= |s|
    && (forall k :: r.before <= k < r.before + r.frequency ==> s[k] == r.value)
    && (r.before > 0 ==> s[r.before - 1] != r.value)
    && (r.before + r.frequency < |s| ==> s[r.before + r.frequency] != r.value)
  }

  ghost predicate Covered<T>(runs: seq<Run<T>>, k: nat) {
    exists r :: r in runs && r.before <= k < r.before + r.frequency
  }

  lemma {:induction false} RunsAreTrue<T>(s: seq<T>, start: nat)
    requires start <= |s| && (0 < start < |s| ==> s[start - 1] != s[start])
    ensures forall r :: r in Runs(s, start) ==> TrueRun(s, r) && r.before >= start
    ensures forall k :: start <= k < |s| ==> Covered(Runs(s, start), k)
    decreases |s| - start
  {
    if start < |s| {
      var e := RunEnd(s, start, start + 1);
      var r := Run(s[start], e - start, start);
      RunsAreTrue(s, e);
      assert r in Runs(s, start);
      forall k | start <= k < |s| ensures Covered(Runs(s, start), k) {
        if k < e {
          assert r.before <= k < r.before + r.frequency;
        } else {
          assert Covered(Runs(s, e), k);
          var q :| q in Runs(s, e) && q.before <= k < q.before + q.frequency;
          assert q in Runs(s, start);
        }
      }
    }
  }

  // How many of the first `n` entries are at most `v`.
  function AtMost<T>(s: seq<T>, v: T, n: nat, less: (T, T) -> bool): (c: nat)
    requires n <= |s|
    ensures c <= n
  {
    if n == 0 then 0 else AtMost(s, v, n - 1, less) + if less(v, s[n - 1]) then 0 else 1
  }

  lemma {:induction false} Cut<T>(s: seq<T>, v: T, n: nat, c: nat, less: (T, T) -> bool)
    requires c <= n <= |s|
    requires forall i :: 0 <= i < c ==> !less(v, s[i])
    requires forall i :: c <= i < n ==> less(v, s[i])
    ensures AtMost(s, v, n, less) == c
    decreases n
  {
    if n > 0 {
      Cut(s, v, n - 1, if c < n then c else n - 1, less);
    }
  }

  // Entries `lo` and `hi` around `v` bracket its count.
  lemma {:induction false} Bracket<T(!new)>(s: seq<T>, v: T, n: nat, lo: int, hi: nat, less: (T, T) -> bool)
    requires Sorted(s, less) && TotalOrder(less) && -1 <= lo < hi <= n <= |s|
    requires lo >= 0 ==> !less(v, s[lo])
    requires hi < |s| ==> less(v, s[hi])
    ensures lo + 1 <= AtMost(s, v, n, less) <= hi
    decreases n
  {
    if n > hi {
      assert hi < n - 1 ==> !less(s[n - 1], s[hi]);
      Bracket(s, v, n - 1, lo, hi, less);
    } else {
      Below(s, v, n, lo, less);
    }
  }

  lemma {:induction false} Below<T(!new)>(s: seq<T>, v: T, n: nat, lo: int, less: (T, T) -> bool)
    requires Sorted(s, less) && TotalOrder(less) && -1 <= lo < n <= |s|
    requires lo >= 0 ==> !less(v, s[lo])
    ensures lo + 1 <= AtMost(s, v, n, less)
    decreases n
  {
    if lo >= 0 {
      if lo == n - 1 {
        assert n >= 2 ==> !less(s[lo], s[n - 2]);
        Below(s, v, n - 1, lo - 1, less);
      } else {
        Below(s, v, n - 1, lo, less);
      }
    }
  }

  // A run of the sorted column tells exactly how many rows hold its value and
  // how many hold a smaller one.
  lemma RunCounts<T(!new)>(s: seq<T>, r: Run<T>, less: (T, T) -> bool)
    requires Sorted(s, less) && TotalOrder(less) && TrueRun(s, r)
    ensures AtMost(s, r.value, |s|, less) == r.before + r.frequency
    ensures multiset(s)[r.value] == r.frequency
  {
    var b, e := r.before, r.before + r.frequency;
    forall i | 0 <= i < b ensures less(s[i], r.value) {
      assert !less(s[b], s[b - 1]);
      assert i < b - 1 ==> !less(s[b - 1], s[i]);
    }
    forall i | e <= i < |s| ensures less(r.value, s[i]) {
      assert !less(s[e], s[e - 1]);
      assert i > e ==> !less(s[i], s[e]);
    }
    Cut(s, r.value, |s|, e, less);
    CountStretch(s, r.value, b, e);
  }

  lemma CountStretch<T>(s: seq<T>, v: T, b: nat, e: nat)
    requires b <= e <= |s|
    requires forall i :: 0 <= i < |s| ==> (s[i] == v <==> b <= i < e)
    ensures multiset(s)[v] == e - b
  {
    assert s == s[..b] + s[b..e] + s[e..];
    assert v !in s[..b] && v !in s[e..];
    AllOne(s[b..e], v);
  }

  lemma {:induction false} AllOne<T>(s: seq<T>, v: T)
    requires forall i :: 0 <= i < |s| ==> s[i] == v
    ensures multiset(s)[v] == |s|
  {
    if s != [] {
      AllOne(s[1..], v);
      assert s == [s[0]] + s[1..];
    }
  }

  lemma {:induction false} RankedPrefix<T>(s: seq<T>, t: seq<T>, n: nat, better: (T, T) -> bool)
    requires n <= |s| && n <= |t| && s[..n] == t[..n]
    ensures Ranked(s, n, better) == Ranked(t, n, better)
  {
    if n > 0 {
      assert s[..n - 1] == s[..n][..n - 1] && t[..n - 1] == t[..n][..n - 1];
      assert s[n - 1] == s[..n][n - 1] == t[..n][n - 1] == t[n - 1];
      RankedPrefix(s, t, n - 1, better);
    }
  }

  lemma NextRanked<T(!new)>(done: seq<T>, x: T, k: nat, better: (T, T) -> bool)
    requires StrictWeak(better) && k > 0
    ensures Best(Ranked(done + [x], |done| + 1, better), k) ==
      Considered(Best(Ranked(done, |done|, better), k), x, k, better)
  {
    assert (done + [x])[..|done|] == done[..|done|];
    RankedPrefix(done + [x], done, |done|, better);
    RankedOrdered(done, |done|, better);
    BestOfInsert(Ranked(done, |done|, better), x, k, better);
  }

  method FindRunEnd<T(==)>(s: seq<T>, runStart: nat) returns (runEnd: nat)
    requires runStart < |s|
    ensures runEnd == RunEnd(s, runStart, runStart + 1)
  {
    runEnd := runStart + 1;
    while runEnd < |s| && s[runStart] == s[runEnd]
      invariant runStart < runEnd <= |s|
      invariant forall k :: runStart <= k < runEnd ==> s[k] == s[runStart]
      invariant RunEnd(s, runStart, runStart + 1) == RunEnd(s, runStart, runEnd)
    {
      runEnd := runEnd + 1;
    }
  }

  lemma Regroup<T>(all: seq<T>, done: seq<T>, x: T, rest: seq<T>, tail: seq<T>)
    requires all == done + tail && tail == [x] + rest
    ensures all == (done + [x]) + rest
  {
    assert done + ([x] + rest) == (done + [x]) + rest;
  }

  lemma RunsUnfold<T>(s: seq<T>, start: nat)
    requires start < |s|
    ensures
      var e := RunEnd(s, start, start + 1);
      Runs(s, start) == [Run(s[start], e - start, start)] + Runs(s, e)
  {
  }

  // Runs of the sorted entries go through the selection one by one; the array
  // ends up holding exactly the best of all runs.
  method CollectRuns<T(!new, ==)>(s: seq<T>, entries: array<Run<T>>, less: (T, T) -> bool)
    returns (count: nat, distinct: nat)
    requires entries.Length > 0 && TotalOrder(less)
    modifies entries
    ensures count <= entries.Length && distinct == |Runs(s, 0)|
    ensures entries[..count] == Best(Ranked(Runs(s, 0), |Runs(s, 0)|, Better(less)), entries.Length)
  {
    BetterRanks(less);
    count, distinct := 0, 0;
    var runStart := 0;
    ghost var done: seq<Run<T>> := [];
    while runStart < |s|
      invariant 0 <= runStart <= |s| && count <= entries.Length && distinct == |done|
      invariant Runs(s, 0) == done + Runs(s, runStart)
      invariant entries[..count] == Best(Ranked(done, |done|, Better(less)), entries.Length)
    {
      var runEnd := FindRunEnd(s, runStart);
      distinct := distinct + 1;
      var run := Run(s[runStart], runEnd - runStart, runStart);
      NextRanked(done, run, entries.Length, Better(less));
      count := Consider(entries, count, run, Better(less));
      RunsUnfold(s, runStart);
      Regroup(Runs(s, 0), done, run, Runs(s, runEnd), Runs(s, runStart));
      done := done + [run];
      runStart := runEnd;
    }
    assert done + [] == done;
  }
}
