/** Choosing index sources by estimated cost, and running the chosen plan
    (src/generic_index_intersection_sql.c:179-352, src/generic_index_cost.h:10-38,
    src/generic_index_anchor_v2_sql.c:159-322).  Estimators are oracles: they may
    answer anything or nothing. */
module IndexPlanner {
  import opened Pages
  import opened Lexer
  import opened Conjunctions
  import opened IndexBounds
  import opened IndexPlans

  const MAX_SOURCES: nat := 16

  // Row counts are 32 bits wide, costs 64 bits.
  type Tally = n: nat | n <= UINT32_MAX
  const WORD: nat := 0x1_0000_0000_0000_0000

  datatype Source = Source(column: nat, term: nat, estimate: Tally)
  datatype Estimate = Unknown | Estimate(candidates: Tally, total: Tally)

  function Columns(s: seq<Source>): (c: seq<nat>)
    ensures |c| == |s| && forall i :: 0 <= i < |c| ==> c[i] == s[i].column
  {
    seq(|s|, i requires 0 <= i < |s| => s[i].column)
  }

  // A source answers a sortable test of its indexed column, an equality if there is one so far.
  predicate SourceOk(tests: seq<Predicate>, indexed: set<nat>, seen: nat, s: Source) {
    && s.column in indexed && s.column != 0 && s.term < seen <= |tests|
    && tests[s.term].column == s.column && tests[s.term].op != Like
    && ((exists k :: 0 <= k < seen && tests[k].column == s.column && tests[k].op == Eq) ==> tests[s.term].op == Eq)
  }

  method FindSource(sources: array<Source>, count: nat, column: nat) returns (i: nat)
    requires count <= sources.Length
    ensures i <= count && (i < count ==> sources[i].column == column)
    ensures forall k :: 0 <= k < i ==> sources[k].column != column
  {
    i := 0;
    while i < count && sources[i].column != column
      invariant 0 <= i <= count && forall k :: 0 <= k < i ==> sources[k].column != column
    {
      i := i + 1;
    }
  }

  predicate UsableTest(t: Predicate, indexed: set<nat>) {
    t.op != Like && t.column != 0 && t.column in indexed
  }

  // The indexed columns that a sortable test among the first `n` mentions.
  ghost function Usable(tests: seq<Predicate>, n: nat, indexed: set<nat>): set<nat> {
    set k | 0 <= k < n && k < |tests| && UsableTest(tests[k], indexed) :: tests[k].column
  }

  lemma UsableNext(tests: seq<Predicate>, n: nat, indexed: set<nat>)
    requires n < |tests|
    ensures Usable(tests, n + 1, indexed)
         == Usable(tests, n, indexed) + if UsableTest(tests[n], indexed) then {tests[n].column} else {}
    ensures Usable(tests, n + 1, indexed) <= Usable(tests, |tests|, indexed)
  {
  }

  // The first `count` sources are the columns usable so far.
  ghost predicate SourcesAre(sources: seq<Source>, tests: seq<Predicate>, p: nat, indexed: set<nat>) {
    && (forall i :: 0 <= i < |sources| ==> SourceOk(tests, indexed, p, sources[i]))
    && Distinct(Columns(sources))
    && Elements(Columns(sources)) == Usable(tests, p, indexed)
  }

  lemma SourcesCount(sources: seq<Source>, tests: seq<Predicate>, p: nat, indexed: set<nat>)
    requires SourcesAre(sources, tests, p, indexed)
    ensures |sources| == |Usable(tests, p, indexed)|
  {
    DistinctCardinality(Columns(sources));
  }

  lemma SourceSkips(sources: seq<Source>, tests: seq<Predicate>, p: nat, indexed: set<nat>)
    requires SourcesAre(sources, tests, p, indexed) && p < |tests| && !UsableTest(tests[p], indexed)
    ensures SourcesAre(sources, tests, p + 1, indexed)
  {
    UsableNext(tests, p, indexed);
  }

  // A test of a known column replaces the test of its source, if it is an equality and that one is not.
  lemma SourceKnown(sources: seq<Source>, tests: seq<Predicate>, p: nat, indexed: set<nat>, i: nat)
    requires SourcesAre(sources, tests, p, indexed) && p < |tests| && UsableTest(tests[p], indexed)
    requires i < |sources| && sources[i].column == tests[p].column
    ensures
      var t := sources[i].term;
      && t < |tests|
      && SourcesAre(if tests[p].op == Eq && tests[t].op != Eq then sources[i := sources[i].(term := p)] else sources,
                    tests, p + 1, indexed)
  {
    assert SourceOk(tests, indexed, p, sources[i]);
    var t := sources[i].term;
    var after := if tests[p].op == Eq && tests[t].op != Eq then sources[i := sources[i].(term := p)] else sources;
    assert Columns(after) == Columns(sources);
    UsableNext(tests, p, indexed);
    assert Columns(sources)[i] == tests[p].column;
    forall j | 0 <= j < |after| ensures SourceOk(tests, indexed, p + 1, after[j]) {
      assert SourceOk(tests, indexed, p, sources[j]);
      assert j != i ==> Columns(sources)[j] != Columns(sources)[i];
    }
  }

  lemma SourceAdded(sources: seq<Source>, tests: seq<Predicate>, p: nat, indexed: set<nat>)
    requires SourcesAre(sources, tests, p, indexed) && p < |tests| && UsableTest(tests[p], indexed)
    requires tests[p].column !in Columns(sources)
    ensures SourcesAre(sources + [Source(tests[p].column, p, 0)], tests, p + 1, indexed)
  {
    var after := sources + [Source(tests[p].column, p, 0)];
    assert Columns(after) == Columns(sources) + [tests[p].column];
    UsableNext(tests, p, indexed);
    assert forall k :: 0 <= k < p && UsableTest(tests[k], indexed) ==> tests[k].column in Usable(tests, p, indexed);
    forall j | 0 <= j < |after| ensures SourceOk(tests, indexed, p + 1, after[j]) {
      if j < |sources| {
        assert SourceOk(tests, indexed, p, sources[j]);
        assert Columns(sources)[j] != tests[p].column;
      }
    }
  }

  // One source per indexed column that a sortable test mentions, if there are
  // at least two and no more than fit.
  method ChooseSources(tests: seq<Predicate>, indexed: set<nat>, sources: array<Source>) returns (ok: bool, count: nat)
    requires sources.Length == MAX_SOURCES
    modifies sources
    ensures count <= sources.Length
    ensures ok <==> 2 <= |Usable(tests, |tests|, indexed)| <= MAX_SOURCES
    ensures ok ==> SourcesAre(sources[..count], tests, |tests|, indexed) && count == |Usable(tests, |tests|, indexed)|
  {
    count := 0;
    assert Columns(sources[..0]) == [];
    for p := 0 to |tests|
      invariant count <= sources.Length && SourcesAre(sources[..count], tests, p, indexed)
    {
      var t := tests[p];
      if !UsableTest(t, indexed) {
        SourceSkips(sources[..count], tests, p, indexed);
        continue;
      }
      ghost var before := sources[..count];
      var existing := FindSource(sources, count, t.column);
      if existing < count {
        SourceKnown(before, tests, p, indexed, existing);
        if t.op == Eq && tests[sources[existing].term].op != Eq {
          sources[existing] := sources[existing].(term := p);
          assert sources[..count] == before[existing := before[existing].(term := p)];
        }
      } else {
        SourceAdded(before, tests, p, indexed);
        if count >= sources.Length {
          SourcesCount(before + [Source(t.column, p, 0)], tests, p + 1, indexed);
          UsableNext(tests, p, indexed);
          SubsetCardinality(Usable(tests, p + 1, indexed), Usable(tests, |tests|, indexed));
          return false, count;
        }
        sources[count] := Source(t.column, p, 0);
        count := count + 1;
        assert sources[..count] == before + [Source(t.column, p, 0)];
      }
    }
    SourcesCount(sources[..count], tests, |tests|, indexed);
    ok := count >= 2;
  }

  // Everything from `i` on before `smallest` is larger.
  ghost predicate FirstOfSmallest(s: seq<Source>, i: nat, smallest: nat) {
    smallest < |s| && forall b :: i <= b < smallest ==> s[smallest].estimate < s[b].estimate
  }

  method FindSmallest(sources: array<Source>, i: nat, count: nat) returns (smallest: nat)
    requires i < count <= sources.Length
    ensures i <= smallest < count
    ensures forall b :: i <= b < count ==> sources[smallest].estimate <= sources[b].estimate
    ensures FirstOfSmallest(sources[..count], i, smallest)
  {
    smallest := i;
    var j := i + 1;
    while j < count
      invariant i <= smallest < count && i < j <= count
      invariant forall b :: i <= b < j ==> sources[smallest].estimate <= sources[b].estimate
      invariant forall b :: i <= b < smallest ==> sources[smallest].estimate < sources[b].estimate
    {
      if sources[j].estimate < sources[smallest].estimate {
        smallest := j;
      }
      j := j + 1;
    }
  }

  lemma SwapBag<T>(s: seq<T>, i: nat, j: nat)
    requires i < |s| && j < |s|
    ensures multiset(s[i := s[j]][j := s[i]]) == multiset(s)
  {
  }

  method SwapSources(sources: array<Source>, count: nat, i: nat, j: nat)
    requires i < count <= sources.Length && j < count
    modifies sources
    ensures sources[..count] == old(sources[..count])[i := old(sources[j])][j := old(sources[i])]
    ensures multiset(sources[..count]) == multiset(old(sources[..count]))
  {
    ghost var before := sources[..count];
    SwapBag(before, i, j);
    sources[i], sources[j] := sources[j], sources[i];
    assert sources[..count] == before[i := before[j]][j := before[i]];
  }

  // Selection sort by estimate.
  method SortSources(sources: array<Source>, count: nat)
    requires count <= sources.Length
    modifies sources
    ensures multiset(sources[..count]) == multiset(old(sources[..count]))
    ensures forall i, j :: 0 <= i < j < count ==> sources[..count][i].estimate <= sources[..count][j].estimate
  {
    var i := 0;
    while i < count
      invariant 0 <= i <= count
      invariant multiset(sources[..count]) == multiset(old(sources[..count]))
      invariant InPlace(sources[..count], i)
    {
      var smallest := FindSmallest(sources, i, count);
      ghost var before := sources[..count];
      if smallest != i {
        SwapSources(sources, count, i, smallest);
      }
      SortedStep(before, sources[..count], i, smallest);
      i := i + 1;
    }
  }

  // The first `i` sources are where they belong.
  predicate InPlace(s: seq<Source>, i: nat) {
    forall a, b :: 0 <= a < i && a < b < |s| ==> s[a].estimate <= s[b].estimate
  }

  lemma SortedStep(before: seq<Source>, after: seq<Source>, i: nat, smallest: nat)
    requires i <= smallest < |before| && after == before[i := before[smallest]][smallest := before[i]]
    requires forall b :: i <= b < |before| ==> before[smallest].estimate <= before[b].estimate
    requires InPlace(before, i)
    ensures InPlace(after, i + 1)
  {
  }

  function ScanCost(rows: nat): nat { rows * 3 }

  function AnchorCost(rows: nat): nat { rows * 5 }

  function Sum(rows: seq<nat>, n: nat): nat
    requires n <= |rows|
  {
    if n == 0 then 0 else Sum(rows, n - 1) + rows[n - 1]
  }

  function Share(a: nat, b: nat, total: nat): nat
    requires total > 0
  {
    a * b / total
  }

  // Rows expected in all of the first `n` sources, taken to be independent.
  function Survivors(rows: seq<nat>, n: nat, tableRows: nat): nat
    requires n <= |rows| && tableRows > 0
  {
    if n == 0 then tableRows else Share(Survivors(rows, n - 1, tableRows), rows[n - 1], tableRows)
  }

  // The same in 64 bits, where a product may wrap around.
  function WrappedShare(a: nat, b: nat, total: nat): nat
    requires total > 0
  {
    a * b % WORD / total
  }

  function WrappedSurvivors(rows: seq<nat>, n: nat, tableRows: nat): nat
    requires n <= |rows| && tableRows > 0
  {
    if n == 0 then tableRows else WrappedShare(WrappedSurvivors(rows, n - 1, tableRows), rows[n - 1], tableRows)
  }

  lemma Shrinks(a: nat, b: nat, total: nat)
    requires total > 0 && a <= total && b <= total
    ensures Share(a, b, total) <= a && Share(a, b, total) <= b
  {
    Scaled(a, b, total);
    Scaled(b, a, total);
  }

  lemma Scaled(a: nat, b: nat, total: nat)
    requires total > 0 && b <= total
    ensures a * b / total <= a
  {
    assert a * b <= a * total;
    assert a * b / total <= a * total / total;
  }

  // Sources within the table never leave more rows than the smallest of them, so
  // no product exceeds 64 bits.
  lemma {:induction false} SurvivorsFit(rows: seq<nat>, n: nat, tableRows: nat)
    requires n <= |rows| && 0 < tableRows <= UINT32_MAX
    requires forall i :: 0 <= i < n ==> rows[i] <= tableRows
    ensures Survivors(rows, n, tableRows) <= tableRows
    ensures forall i :: 0 <= i < n ==> Survivors(rows, n, tableRows) <= rows[i]
    ensures WrappedSurvivors(rows, n, tableRows) == Survivors(rows, n, tableRows)
  {
    if n > 0 {
      SurvivorsFit(rows, n - 1, tableRows);
      var before := Survivors(rows, n - 1, tableRows);
      Shrinks(before, rows[n - 1], tableRows);
      ProductFits(before, rows[n - 1], tableRows);
    }
  }

  lemma ProductFits(a: nat, b: nat, total: nat)
    requires a <= UINT32_MAX && b <= UINT32_MAX && total > 0
    ensures WrappedShare(a, b, total) == Share(a, b, total)
  {
    assert a * b <= UINT32_MAX * b;
    SmallModulo(a * b, WORD);
  }

  lemma SmallModulo(x: nat, m: nat)
    requires x < m
    ensures x % m == x
  {
  }

  // Beyond the table it can: three sources that claim 2^32 - 1 rows of a table of one.
  lemma WrapMatters()
    ensures var rows := [UINT32_MAX, UINT32_MAX, UINT32_MAX];
      && Survivors(rows, 3, 1) == 0xFFFF_FFFF * 0xFFFF_FFFF * 0xFFFF_FFFF
      && WrappedSurvivors(rows, 3, 1) == 0x2_FFFF_FFFF
  {
    var rows := [UINT32_MAX, UINT32_MAX, UINT32_MAX];
    assert Survivors(rows, 1, 1) == WrappedSurvivors(rows, 1, 1) == UINT32_MAX;
    assert Survivors(rows, 2, 1) == WrappedSurvivors(rows, 2, 1) == UINT32_MAX * UINT32_MAX;
  }

  // Index entries read plus the rows expected to survive all sources.
  function Cost(rows: seq<nat>, tableRows: nat): nat {
    if |rows| == 0 || tableRows == 0 then 0
    else
      var left := WrappedSurvivors(rows, |rows|, tableRows);
      Sum(rows, |rows|) + (if left > UINT32_MAX then UINT32_MAX else left) * 4
  }

  // One step of the estimate: the share of the rows so far that the next source keeps.
  lemma SurvivorsStep(rows: seq<nat>, n: nat, tableRows: nat)
    requires n < |rows| && tableRows > 0
    ensures Survivors(rows, 0, tableRows) == tableRows
    ensures var (before, after) := (Survivors(rows, n, tableRows), Survivors(rows, n + 1, tableRows));
      after * tableRows <= before * rows[n] < (after + 1) * tableRows
  {
  }

  // What an intersection costs, for sources no larger than the table: an index entry
  // read per source row and a row fetched, at four times the price, per survivor.
  lemma CostIs(rows: seq<nat>, tableRows: nat)
    requires rows != [] && 0 < tableRows <= UINT32_MAX && forall i :: 0 <= i < |rows| ==> rows[i] <= tableRows
    ensures Cost(rows, tableRows) == Sum(rows, |rows|) + 4 * Survivors(rows, |rows|, tableRows)
  {
    SurvivorsFit(rows, |rows|, tableRows);
  }

  // Sums of sixteen row counts are far from wrapping.
  lemma CostFits(rows: seq<nat>, tableRows: nat)
    requires |rows| <= MAX_SOURCES && forall i :: 0 <= i < |rows| ==> rows[i] <= UINT32_MAX
    ensures Cost(rows, tableRows) < WORD
  {
    SumFits(rows, |rows|);
  }

  lemma {:induction false} SumFits(rows: seq<nat>, n: nat)
    requires n <= |rows| && forall i :: 0 <= i < |rows| ==> rows[i] <= UINT32_MAX
    ensures Sum(rows, n) <= n * UINT32_MAX
  {
    if n > 0 {
      SumFits(rows, n - 1);
    }
  }

  method IntersectionCost(rows: seq<nat>, tableRows: nat) returns (cost: nat)
    ensures cost == Cost(rows, tableRows)
  {
    if |rows| == 0 || tableRows == 0 {
      return 0;
    }
    var estimate: nat := tableRows;
    cost := 0;
    for i := 0 to |rows|
      invariant cost == Sum(rows, i) && estimate == WrappedSurvivors(rows, i, tableRows)
    {
      cost := cost + rows[i];
      estimate := WrappedShare(estimate, rows[i], tableRows);
    }
    cost := cost + (if estimate > UINT32_MAX then UINT32_MAX else estimate) * 4;
  }

  // The same columns, as often.
  ghost predicate SameSources(a: seq<Source>, b: seq<Source>) {
    |a| == |b| && forall c :: c in Columns(a) <==> c in Columns(b)
  }

  lemma ShuffledSources(a: seq<Source>, b: seq<Source>)
    requires multiset(a) == multiset(b)
    ensures SameSources(a, b)
  {
    assert |multiset(a)| == |a| && |multiset(b)| == |b|;
    forall c ensures c in Columns(a) <==> c in Columns(b) {
      if c in Columns(a) {
        var i :| 0 <= i < |a| && a[i].column == c;
        SameMembers(a, b, a[i]);
        var j :| 0 <= j < |b| && b[j] == a[i];
        assert Columns(b)[j] == c;
      }
      if c in Columns(b) {
        var i :| 0 <= i < |b| && b[i].column == c;
        SameMembers(a, b, b[i]);
        var j :| 0 <= j < |a| && a[j] == b[i];
        assert Columns(a)[j] == c;
      }
    }
  }

  // Every estimator of the first `n` sources answered, and none answered zero.
  predicate Informed(oracle: seq<Estimate>, n: nat) {
    forall i :: 0 <= i < n && i < |oracle| ==> oracle[i].Estimate? && oracle[i].candidates > 0
  }

  function MaxTotal(oracle: seq<Estimate>, n: nat): nat
    requires n <= |oracle|
  {
    if n == 0 || oracle[n - 1].Unknown? then 0
    else if oracle[n - 1].total > MaxTotal(oracle, n - 1) then oracle[n - 1].total
    else MaxTotal(oracle, n - 1)
  }

  // The largest table size any of the estimators reports.
  lemma {:induction false} MaxTotalIs(oracle: seq<Estimate>, n: nat)
    requires 0 < n <= |oracle| && forall i :: 0 <= i < n ==> oracle[i].Estimate?
    ensures forall i :: 0 <= i < n ==> oracle[i].total <= MaxTotal(oracle, n)
    ensures exists i :: 0 <= i < n && oracle[i].total == MaxTotal(oracle, n)
  {
    if n > 1 {
      MaxTotalIs(oracle, n - 1);
      var i :| 0 <= i < n - 1 && oracle[i].total == MaxTotal(oracle, n - 1);
      assert oracle[if oracle[n - 1].total > MaxTotal(oracle, n - 1) then n - 1 else i].total == MaxTotal(oracle, n);
    } else {
      assert oracle[0].total == MaxTotal(oracle, 1);
    }
  }

  function Estimates(s: seq<Source>): (e: seq<nat>)
    ensures |e| == |s| && forall i :: 0 <= i < |e| ==> e[i] == s[i].estimate
  {
    seq(|s|, i requires 0 <= i < |s| => s[i].estimate)
  }

  function Candidates(oracle: seq<Estimate>, n: nat): (e: seq<nat>)
    requires n <= |oracle| && forall i :: 0 <= i < n ==> oracle[i].Estimate?
    ensures |e| == n && forall i :: 0 <= i < n ==> e[i] == oracle[i].candidates
  {
    seq(n, i requires 0 <= i < n => oracle[i].candidates)
  }

  // The decision by price: an intersection of the first `n` sources, the smallest first,
  // is taken if it costs no more than an anchor at the smallest or a scan.
  ghost predicate DecidedByPrice(oracle: seq<Estimate>, n: nat, taken: bool) {
    && 0 < n <= |oracle| && (forall i :: 0 <= i < n ==> oracle[i].Estimate?)
    && exists rows: seq<nat> ::
      && multiset(rows) == multiset(Candidates(oracle, n)) && |rows| == n
      && (forall i, j :: 0 <= i < j < n ==> rows[i] <= rows[j])
      && (taken <==> Cost(rows, MaxTotal(oracle, n)) <= 5 * rows[0]
                     && Cost(rows, MaxTotal(oracle, n)) <= 3 * MaxTotal(oracle, n))
  }

  lemma {:induction false} EstimatesBag(a: seq<Source>, b: seq<Source>)
    requires multiset(a) == multiset(b)
    ensures multiset(Estimates(a)) == multiset(Estimates(b))
  {
    if a == [] {
      assert |multiset(b)| == 0;
    } else {
      assert a[0] in multiset(b);
      var j :| 0 <= j < |b| && b[j] == a[0];
      var front, back := b[..j], b[j + 1..];
      WithoutOne(a, b, j, front, back);
      EstimatesBag(a[1..], front + back);
      EstimatesSplit([], a[0], a[1..]);
      EstimatesSplit(front, b[j], back);
    }
  }

  lemma WithoutOne(a: seq<Source>, b: seq<Source>, j: nat, front: seq<Source>, back: seq<Source>)
    requires multiset(a) == multiset(b) && a != [] && j < |b| && b[j] == a[0]
    requires front == b[..j] && back == b[j + 1..]
    ensures multiset(a[1..]) == multiset(front + back)
    ensures [] + a[1..] == a[1..] && [] + [a[0]] + a[1..] == a && front + [b[j]] + back == b
  {
    assert a == [a[0]] + a[1..] && b == front + [b[j]] + back;
    BagWithout(a[0], a[1..], front, back);
  }

  lemma BagWithout(x: Source, rest: seq<Source>, front: seq<Source>, back: seq<Source>)
    requires multiset([x] + rest) == multiset(front + [x] + back)
    ensures multiset(rest) == multiset(front + back)
  {
    assert multiset([x] + rest) == multiset{x} + multiset(rest);
    assert multiset(front + [x] + back) == multiset{x} + multiset(front + back);
    forall y ensures multiset(rest)[y] == multiset(front + back)[y] {
      assert multiset([x] + rest)[y] == multiset(front + [x] + back)[y];
    }
  }

  lemma EstimatesSplit(front: seq<Source>, x: Source, back: seq<Source>)
    ensures multiset(Estimates(front + [x] + back)) == multiset(Estimates(front + back)) + multiset{x.estimate}
  {
    assert Estimates(front + [x] + back) == Estimates(front) + [x.estimate] + Estimates(back);
    assert Estimates(front + back) == Estimates(front) + Estimates(back);
  }

  // The sources with their estimates filled in.
  ghost predicate Priced(before: seq<Source>, after: seq<Source>, oracle: seq<Estimate>, n: nat) {
    && |before| == |after| && n <= |before| && n <= |oracle|
    && (forall i :: 0 <= i < n ==> oracle[i].Estimate? && after[i] == before[i].(estimate := oracle[i].candidates))
    && (forall i :: n <= i < |before| ==> after[i] == before[i])
  }

  lemma PricedColumns(before: seq<Source>, after: seq<Source>, oracle: seq<Estimate>, n: nat)
    requires Priced(before, after, oracle, n)
    ensures Columns(after) == Columns(before) && SameSources(after, before)
  {
  }

  lemma PricedNext(before: seq<Source>, prior: seq<Source>, after: seq<Source>, oracle: seq<Estimate>, n: nat)
    requires Priced(before, prior, oracle, n) && n < |before| && n < |oracle| && oracle[n].Estimate?
    requires after == prior[n := prior[n].(estimate := oracle[n].candidates)]
    ensures Priced(before, after, oracle, n + 1)
  {
  }

  lemma PriceDecides(priced: seq<Source>, sorted: seq<Source>, before: seq<Source>, oracle: seq<Estimate>, n: nat,
                     use: bool)
    requires Priced(before, priced, oracle, n) && n == |priced| > 0 && multiset(sorted) == multiset(priced)
    requires forall i, j :: 0 <= i < j < |sorted| ==> sorted[i].estimate <= sorted[j].estimate
    requires sorted != [] && var cost := Cost(Estimates(sorted), MaxTotal(oracle, n));
      use == (cost <= 5 * sorted[0].estimate && cost <= 3 * MaxTotal(oracle, n))
    ensures DecidedByPrice(oracle, n, use)
  {
    EstimatesBag(sorted, priced);
    assert Estimates(priced) == Candidates(oracle, n);
    assert |multiset(Estimates(sorted))| == |multiset(Estimates(priced))|;
  }

  // Reorders the sources by what the estimators say; no source is lost or
  // invented.  An empty source goes first and is used, as is anything an
  // estimator cannot price; otherwise the sources go in ascending order and are
  // used if that is cheaper than an anchor or a scan.
  method ApplyCostModel(sources: array<Source>, count: nat, oracle: seq<Estimate>) returns (use: bool)
    requires 0 < count <= sources.Length && |oracle| >= count
    modifies sources
    ensures SameSources(sources[..count], old(sources[..count]))
    ensures forall i :: 0 <= i < count && Informed(oracle, i) && oracle[i].Estimate? && oracle[i].candidates == 0 ==>
      sources[0].column == old(sources[i]).column
    ensures !Informed(oracle, count) ==> use
    ensures Informed(oracle, count) ==>
      (forall i, j :: 0 <= i < j < count ==> sources[..count][i].estimate <= sources[..count][j].estimate)
    ensures Informed(oracle, count) ==>
      (exists priced ::
         Priced(old(sources[..count]), priced, oracle, count) && multiset(sources[..count]) == multiset(priced))
    ensures Informed(oracle, count) ==>
      var cost := Cost(Estimates(sources[..count]), MaxTotal(oracle, count));
      use == (cost <= 5 * sources[0].estimate && cost <= 3 * MaxTotal(oracle, count))
    ensures Informed(oracle, count) ==> DecidedByPrice(oracle, count, use)
  {
    var tableRows := 0;
    ghost var before := sources[..count];
    for i := 0 to count
      invariant Priced(before, sources[..count], oracle, i) && Informed(oracle, i)
      invariant tableRows == MaxTotal(oracle, i)
    {
      PricedColumns(before, sources[..count], oracle, i);
      if oracle[i].Unknown? {
        return true;
      }
      ghost var prior := sources[..count];
      sources[i] := sources[i].(estimate := oracle[i].candidates);
      PricedNext(before, prior, sources[..count], oracle, i);
      PricedColumns(before, sources[..count], oracle, i + 1);
      if i == 0 || oracle[i].total > tableRows {
        tableRows := oracle[i].total;
      }
      if oracle[i].candidates == 0 {
        MoveToFront(sources, count, i);
        return true;
      }
    }
    ghost var priced := sources[..count];
    PricedColumns(before, priced, oracle, count);
    SortSources(sources, count);
    ShuffledSources(sources[..count], priced);
    var cost := IntersectionCost(Estimates(sources[..count]), tableRows);
    use := cost <= AnchorCost(sources[0].estimate) && cost <= ScanCost(tableRows);
    PriceDecides(priced, sources[..count], before, oracle, count, use);
  }

  method MoveToFront(sources: array<Source>, count: nat, i: nat)
    requires i < count <= sources.Length
    modifies sources
    ensures SameSources(sources[..count], old(sources[..count]))
    ensures sources[0] == old(sources[i])
  {
    ghost var before := sources[..count];
    var j := i;
    while j > 0
      invariant 0 <= j <= i
      invariant multiset(sources[..count]) == multiset(before)
      invariant sources[..count][j] == before[i]
    {
      SwapSources(sources, count, j - 1, j);
      j := j - 1;
    }
    ShuffledSources(before, sources[..count]);
  }

  // The sources of an intersection plan, in the order they are read, if it is to be used.
  method PlanIntersection(tests: seq<Predicate>, indexed: set<nat>, oracle: seq<Estimate>)
    returns (taken: bool, columns: seq<nat>)
    requires |oracle| == MAX_SOURCES
    ensures taken ==> columns != [] && Elements(columns) == Usable(tests, |tests|, indexed)
    ensures var n := |Usable(tests, |tests|, indexed)|;
      && (taken ==> 2 <= n <= 16) && (2 <= n <= 16 && !Informed(oracle, n) ==> taken)
      && (2 <= n <= 16 && Informed(oracle, n) ==> DecidedByPrice(oracle, n, taken))
  {
    columns := [];
    var sources := new Source[MAX_SOURCES](_ => Source(0, 0, 0));
    var n;
    taken, n := ChooseSources(tests, indexed, sources);
    if !taken {
      return;
    }
    ghost var chosen := sources[..n];
    taken := ApplyCostModel(sources, n, oracle);
    columns := Columns(sources[..n]);
    assert Elements(columns) == Elements(Columns(chosen));
  }

  lemma UsableInRange(types: seq<ColumnType>, tests: seq<Predicate>, indexed: set<nat>, columns: seq<nat>)
    requires (forall c :: c in indexed ==> c < |types|) && Elements(columns) == Usable(tests, |tests|, indexed)
    ensures forall c :: c in columns ==> c in indexed && c < |types|
    ensures forall k :: 0 <= k < |columns| ==> columns[k] < |types|
  {
    forall k | 0 <= k < |columns| ensures columns[k] in indexed {
      assert columns[k] in Elements(columns);
    }
  }

  datatype Anchor = Anchor(column: nat, candidates: nat, total: nat, equality: bool, terms: nat)

  predicate Mentions(tests: seq<Predicate>, column: nat, n: nat) {
    exists k :: 0 <= k < n && k < |tests| && tests[k].column == column && tests[k].op != Like
  }

  predicate HasEquality(tests: seq<Predicate>, column: nat) {
    exists k :: 0 <= k < |tests| && tests[k].column == column && tests[k].op == Eq
  }

  // What is known about anchoring at test `i`: nothing unless its column is
  // indexed, mentioned for the first time, and estimated.
  function AnchorAt(tests: seq<Predicate>, indexed: set<nat>, e: Estimate, i: nat): Option<Anchor>
    requires i < |tests|
  {
    var t := tests[i];
    if UsableTest(t, indexed) && !Mentions(tests, t.column, i) && e.Estimate?
    then Some(Anchor(t.column, e.candidates, e.total, HasEquality(tests, t.column), |SourceTests(tests, t.column)|))
    else None
  }

  // What the planner knows about an anchor, in terms of the tests.
  lemma AnchorAtIs(tests: seq<Predicate>, indexed: set<nat>, e: Estimate, i: nat)
    requires i < |tests|
    ensures AnchorAt(tests, indexed, e, i).Some? <==>
      && tests[i].op != Like && tests[i].column != 0 && tests[i].column in indexed && e.Estimate?
      && forall k :: 0 <= k < i && tests[k].op != Like ==> tests[k].column != tests[i].column
    ensures AnchorAt(tests, indexed, e, i).Some? ==>
      var a := AnchorAt(tests, indexed, e, i).value;
      && a.column == tests[i].column && a.candidates == e.candidates && a.total == e.total
      && (a.equality <==> exists t :: t in tests && t.column == tests[i].column && t.op == Eq)
      && a.terms == |Terms(tests, tests[i].column)|
  {
    TermsCount(tests, tests[i].column);
    if exists t :: t in tests && t.column == tests[i].column && t.op == Eq {
      var t :| t in tests && t.column == tests[i].column && t.op == Eq;
      var k :| 0 <= k < |tests| && tests[k] == t;
    }
  }

  // Where the sortable tests of a column stand.
  ghost function Terms(tests: seq<Predicate>, column: nat): set<nat> {
    set k: nat | k < |tests| && tests[k].column == column && tests[k].op != Like
  }

  lemma {:induction false} TermsCount(tests: seq<Predicate>, column: nat)
    ensures |SourceTests(tests, column)| == |Terms(tests, column)|
  {
    if tests == [] {
      assert Terms(tests, column) == {};
    } else {
      TermsCount(tests[..|tests| - 1], column);
      LastTerm(tests, tests[..|tests| - 1], |tests| - 1, column);
    }
  }

  lemma LastTerm(tests: seq<Predicate>, front: seq<Predicate>, n: nat, column: nat)
    requires n + 1 == |tests| && front == tests[..n]
    ensures |Terms(tests, column)|
         == |Terms(front, column)| + if tests[n].column == column && tests[n].op != Like then 1 else 0
  {
    var all, some := Terms(tests, column), Terms(front, column);
    TermsAre(tests, front, n, column);
    if tests[n].column == column && tests[n].op != Like {
      assert all == some + {n};
    } else {
      assert all == some;
    }
  }

  lemma TermsAre(tests: seq<Predicate>, front: seq<Predicate>, n: nat, column: nat)
    requires n + 1 == |tests| && front == tests[..n]
    ensures n !in Terms(front, column)
    ensures forall k :: k in Terms(tests, column) <==>
      k in Terms(front, column) || (k == n && tests[n].column == column && tests[n].op != Like)
  {
    assert forall k: nat :: k < n ==> front[k] == tests[k];
  }

  function Anchors(tests: seq<Predicate>, indexed: set<nat>, oracle: seq<Estimate>): (a: seq<Option<Anchor>>)
    requires |oracle| >= |tests|
    ensures |a| == |tests|
    ensures forall i :: 0 <= i < |a| ==> a[i] == AnchorAt(tests, indexed, oracle[i], i)
  {
    seq(|tests|, i requires 0 <= i < |tests| => AnchorAt(tests, indexed, oracle[i], i))
  }

  // Fewer candidates, then an equality, then more tests.
  predicate Beats(a: Anchor, b: Anchor) {
    || a.candidates < b.candidates
    || (a.candidates == b.candidates && a.equality && !b.equality)
    || (a.candidates == b.candidates && a.equality == b.equality && a.terms > b.terms)
  }

  // The first of the best among the first `n` anchors.
  ghost predicate IsBest(anchors: seq<Option<Anchor>>, n: nat, at: nat) {
    && at < n <= |anchors| && anchors[at].Some?
    && (forall j :: 0 <= j < n && anchors[j].Some? ==> !Beats(anchors[j].value, anchors[at].value))
    && (forall j :: 0 <= j < at && anchors[j].Some? ==> Beats(anchors[at].value, anchors[j].value))
  }

  lemma BestNext(anchors: seq<Option<Anchor>>, n: nat, at: nat)
    requires IsBest(anchors, n, at) && n < |anchors|
    ensures IsBest(anchors, n + 1,
                   if anchors[n].Some? && Beats(anchors[n].value, anchors[at].value) then n else at)
  {
  }

  ghost predicate NoneBefore(anchors: seq<Option<Anchor>>, n: nat) {
    forall j :: 0 <= j < n && j < |anchors| ==> anchors[j].None?
  }

  lemma FirstIsBest(anchors: seq<Option<Anchor>>, n: nat)
    requires NoneBefore(anchors, n) && n < |anchors|
    ensures if anchors[n].Some? then IsBest(anchors, n + 1, n) else NoneBefore(anchors, n + 1)
  {
  }

  // The best anchor has the fewest candidates; among those it tests for equality if any
  // does; among those it has the most tests; and it comes first.
  lemma BestIs(anchors: seq<Option<Anchor>>, n: nat, at: nat, j: nat)
    requires IsBest(anchors, n, at) && j < n && anchors[j].Some?
    ensures var (a, b) := (anchors[at].value, anchors[j].value);
      && a.candidates <= b.candidates
      && (a.candidates == b.candidates && b.equality ==> a.equality)
      && (a.candidates == b.candidates && a.equality == b.equality ==> a.terms >= b.terms)
      && (a.candidates == b.candidates && a.equality == b.equality && a.terms == b.terms ==> at <= j)
  {
  }

  lemma OneBest(anchors: seq<Option<Anchor>>, n: nat, i: nat, j: nat)
    requires IsBest(anchors, n, i) && IsBest(anchors, n, j)
    ensures i == j
  {
  }

  // Sortable tests on indexed columns, or only the equalities among them: the first one.
  function FirstUsable(tests: seq<Predicate>, indexed: set<nat>, onlyEq: bool, n: nat): (k: nat)
    requires n <= |tests|
    ensures k <= n
    ensures k < n ==> UsableTest(tests[k], indexed) && (onlyEq ==> tests[k].op == Eq)
    ensures forall j :: 0 <= j < k ==> !UsableTest(tests[j], indexed) || (onlyEq && tests[j].op != Eq)
  {
    if n == 0 then 0
    else
      var k := FirstUsable(tests, indexed, onlyEq, n - 1);
      if k < n - 1 then k
      else if UsableTest(tests[n - 1], indexed) && (onlyEq ==> tests[n - 1].op == Eq) then n - 1 else n
  }

  function Preferred(tests: seq<Predicate>, indexed: set<nat>): (k: nat) {
    var k := FirstUsable(tests, indexed, true, |tests|);
    if k < |tests| then k else FirstUsable(tests, indexed, false, |tests|)
  }

  // One pass with the best anchor so far.
  method FindBest(tests: seq<Predicate>, indexed: set<nat>, oracle: seq<Estimate>, ghost anchors: seq<Option<Anchor>>)
    returns (estimated: bool, at: nat, best: Anchor)
    requires |oracle| >= |tests| && anchors == Anchors(tests, indexed, oracle)
    ensures estimated ==> at < |tests| && Some(best) == anchors[at]
    ensures forall i: nat :: IsBest(anchors, |tests|, i) <==> estimated && i == at
    ensures !estimated <==> forall j :: 0 <= j < |tests| ==> anchors[j].None?
  {
    best, at, estimated := Anchor(0, 0, 0, false, 0), 0, false;
    for i := 0 to |tests|
      invariant estimated ==> IsBest(anchors, i, at) && Some(best) == anchors[at]
      invariant !estimated ==> NoneBefore(anchors, i)
    {
      var anchor := AnchorAt(tests, indexed, oracle[i], i);
      assert anchor == anchors[i];
      if estimated {
        BestNext(anchors, i, at);
      } else {
        FirstIsBest(anchors, i);
      }
      if anchor.Some? && (!estimated || Beats(anchor.value, best)) {
        best, at, estimated := anchor.value, i, true;
      }
    }
    if estimated {
      forall i: nat | IsBest(anchors, |tests|, i) ensures i == at {
        OneBest(anchors, |tests|, i, at);
      }
    }
  }

  // The best estimated anchor, if it is no dearer than a scan; without any
  // estimate the first equality or else the first test of an indexed column.
  method ChooseAnchor(tests: seq<Predicate>, indexed: set<nat>, oracle: seq<Estimate>) returns (ok: bool, column: nat)
    requires |oracle| >= |tests|
    ensures forall i: nat :: IsBest(Anchors(tests, indexed, oracle), |tests|, i) ==>
      column == tests[i].column && (ok <==> 5 * oracle[i].candidates <= 3 * oracle[i].total)
    ensures (forall i :: 0 <= i < |tests| ==> Anchors(tests, indexed, oracle)[i].None?) ==>
      (ok <==> Preferred(tests, indexed) < |tests|) && (ok ==> column == tests[Preferred(tests, indexed)].column)
    ensures ok ==> column in indexed && SourceTests(tests, column) != []
  {
    var estimated, at, best := FindBest(tests, indexed, oracle, Anchors(tests, indexed, oracle));
    if estimated {
      assert tests[at] in SourceTests(tests, best.column);
      return AnchorCost(best.candidates) <= ScanCost(best.total), best.column;
    }
    ok, column := ChooseAnchorLegacy(tests, indexed);
  }

  method ChooseAnchorLegacy(tests: seq<Predicate>, indexed: set<nat>) returns (ok: bool, column: nat)
    ensures ok <==> Preferred(tests, indexed) < |tests|
    ensures ok ==> column == tests[Preferred(tests, indexed)].column
    ensures ok ==> column in indexed && SourceTests(tests, column) != []
  {
    var bestScore: nat, at: nat := 0, 0;
    for i := 0 to |tests|
      invariant bestScore <= 2 && (bestScore > 0 ==> at < i)
      invariant bestScore == 2 ==> at == FirstUsable(tests, indexed, true, i)
      invariant bestScore < 2 ==> FirstUsable(tests, indexed, true, i) == i
      invariant bestScore == 1 ==> at == FirstUsable(tests, indexed, false, i)
      invariant bestScore == 0 ==> FirstUsable(tests, indexed, false, i) == i
    {
      var t := tests[i];
      if UsableTest(t, indexed) {
        var score: nat := if t.op == Eq then 2 else 1;
        if score > bestScore {
          bestScore, at := score, i;
        }
      }
    }
    ok := bestScore > 0;
    column := 0;
    if ok {
      column := tests[at].column;
      assert tests[at] in SourceTests(tests, column);
    }
  }
}
