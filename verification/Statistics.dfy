/** Optimizer statistics of one column and how far their estimates can be off
    (src/generic_index_stats.c:529-735). */
module Statistics {
  import opened Lexer
  import opened ValueOrder
  import opened Ranking
  import opened Frequencies
  import opened KeptRuns

  const SAMPLE_MAX: nat := 33
  const MCV_MAX: nat := 16

  datatype Sample = Sample(rank: nat, value: Value)
  datatype Stats = Stats(total: nat, distinct: nat, mcvs: seq<Run<Value>>, samples: seq<Sample>)

  function Less(): (Value, Value) -> bool {
    (a: Value, b: Value) => Before(a, b)
  }

  lemma LessIsTotal()
    ensures TotalOrder(Less())
  {
    forall x, y ensures Less()(x, y) || Less()(y, x) || x == y {
      BeforeTotal(x, y);
    }
    forall x, y ensures !(Less()(x, y) && Less()(y, x)) {
      BeforeTotal(x, y);
    }
    forall x, y, z | Less()(x, y) && Less()(y, z) ensures Less()(x, z) {
      BeforeTransitive(x, y, z);
    }
  }

  // The column in ascending order.
  function SortRows(rows: seq<Value>): (s: seq<Value>)
    ensures |s| == |rows|
  {
    Ranked(rows, |rows|, Less())
  }

  lemma SortRowsSorts(rows: seq<Value>)
    ensures Sorted(SortRows(rows), Less())
    ensures multiset(SortRows(rows)) == multiset(rows)
  {
    LessIsTotal();
    TotalIsWeak(Less());
    RankedOrdered(rows, |rows|, Less());
    RankedKeeps(rows, |rows|, Less());
    assert rows[..|rows|] == rows;
  }

  function SampleCount(n: nat): nat {
    if n < SAMPLE_MAX then n else SAMPLE_MAX
  }

  // Where sample `i` of `n` sorted rows is taken.
  function RankOf(i: nat, n: nat): nat {
    if SampleCount(n) > 1 then i * (n - 1) / (SampleCount(n) - 1) else 0
  }

  // Rows between neighbouring samples, at most.
  function Gap(n: nat): nat {
    if n < 2 then 1 else (n - 1 + 31) / 32
  }

  lemma Spread(q: nat, g: nat, m: nat)
    ensures (q + g + 1) * m == q * m + g * m + m
  {
  }

  lemma DivideStep(a: nat, x: nat, m: nat, g: nat)
    requires m > 0 && x <= g * m
    ensures a / m <= (a + x) / m <= a / m + g
  {
    var q, p := a / m, a / m * m;
    assert p <= a < p + m;
    Spread(q, g, m);
    DivideAbove(a + x, m, q);
    DivideBelow(a + x, m, q + g + 1);
  }

  lemma GapCovers(n: nat)
    requires n >= 2
    ensures n - 1 <= Gap(n) * (SampleCount(n) - 1)
  {
    if n < SAMPLE_MAX {
      assert Gap(n) == 1;
    }
  }

  lemma NextProduct(i: nat, x: nat)
    ensures (i + 1) * x == i * x + x
  {
  }

  // Neighbouring samples are at most `Gap` rows apart, and the last one is the last row.
  lemma RankStep(i: nat, n: nat)
    requires n >= 2 && i + 1 < SampleCount(n)
    ensures RankOf(i, n) <= RankOf(i + 1, n) <= RankOf(i, n) + Gap(n)
  {
    var a, m := i * (n - 1), SampleCount(n) - 1;
    NextProduct(i, n - 1);
    GapCovers(n);
    DivideStep(a, n - 1, m, Gap(n));
  }

  lemma RankEnds(n: nat)
    requires n >= 1
    ensures RankOf(0, n) == 0 && RankOf(SampleCount(n) - 1, n) == n - 1
  {
    if n >= 2 {
      var m, x := SampleCount(n) - 1, n - 1;
      assert m * x == x * m;
      DivideAbove(m * x, m, x);
      assert m * x < (x + 1) * m by {
        assert (x + 1) * m == x * m + m;
      }
      DivideBelow(m * x, m, x + 1);
      assert 0 * x == 0;
    }
  }

  // Thirty-three samples at even distances; every row where there are no more.
  lemma RankIs(i: nat, n: nat)
    requires i < SampleCount(n)
    ensures n <= 33 ==> SampleCount(n) == n && RankOf(i, n) == i
    ensures n >= 33 ==> SampleCount(n) == 33 && 32 * RankOf(i, n) <= i * (n - 1) < 32 * (RankOf(i, n) + 1)
  {
    if 1 < n < 33 {
      DivideAbove(i * (n - 1), n - 1, i);
      assert i * (n - 1) < (i + 1) * (n - 1) by {
        assert (i + 1) * (n - 1) == i * (n - 1) + (n - 1);
      }
      DivideBelow(i * (n - 1), n - 1, i + 1);
    }
  }

  lemma {:induction false} RankBelow(i: nat, n: nat)
    requires n >= 1 && i < SampleCount(n)
    ensures RankOf(i, n) < n
    decreases SampleCount(n) - i
  {
    if i + 1 < SampleCount(n) {
      RankStep(i, n);
      RankBelow(i + 1, n);
    } else {
      RankEnds(n);
    }
  }

  // The statistics describe the sorted column `s`.
  ghost predicate Describes(stats: Stats, s: seq<Value>) {
    && Sorted(s, Less())
    && stats.total == |s|
    && stats.distinct == |Runs(s, 0)|
    && stats.mcvs == Best(Ranked(Runs(s, 0), |Runs(s, 0)|, Better(Less())), MCV_MAX)
    && |stats.samples| == SampleCount(|s|)
    && forall i :: 0 <= i < |stats.samples| ==> SampleAt(stats.samples, s, i)
  }

  ghost predicate SampleAt(samples: seq<Sample>, s: seq<Value>, i: nat) {
    && i < |samples| && RankOf(i, |s|) < |s|
    && samples[i] == Sample(RankOf(i, |s|), s[RankOf(i, |s|)])
  }

  method TakeSamples(s: seq<Value>) returns (samples: seq<Sample>)
    ensures |samples| == SampleCount(|s|)
    ensures forall i :: 0 <= i < |samples| ==> SampleAt(samples, s, i)
  {
    samples := [];
    while |samples| < SampleCount(|s|)
      invariant |samples| <= SampleCount(|s|)
      invariant forall i :: 0 <= i < |samples| ==> SampleAt(samples, s, i)
      decreases SampleCount(|s|) - |samples|
    {
      var rank := 0;
      if SampleCount(|s|) > 1 {
        rank := |samples| * (|s| - 1) / (SampleCount(|s|) - 1);
      }
      ghost var before := samples;
      RankBelow(|samples|, |s|);
      assert rank == RankOf(|samples|, |s|);
      samples := samples + [Sample(rank, s[rank])];
      forall i | 0 <= i < |samples| ensures SampleAt(samples, s, i) {
        assert i < |before| ==> SampleAt(before, s, i);
      }
    }
  }

  method BuildStats(rows: seq<Value>) returns (stats: Stats)
    ensures Describes(stats, SortRows(rows))
  {
    var s := SortRows(rows);
    SortRowsSorts(rows);
    LessIsTotal();
    var entries := new Run<Value>[MCV_MAX](_ => Run(Number(0), 0, 0));
    var count, distinct := CollectRuns(s, entries, Less());
    var samples := TakeSamples(s);
    stats := Stats(|s|, distinct, entries[..count], samples);
  }

  lemma KeepsTheBest(stats: Stats, s: seq<Value>)
    requires Describes(stats, s)
    ensures KeepsBest(s, stats.mcvs, MCV_MAX, Less())
  {
    LessIsTotal();
  }

  // Rows not above `v`.
  function AtMostRows(s: seq<Value>, v: Value): nat {
    AtMost(s, v, |s|, Less())
  }

  ghost predicate Near(a: int, b: int, slack: nat) {
    b - slack <= a <= b + slack
  }

  lemma Proportion(offset: nat, span: nat, width: nat)
    requires offset < span && width > 0
    ensures 0 <= offset * width / span < width
  {
    Scale(offset + 1, span, width);
    assert (offset + 1) * width == offset * width + width;
    DivideBelow(offset * width, span, width);
  }

  function Capped(rank: nat, total: nat): nat {
    if rank >= total then total else rank + 1
  }

  // `r` rows up to `v`, between two samples: for numbers in proportion to the distance
  // from the lower one, for texts half way.
  ghost predicate Interpolated(lo: Sample, hi: Sample, v: Value, r: int) {
    if v.Number? && lo.value.Number? && hi.value.Number? then
      var span, share := hi.value.n - lo.value.n, (v.n - lo.value.n) * (hi.rank - lo.rank);
      (r - 1 - lo.rank) * span <= share < (r - lo.rank) * span
    else 2 * (r - 1) <= lo.rank + hi.rank < 2 * r
  }

  lemma ShareOfSpan(share: nat, span: nat)
    requires span > 0
    ensures share / span * span <= share < (share / span + 1) * span
  {
  }

  // Interpolating between two samples stays between their ranks.
  function Interpolate(lo: Sample, hi: Sample, v: Value): (rank: nat)
    requires lo.rank < hi.rank
    requires !Before(v, lo.value) && Before(v, hi.value)
    ensures lo.rank <= rank < hi.rank
    ensures Interpolated(lo, hi, v, rank + 1)
  {
    if v.Number? && lo.value.Number? && hi.value.Number? then
      var span, offset := hi.value.n - lo.value.n, v.n - lo.value.n;
      Proportion(offset, span, hi.rank - lo.rank);
      ShareOfSpan(offset * (hi.rank - lo.rank), span);
      lo.rank + offset * (hi.rank - lo.rank) / span
    else (lo.rank + hi.rank) / 2
  }

  // Neighbouring samples around `v` bracket its count.
  lemma SamplesBracket(stats: Stats, s: seq<Value>, v: Value, hi: nat)
    requires Describes(stats, s) && 0 < hi < |stats.samples|
    requires !Before(v, stats.samples[hi - 1].value) && Before(v, stats.samples[hi].value)
    ensures stats.samples[hi - 1].rank < AtMostRows(s, v) <= stats.samples[hi].rank < |s|
    ensures stats.samples[hi].rank <= stats.samples[hi - 1].rank + Gap(|s|)
  {
    var lo, up := stats.samples[hi - 1].rank, stats.samples[hi].rank;
    assert SampleAt(stats.samples, s, hi - 1) && SampleAt(stats.samples, s, hi);
    RankStep(hi - 1, |s|);
    assert lo != up;
    LessIsTotal();
    Bracket(s, v, |s|, lo, up, Less());
  }

  lemma SamplesEnd(stats: Stats, s: seq<Value>, v: Value)
    requires Describes(stats, s) && |s| > 0
    ensures |stats.samples| > 0
    ensures Before(v, stats.samples[0].value) ==> AtMostRows(s, v) == 0
    ensures !Before(v, stats.samples[|stats.samples| - 1].value) ==> AtMostRows(s, v) == |s|
  {
    RankEnds(|s|);
    assert SampleAt(stats.samples, s, 0) && SampleAt(stats.samples, s, |stats.samples| - 1);
    LessIsTotal();
    if Before(v, stats.samples[0].value) {
      Bracket(s, v, |s|, -1, 0, Less());
    }
    if !Before(v, stats.samples[|stats.samples| - 1].value) {
      Bracket(s, v, |s|, |s| - 1, |s|, Less());
    }
  }

  // A kept run tells the rank of its value.
  lemma KeptRank(stats: Stats, s: seq<Value>, i: nat)
    requires Describes(stats, s) && i < |stats.mcvs|
    ensures AtMostRows(s, stats.mcvs[i].value) == stats.mcvs[i].before + stats.mcvs[i].frequency
  {
    KeepsTheBest(stats, s);
    KeptAreTrue(s, stats.mcvs, MCV_MAX, Less());
    assert stats.mcvs[i] in stats.mcvs;
    RunCounts(s, stats.mcvs[i], Less());
  }

  // The first sample above `v`.
  method FindBracket(samples: seq<Sample>, v: Value) returns (hi: nat)
    requires |samples| > 0 && !Before(v, samples[0].value) && Before(v, samples[|samples| - 1].value)
    ensures 0 < hi < |samples| && !Before(v, samples[hi - 1].value) && Before(v, samples[hi].value)
  {
    hi := 1;
    while hi < |samples| && !Before(v, samples[hi].value)
      invariant 1 <= hi < |samples|
      invariant !Before(v, samples[hi - 1].value)
      decreases |samples| - hi
    {
      hi := hi + 1;
    }
  }

  // The one estimate of the rows at most `v`: exact where a kept run or the ends of the
  // column decide, else interpolated between the samples around `v`.
  ghost predicate LessEqualEstimate(stats: Stats, s: seq<Value>, v: Value, r: nat) {
    if Kept(stats.mcvs, v) then r == AtMostRows(s, v)
    else if s == [] || Before(v, s[0]) then r == 0
    else if !Before(v, s[|s| - 1]) then r == |s|
    else
      exists hi ::
        && 0 < hi < |stats.samples|
        && !Before(v, stats.samples[hi - 1].value) && Before(v, stats.samples[hi].value)
        && Interpolated(stats.samples[hi - 1], stats.samples[hi], v, r)
  }

  // The one estimate of the rows equal to `v`: exact for kept values and outside the
  // column, else the average of the rows not kept over the values not kept, rounded up.
  ghost predicate EqualEstimate(stats: Stats, s: seq<Value>, v: Value, r: nat) {
    var others, rows := stats.distinct - |stats.mcvs|, |s| - RowsIn(stats.mcvs, |stats.mcvs|);
    if Kept(stats.mcvs, v) then r == multiset(s)[v]
    else if s == [] || Before(v, s[0]) || Before(s[|s| - 1], v) then r == 0
    else others >= 0 && rows >= 0 && AverageOfOthers(others, rows, r)
  }

  // The estimate of the rows at most `v` is off by less than one sample gap, and
  // not at all for kept values.
  method EstimateLessEqual(stats: Stats, v: Value, ghost s: seq<Value>) returns (r: nat)
    requires Describes(stats, s)
    ensures r <= |s| && Near(r, AtMostRows(s, v), Gap(|s|) - 1)
    ensures Near(r, AtMostRows(s, v), LessEqualError(stats, v))
    ensures LessEqualEstimate(stats, s, v, r)
  {
    if stats.total == 0 || |stats.samples| == 0 {
      assert stats.mcvs == [];
      return 0;
    }
    SamplesEnd(stats, s, v);
    SamplesAtEnds(stats, s);
    var found, i := FindRun(stats.mcvs, v);
    if found {
      KeptRank(stats, s, i);
      return stats.mcvs[i].before + stats.mcvs[i].frequency;
    }
    if Before(v, stats.samples[0].value) {
      return 0;
    }
    if !Before(v, stats.samples[|stats.samples| - 1].value) {
      return stats.total;
    }
    var hi := FindBracket(stats.samples, v);
    SamplesBracket(stats, s, v, hi);
    var rank := Interpolate(stats.samples[hi - 1], stats.samples[hi], v);
    r := Capped(rank, stats.total);
  }

  // With at most thirty-three rows every row is a sample.
  lemma SmallTablesAreExact(n: nat)
    requires n <= SAMPLE_MAX
    ensures Gap(n) == 1
  {
  }

  ghost function EqualError(stats: Stats, v: Value): nat {
    FrequencyError(stats.mcvs, stats.distinct, MCV_MAX, v)
  }

  // The same for the rows not above a value.
  ghost function LessEqualError(stats: Stats, v: Value): nat {
    if Kept(stats.mcvs, v) then 0 else Gap(stats.total) - 1
  }

  ghost function ComparisonError(stats: Stats, t: Predicate): nat {
    match t.op
    case Eq => EqualError(stats, t.value)
    case Lte => LessEqualError(stats, t.value)
    case Gt => LessEqualError(stats, t.value)
    case Lt => LessEqualError(stats, t.value) + EqualError(stats, t.value)
    case Gte => LessEqualError(stats, t.value) + EqualError(stats, t.value)
    case Like => 0
  }

  lemma OutsideTheColumn(s: seq<Value>, v: Value)
    requires Sorted(s, Less()) && |s| > 0 && (Before(v, s[0]) || Before(s[|s| - 1], v))
    ensures v !in s
  {
    if v in s {
      var k :| 0 <= k < |s| && s[k] == v;
      assert k > 0 ==> !Less()(s[k], s[0]);
      assert k < |s| - 1 ==> !Less()(s[|s| - 1], s[k]);
      BeforeTotal(v, v);
    }
  }

  // Exact for kept values, for values outside the column's range, and for every
  // value of a column with few distinct ones; otherwise off by at most the least
  // kept frequency, and never above any of them.
  method EstimateEqual(stats: Stats, v: Value, ghost s: seq<Value>) returns (r: nat)
    requires Describes(stats, s)
    ensures Kept(stats.mcvs, v) ==> r == multiset(s)[v]
    ensures |s| > 0 && (Before(v, s[0]) || Before(s[|s| - 1], v)) ==> r == 0 == multiset(s)[v]
    ensures stats.distinct <= MCV_MAX ==> r == multiset(s)[v]
    ensures !Kept(stats.mcvs, v) ==> forall m :: m in stats.mcvs ==> r <= m.frequency
    ensures Near(r, multiset(s)[v], EqualError(stats, v))
    ensures EqualEstimate(stats, s, v, r)
    ensures r == 0 ==> v !in s
  {
    if stats.total == 0 || |stats.samples| == 0 || stats.distinct == 0 {
      NoRows(stats, s, v);
      return 0;
    }
    SamplesAtEnds(stats, s);
    KeepsTheBest(stats, s);
    KeptAreTrue(s, stats.mcvs, MCV_MAX, Less());
    var found, i := FindRun(stats.mcvs, v);
    if found {
      McvIsExact(stats, s, i);
    }
    if Before(v, stats.samples[0].value) || Before(stats.samples[|stats.samples| - 1].value, v) {
      OutsideTheColumn(s, v);
      return 0;
    }
    if found {
      return stats.mcvs[i].frequency;
    }
    r := EstimateOthers(stats, v, s);
  }

  // The estimate for a value that was not kept.
  method EstimateOthers(stats: Stats, v: Value, ghost s: seq<Value>) returns (r: nat)
    requires Describes(stats, s) && !Kept(stats.mcvs, v)
    requires s != [] && !Before(v, s[0]) && !Before(s[|s| - 1], v)
    ensures stats.distinct <= MCV_MAX ==> r == multiset(s)[v]
    ensures forall m :: m in stats.mcvs ==> r <= m.frequency
    ensures Near(r, multiset(s)[v], EqualError(stats, v))
    ensures EqualEstimate(stats, s, v, r)
    ensures r == 0 ==> v !in s
  {
    KeepsTheBest(stats, s);
    KeptRowsFit(s, stats.mcvs, MCV_MAX, Less());
    RowsAreLeft(s, stats.mcvs, MCV_MAX, Less());
    r := EstimateRest(stats.mcvs, stats.total, stats.distinct, MCV_MAX, s, Less(), v);
    RestIsNear(s, stats.mcvs, MCV_MAX, Less(), v, r);
  }

  lemma NoRows(stats: Stats, s: seq<Value>, v: Value)
    requires Describes(stats, s) && (stats.total == 0 || |stats.samples| == 0 || stats.distinct == 0)
    ensures s == [] && stats.mcvs == []
  {
    KeepsTheBest(stats, s);
    KeptAreTrue(s, stats.mcvs, MCV_MAX, Less());
  }

  lemma SamplesAtEnds(stats: Stats, s: seq<Value>)
    requires Describes(stats, s) && |s| > 0
    ensures |stats.samples| > 0
    ensures stats.samples[0].value == s[0] && stats.samples[|stats.samples| - 1].value == s[|s| - 1]
  {
    RankEnds(|s|);
    assert SampleAt(stats.samples, s, 0) && SampleAt(stats.samples, s, |stats.samples| - 1);
  }

  lemma McvIsExact(stats: Stats, s: seq<Value>, i: nat)
    requires Describes(stats, s) && i < |stats.mcvs|
    ensures stats.mcvs[i].frequency == multiset(s)[stats.mcvs[i].value] > 0
    ensures |s| > 0 && !Before(stats.mcvs[i].value, s[0]) && !Before(s[|s| - 1], stats.mcvs[i].value)
  {
    KeepsTheBest(stats, s);
    KeptAreTrue(s, stats.mcvs, MCV_MAX, Less());
    LessIsTotal();
    assert stats.mcvs[i] in stats.mcvs;
    RunCounts(s, stats.mcvs[i], Less());
    RunInside(s, stats.mcvs[i]);
  }

  lemma RunInside(s: seq<Value>, r: Run<Value>)
    requires Sorted(s, Less()) && TrueRun(s, r)
    ensures !Before(r.value, s[0]) && !Before(s[|s| - 1], r.value)
  {
    assert r.value == s[r.before];
    BeforeTotal(r.value, r.value);
    assert r.before > 0 ==> !Less()(s[r.before], s[0]);
    assert r.before < |s| - 1 ==> !Less()(s[|s| - 1], s[r.before]);
  }

  // How many of the first `n` rows meet a comparison.
  function Meeting(s: seq<Value>, t: Predicate, n: nat): (c: nat)
    requires n <= |s|
    ensures c <= n
  {
    if n == 0 then 0 else Meeting(s, t, n - 1) + if Holds(t.op, s[n - 1], t.value) then 1 else 0
  }

  // All comparisons come down to the rows not above a value and those equal to it.
  lemma {:induction false} MeetingIs(s: seq<Value>, t: Predicate, n: nat)
    requires n <= |s|
    ensures
      var upTo, at := AtMost(s, t.value, n, Less()), multiset(s[..n])[t.value];
      && at <= upTo
      && Meeting(s, t, n) ==
        match t.op
        case Eq => at
        case Lt => upTo - at
        case Lte => upTo
        case Gt => n - upTo
        case Gte => n - (upTo - at)
        case Like => n
  {
    if n > 0 {
      MeetingIs(s, t, n - 1);
      BeforeTotal(s[n - 1], t.value);
      assert s[..n] == s[..n - 1] + [s[n - 1]];
    }
  }

  // The one estimate of a comparison: the two above, their difference, or what they
  // leave of the column.
  ghost predicate ComparisonEstimate(stats: Stats, s: seq<Value>, t: Predicate, r: nat) {
    exists equal: nat, upTo: nat ::
      && EqualEstimate(stats, s, t.value, equal) && LessEqualEstimate(stats, s, t.value, upTo)
      && match t.op
         case Eq => r == equal
         case Lte => r == upTo
         case Lt => r + equal == upTo || (r == 0 && upTo <= equal)
         case Gt => r + upTo == |s|
         case Gte => (upTo >= equal && r + (upTo - equal) == |s|) || (r == |s| && upTo <= equal)
         case Like => r == |s|
  }

  // The estimate for one comparison, derived from the two above.
  method EstimatePredicate(stats: Stats, t: Predicate, ghost s: seq<Value>) returns (r: nat)
    requires Describes(stats, s)
    ensures t.op != Like ==> Near(r, Meeting(s, t, |s|), ComparisonError(stats, t))
    ensures r <= |s| || t.op == Eq
    ensures ComparisonEstimate(stats, s, t, r)
  {
    var equal := EstimateEqual(stats, t.value, s);
    var lessEqual := EstimateLessEqual(stats, t.value, s);
    var less := if lessEqual > equal then lessEqual - equal else 0;
    match t.op {
      case Eq => r := equal;
      case Lt => r := less;
      case Lte => r := lessEqual;
      case Gt => r := if stats.total > lessEqual then stats.total - lessEqual else 0;
      case Gte => r := if stats.total > less then stats.total - less else 0;
      case Like => r := stats.total;
    }
    CombinedEstimate(stats, s, t, equal, lessEqual, r);
    CombinedError(stats, s, t, equal, lessEqual, r);
  }

  // What the derived estimate can be off by.
  lemma CombinedError(stats: Stats, s: seq<Value>, t: Predicate, equal: nat, upTo: nat, r: nat)
    requires stats.total == |s|
    requires Near(equal, multiset(s)[t.value], EqualError(stats, t.value))
    requires Near(upTo, AtMostRows(s, t.value), LessEqualError(stats, t.value))
    requires match t.op
      case Eq => r == equal
      case Lte => r == upTo
      case Lt => r + equal == upTo || (r == 0 && upTo <= equal)
      case Gt => r + upTo == |s|
      case Gte => (upTo >= equal && r + (upTo - equal) == |s|) || (r == |s| && upTo <= equal)
      case Like => r == |s|
    ensures t.op != Like ==> Near(r, Meeting(s, t, |s|), ComparisonError(stats, t))
  {
    MeetingIs(s, t, |s|);
    assert s[..|s|] == s;
  }

  lemma CombinedEstimate(stats: Stats, s: seq<Value>, t: Predicate, equal: nat, upTo: nat, r: nat)
    requires EqualEstimate(stats, s, t.value, equal) && LessEqualEstimate(stats, s, t.value, upTo)
    requires match t.op
      case Eq => r == equal
      case Lte => r == upTo
      case Lt => r + equal == upTo || (r == 0 && upTo <= equal)
      case Gt => r + upTo == |s|
      case Gte => (upTo >= equal && r + (upTo - equal) == |s|) || (r == |s| && upTo <= equal)
      case Like => r == |s|
    ensures ComparisonEstimate(stats, s, t, r)
  {
  }
}
