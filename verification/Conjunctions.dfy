/** Estimating several tests of one column together: the tightest bounds decide
    (src/generic_index_stats.c:737-846). */
module Conjunctions {
  import opened Lexer
  import opened ValueOrder
  import opened Frequencies
  import opened KeptRuns
  import opened Statistics

  // Rows of the first `n` that meet every predicate.
  function Matching(s: seq<Value>, tests: seq<Predicate>, n: nat): (c: nat)
    requires n <= |s|
    ensures c <= n
  {
    if n == 0 then 0
    else Matching(s, tests, n - 1) + if forall t :: t in tests ==> Holds(t.op, s[n - 1], t.value) then 1 else 0
  }

  predicate IsLower(t: Predicate) { t.op == Gt || t.op == Gte }

  predicate IsUpper(t: Predicate) { t.op == Lt || t.op == Lte }

  // `a` implies `b`.
  predicate TighterLower(a: Predicate, b: Predicate) {
    Before(b.value, a.value) || (a.value == b.value && (a.op == Gt || b.op == Gte))
  }

  predicate TighterUpper(a: Predicate, b: Predicate) {
    Before(a.value, b.value) || (a.value == b.value && (a.op == Lt || b.op == Lte))
  }

  datatype Bound = Unbounded | Bounded(test: Predicate)

  // The tightest of the lower bounds among `tests`.
  ghost predicate Tightest(b: Bound, tests: seq<Predicate>, wanted: Predicate -> bool,
                           tighter: (Predicate, Predicate) -> bool) {
    && (b.Bounded? ==> b.test in tests && wanted(b.test))
    && (forall t :: t in tests && wanted(t) ==> b.Bounded? && tighter(b.test, t))
  }

  // Two of the tests exclude each other.
  predicate Clash(a: Predicate, b: Predicate) {
    || (a.op == Eq && !Holds(b.op, a.value, b.value))
    || (IsLower(a) && IsUpper(b) && (Before(b.value, a.value) || (a.value == b.value && (a.op == Gt || b.op == Lt))))
  }

  lemma ClashExcludes(a: Predicate, b: Predicate, v: Value)
    requires Clash(a, b)
    ensures !(Holds(a.op, v, a.value) && Holds(b.op, v, b.value))
  {
    BeforeTotal(v, a.value);
    BeforeTotal(v, b.value);
    BeforeTotal(a.value, b.value);
    if Before(b.value, a.value) && Before(a.value, v) { BeforeTransitive(b.value, a.value, v); }
  }

  lemma {:induction false} ClashMatchesNothing(s: seq<Value>, tests: seq<Predicate>, a: Predicate, b: Predicate, n: nat)
    requires n <= |s| && a in tests && b in tests && Clash(a, b)
    ensures Matching(s, tests, n) == 0
  {
    if n > 0 {
      ClashMatchesNothing(s, tests, a, b, n - 1);
      ClashExcludes(a, b, s[n - 1]);
    }
  }

  lemma LowerChain(a: Predicate, b: Predicate, c: Predicate)
    requires TighterLower(a, b) && TighterLower(b, c)
    ensures TighterLower(a, c)
  {
    BeforeTotal(a.value, b.value);
    if Before(c.value, b.value) && Before(b.value, a.value) { BeforeTransitive(c.value, b.value, a.value); }
  }

  lemma UpperChain(a: Predicate, b: Predicate, c: Predicate)
    requires TighterUpper(a, b) && TighterUpper(b, c)
    ensures TighterUpper(a, c)
  {
    BeforeTotal(a.value, b.value);
    if Before(a.value, b.value) && Before(b.value, c.value) { BeforeTransitive(a.value, b.value, c.value); }
  }

  // One more test, compared with the bound kept so far.
  method KeepTighter(b: Bound, t: Predicate, ghost tests: seq<Predicate>, lower: bool) returns (b': Bound)
    requires if lower then IsLower(t) && Tightest(b, tests, IsLower, TighterLower)
             else IsUpper(t) && Tightest(b, tests, IsUpper, TighterUpper)
    ensures if lower then Tightest(b', tests + [t], IsLower, TighterLower)
            else Tightest(b', tests + [t], IsUpper, TighterUpper)
  {
    if b.Unbounded? {
      return Bounded(t);
    }
    BeforeTotal(t.value, b.test.value);
    var replace := if lower then Before(b.test.value, t.value) || (t.value == b.test.value && t.op == Gt)
                   else Before(t.value, b.test.value) || (t.value == b.test.value && t.op == Lt);
    b' := if replace then Bounded(t) else b;
    forall u | u in tests && (if lower then IsLower(u) else IsUpper(u))
      ensures if lower then TighterLower(b'.test, u) else TighterUpper(b'.test, u)
    {
      if replace && lower {
        LowerChain(t, b.test, u);
      } else if replace {
        UpperChain(t, b.test, u);
      }
    }
  }

  lemma SkipOther(b: Bound, t: Predicate, tests: seq<Predicate>)
    ensures !IsLower(t) && Tightest(b, tests, IsLower, TighterLower) ==> Tightest(b, tests + [t], IsLower, TighterLower)
    ensures !IsUpper(t) && Tightest(b, tests, IsUpper, TighterUpper) ==> Tightest(b, tests + [t], IsUpper, TighterUpper)
  {
  }

  // Clashing tests make the kept bounds clash.
  lemma ClashReachesBounds(tests: seq<Predicate>, lower: Bound, upper: Bound, a: Predicate, b: Predicate)
    requires a in tests && b in tests && Clash(a, b) && IsLower(a) && IsUpper(b)
    requires Tightest(lower, tests, IsLower, TighterLower) && Tightest(upper, tests, IsUpper, TighterUpper)
    ensures lower.Bounded? && upper.Bounded? && Clash(lower.test, upper.test)
  {
    var l, u := lower.test.value, upper.test.value;
    BeforeTotal(u, b.value);
    BeforeTotal(b.value, a.value);
    BeforeTotal(a.value, l);
    AscendingChain(u, b.value, a.value);
    AscendingChain(u, a.value, l);
    BeforeTotal(u, l);
  }

  lemma AscendingChain(x: Value, y: Value, z: Value)
    requires !Before(y, x) && !Before(z, y)
    ensures !Before(z, x) && (x == z ==> x == y)
  {
    BeforeTotal(x, y);
    BeforeTotal(y, z);
    BeforeTotal(x, z);
    if x != y && y != z { BeforeTransitive(x, y, z); }
  }

  // Whether the two bounds let a value through.
  predicate Between(lower: Bound, upper: Bound, v: Value) {
    && (lower.Bounded? ==> Holds(lower.test.op, v, lower.test.value))
    && (upper.Bounded? ==> Holds(upper.test.op, v, upper.test.value))
  }

  // A tighter bound implies the looser ones.
  lemma TighterImplies(a: Predicate, b: Predicate, v: Value)
    ensures IsLower(a) && IsLower(b) && TighterLower(a, b) && Holds(a.op, v, a.value) ==> Holds(b.op, v, b.value)
    ensures IsUpper(a) && IsUpper(b) && TighterUpper(a, b) && Holds(a.op, v, a.value) ==> Holds(b.op, v, b.value)
  {
    BeforeTotal(v, a.value);
    BeforeTotal(v, b.value);
    BeforeTotal(a.value, b.value);
    if Before(b.value, a.value) && Before(a.value, v) { BeforeTransitive(b.value, a.value, v); }
    if Before(v, a.value) && Before(a.value, b.value) { BeforeTransitive(v, a.value, b.value); }
  }

  lemma BoundsDecide(tests: seq<Predicate>, lower: Bound, upper: Bound, v: Value)
    requires forall t :: t in tests ==> IsLower(t) || IsUpper(t)
    requires Tightest(lower, tests, IsLower, TighterLower) && Tightest(upper, tests, IsUpper, TighterUpper)
    ensures (forall t :: t in tests ==> Holds(t.op, v, t.value)) <==> Between(lower, upper, v)
  {
    if Between(lower, upper, v) {
      forall t | t in tests ensures Holds(t.op, v, t.value) {
        if IsLower(t) {
          TighterImplies(lower.test, t, v);
        } else {
          TighterImplies(upper.test, t, v);
        }
      }
    }
  }

  // Bounds that do not exclude each other cut disjoint parts off a column.
  lemma {:induction false} MatchingInterval(s: seq<Value>, tests: seq<Predicate>, lower: Bound, upper: Bound, n: nat)
    requires n <= |s| && forall t :: t in tests ==> IsLower(t) || IsUpper(t)
    requires Tightest(lower, tests, IsLower, TighterLower) && Tightest(upper, tests, IsUpper, TighterUpper)
    requires lower.Bounded? && upper.Bounded? ==> !Clash(lower.test, upper.test)
    ensures Matching(s, tests, n) ==
      (if upper.Bounded? then Meeting(s, upper.test, n) else n)
      - (if lower.Bounded? then n - Meeting(s, lower.test, n) else 0)
  {
    if n > 0 {
      MatchingInterval(s, tests, lower, upper, n - 1);
      BoundsDecide(tests, lower, upper, s[n - 1]);
      if lower.Bounded? && upper.Bounded? {
        NeitherFails(lower.test, upper.test, s[n - 1]);
      }
    }
  }

  lemma NeitherFails(lower: Predicate, upper: Predicate, v: Value)
    requires IsLower(lower) && IsUpper(upper) && !Clash(lower, upper)
    ensures Holds(lower.op, v, lower.value) || Holds(upper.op, v, upper.value)
  {
    BeforeTotal(lower.value, upper.value);
    BeforeTotal(v, lower.value);
    BeforeTotal(v, upper.value);
    if Before(v, lower.value) && Before(lower.value, upper.value) {
      BeforeTransitive(v, lower.value, upper.value);
    }
  }

  // The largest error of any single test.
  ghost function WorstError(stats: Stats, tests: seq<Predicate>): (e: nat)
    ensures forall t :: t in tests ==> ComparisonError(stats, t) <= e
    ensures e == 0 || exists t :: t in tests && ComparisonError(stats, t) == e
  {
    if tests == [] then 0
    else
      var rest, first := WorstError(stats, tests[1..]), ComparisonError(stats, tests[0]);
      assert tests[0] in tests && forall t :: t in tests ==> t == tests[0] || t in tests[1..];
      if first > rest then first else rest
  }

  ghost predicate OneEquality(equality: Bound, tests: seq<Predicate>) {
    && (equality.Bounded? ==> equality.test in tests && equality.test.op == Eq)
    && (forall t :: t in tests && t.op == Eq ==> equality.Bounded? && equality.test.value == t.value)
  }

  ghost predicate Clashing(tests: seq<Predicate>) {
    exists a, b :: a in tests && b in tests && Clash(a, b)
  }

  // The equality, if there is one, and the tightest bounds; or two different equalities.
  method ScanTests(tests: seq<Predicate>)
    returns (supported: bool, conflict: bool, equality: Bound, lower: Bound, upper: Bound)
    ensures (forall t :: t in tests ==> t.op != Like) ==> supported
    ensures supported && conflict ==> Clashing(tests)
    ensures supported && !conflict ==> forall t :: t in tests ==> t.op != Like
    ensures supported && !conflict ==>
      && OneEquality(equality, tests)
      && Tightest(lower, tests, IsLower, TighterLower) && Tightest(upper, tests, IsUpper, TighterUpper)
  {
    supported, conflict, equality, lower, upper := true, false, Unbounded, Unbounded, Unbounded;
    var i := 0;
    while i < |tests|
      invariant 0 <= i <= |tests|
      invariant OneEquality(equality, tests[..i]) && forall t :: t in tests[..i] ==> t.op != Like
      invariant Tightest(lower, tests[..i], IsLower, TighterLower) && Tightest(upper, tests[..i], IsUpper, TighterUpper)
    {
      var t := tests[i];
      assert t in tests && tests[..i + 1] == tests[..i] + [t];
      SkipOther(lower, t, tests[..i]);
      SkipOther(upper, t, tests[..i]);
      if t.op == Eq {
        if equality.Bounded? && equality.test.value != t.value {
          assert equality.test in tests && Clash(equality.test, t);
          return true, true, equality, lower, upper;
        }
        equality := Bounded(t);
      } else if IsLower(t) {
        lower := KeepTighter(lower, t, tests[..i], true);
      } else if IsUpper(t) {
        upper := KeepTighter(upper, t, tests[..i], false);
      } else {
        return false, false, equality, lower, upper;
      }
      i := i + 1;
    }
    assert tests[..i] == tests;
  }

  // The estimate of one bound, or the whole column without one.
  ghost predicate BoundEstimate(stats: Stats, s: seq<Value>, b: Bound, r: nat) {
    if b.Bounded? then ComparisonEstimate(stats, s, b.test, r) else r == |s|
  }

  // The rows let through by both bounds, if they cut disjoint parts off the column.
  ghost predicate RangeEstimate(stats: Stats, s: seq<Value>, tests: seq<Predicate>, r: nat) {
    exists lower: Bound, upper: Bound, above: nat, below: nat ::
      && Tightest(lower, tests, IsLower, TighterLower) && Tightest(upper, tests, IsUpper, TighterUpper)
      && BoundEstimate(stats, s, lower, above) && BoundEstimate(stats, s, upper, below)
      && (r + |s| == above + below || (r == 0 && above + below <= |s|))
  }

  // The one estimate of a conjunction.
  ghost predicate ConjunctionEstimate(stats: Stats, s: seq<Value>, tests: seq<Predicate>, r: nat) {
    if Clashing(tests) then r == 0
    else if exists t :: t in tests && t.op == Eq then
      exists t :: t in tests && t.op == Eq && EqualEstimate(stats, s, t.value, r)
    else RangeEstimate(stats, s, tests, r)
  }

  // Estimates a conjunction of tests on one column.  Tests that exclude each
  // other give zero, which is then exact; anything else is off by at most twice
  // the error of the worst test, and a range of `>` and `<=` tests therefore by at
  // most twice the sample gap.  An equality on a kept value, or in a column with
  // few distinct values, makes the estimate exact.
  method EstimateConjunction(stats: Stats, tests: seq<Predicate>, ghost s: seq<Value>) returns (ok: bool, r: nat)
    requires Describes(stats, s)
    ensures (forall t :: t in tests ==> t.op != Like) ==> ok
    ensures ok && Clashing(tests) ==> r == 0 == Matching(s, tests, |s|)
    ensures ok ==> Near(r, Matching(s, tests, |s|), 2 * WorstError(stats, tests))
    ensures (forall t :: t in tests ==> t.op == Gt || t.op == Lte) ==>
      Near(r, Matching(s, tests, |s|), 2 * (Gap(|s|) - 1))
    ensures ok && WellKnownEquality(stats, tests) ==> r == Matching(s, tests, |s|)
    ensures ok ==> ConjunctionEstimate(stats, s, tests, r)
  {
    ClashingIsEmpty(s, tests);
    OrderErrors(stats, tests);
    var conflict, equality, lower, upper;
    ok, conflict, equality, lower, upper := ScanTests(tests);
    if !ok || conflict {
      return ok, 0;
    }
    if equality.Bounded? {
      r := EstimateWithEquality(stats, tests, equality, s);
      return;
    }
    if lower.Bounded? && upper.Bounded? {
      BeforeTotal(lower.test.value, upper.test.value);
      if Before(upper.test.value, lower.test.value)
         || (lower.test.value == upper.test.value && (lower.test.op == Gt || upper.test.op == Lt)) {
        assert Clash(lower.test, upper.test);
        return true, 0;
      }
    }
    r := EstimateBounds(stats, tests, lower, upper, s);
  }

  // The errors of `>` and `<=` tests are those of the samples.
  lemma OrderErrors(stats: Stats, tests: seq<Predicate>)
    ensures (forall t :: t in tests ==> t.op == Gt || t.op == Lte) ==> WorstError(stats, tests) <= Gap(stats.total) - 1
  {
  }

  // A conjunction of compatible bounds.
  method EstimateBounds(stats: Stats, tests: seq<Predicate>, lower: Bound, upper: Bound, ghost s: seq<Value>)
    returns (r: nat)
    requires Describes(stats, s) && OneEquality(Unbounded, tests) && forall t :: t in tests ==> t.op != Like
    requires Tightest(lower, tests, IsLower, TighterLower) && Tightest(upper, tests, IsUpper, TighterUpper)
    requires lower.Bounded? && upper.Bounded? ==> !Clash(lower.test, upper.test)
    ensures !Clashing(tests) && !WellKnownEquality(stats, tests)
    ensures Near(r, Matching(s, tests, |s|), 2 * WorstError(stats, tests))
    ensures ConjunctionEstimate(stats, s, tests, r)
  {
    NoEqualityNoClash(tests, lower, upper);
    r := EstimateRange(stats, tests, lower, upper, s);
  }

  lemma ClashingIsEmpty(s: seq<Value>, tests: seq<Predicate>)
    ensures Clashing(tests) ==> Matching(s, tests, |s|) == 0
  {
    if Clashing(tests) {
      var a, b :| a in tests && b in tests && Clash(a, b);
      ClashMatchesNothing(s, tests, a, b, |s|);
    }
  }

  lemma NoEqualityNoClash(tests: seq<Predicate>, lower: Bound, upper: Bound)
    requires OneEquality(Unbounded, tests)
    requires Tightest(lower, tests, IsLower, TighterLower) && Tightest(upper, tests, IsUpper, TighterUpper)
    requires lower.Bounded? && upper.Bounded? ==> !Clash(lower.test, upper.test)
    ensures !Clashing(tests)
  {
    forall a, b | a in tests && b in tests ensures !Clash(a, b) {
      if IsLower(a) && IsUpper(b) && Clash(a, b) {
        ClashReachesBounds(tests, lower, upper, a, b);
      }
    }
  }

  // Some equality among the tests has a value whose frequency is known.
  ghost predicate WellKnownEquality(stats: Stats, tests: seq<Predicate>) {
    exists t :: t in tests && t.op == Eq && (stats.distinct <= MCV_MAX || Kept(stats.mcvs, t.value))
  }

  // An equality that meets all other tests leaves exactly the rows with its value.
  lemma {:induction false} EqualityMatches(s: seq<Value>, tests: seq<Predicate>, equality: Predicate, n: nat)
    requires n <= |s| && equality in tests && equality.op == Eq
    requires forall t :: t in tests ==> Holds(t.op, equality.value, t.value)
    ensures Matching(s, tests, n) == multiset(s[..n])[equality.value]
  {
    if n > 0 {
      EqualityMatches(s, tests, equality, n - 1);
      assert s[..n] == s[..n - 1] + [s[n - 1]];
    }
  }

  method EstimateWithEquality(stats: Stats, tests: seq<Predicate>, equality: Bound, ghost s: seq<Value>)
    returns (r: nat)
    requires Describes(stats, s) && OneEquality(equality, tests) && equality.Bounded?
    ensures Clashing(tests) ==> r == 0
    ensures Near(r, Matching(s, tests, |s|), EqualError(stats, equality.test.value))
    ensures WellKnownEquality(stats, tests) ==> r == Matching(s, tests, |s|)
    ensures Clashing(tests) || EqualEstimate(stats, s, equality.test.value, r)
  {
    var value := equality.test.value;
    ClashingIsEmpty(s, tests);
    var i := 0;
    while i < |tests|
      invariant 0 <= i <= |tests|
      invariant forall t :: t in tests[..i] ==> Holds(t.op, value, t.value)
    {
      assert tests[..i + 1] == tests[..i] + [tests[i]];
      if !Holds(tests[i].op, value, tests[i].value) {
        assert Clash(equality.test, tests[i]);
        return 0;
      }
      i := i + 1;
    }
    assert tests[..i] == tests;
    EqualityMatches(s, tests, equality.test, |s|);
    assert s[..|s|] == s;
    forall a, b | a in tests && b in tests ensures !Clash(a, b) {
      if Clash(a, b) {
        ClashExcludes(a, b, value);
      }
    }
    r := EstimateEqual(stats, value, s);
  }

  method EstimateRange(stats: Stats, tests: seq<Predicate>, lower: Bound, upper: Bound, ghost s: seq<Value>)
    returns (r: nat)
    requires Describes(stats, s) && forall t :: t in tests ==> IsLower(t) || IsUpper(t)
    requires Tightest(lower, tests, IsLower, TighterLower) && Tightest(upper, tests, IsUpper, TighterUpper)
    requires lower.Bounded? && upper.Bounded? ==> !Clash(lower.test, upper.test)
    ensures Near(r, Matching(s, tests, |s|), 2 * WorstError(stats, tests))
    ensures RangeEstimate(stats, s, tests, r)
  {
    var start, end := 0, stats.total;
    var matched := stats.total;
    if lower.Bounded? {
      matched := EstimatePredicate(stats, lower.test, s);
      start := if stats.total > matched then stats.total - matched else 0;
    }
    if upper.Bounded? {
      end := EstimatePredicate(stats, upper.test, s);
    }
    r := if end > start then end - start else 0;
    assert BoundEstimate(stats, s, lower, matched) && BoundEstimate(stats, s, upper, end);
    MatchingInterval(s, tests, lower, upper, |s|);
  }
}
