/** Executing a conjunctive SELECT through secondary indexes: candidate keys are
    intersected, or taken from one anchor index, and the fetched rows filtered
    again (src/generic_index_intersection_sql.c:443-663,
    src/generic_index_anchor_v2_sql.c:423-533). */
module IndexPlans {
  import opened Pages
  import opened Lexer
  import opened LikePatterns
  import opened ValueOrder
  import opened Ranking
  import opened Frequencies
  import opened Conjunctions
  import opened IndexBounds

  datatype Select = Select(tests: seq<Predicate>, hasLimit: bool, limit: nat, offset: nat)

  predicate Matches(t: Predicate, v: Value) {
    && (v.Number? <==> t.value.Number?)
    && (if t.op == Like then v.Text? && LikeMatch(t.value.s, v.s) else Holds(t.op, v, t.value))
  }

  // A test matches a value of its type: comparisons as their symbols are read, LIKE by
  // pattern (`LikePatterns`).
  lemma MatchesIs(t: Predicate, v: Value)
    ensures Matches(t, v) ==> (v.Number? <==> t.value.Number?)
    ensures v.Number? && t.value.Number? && t.op == Like ==> !Matches(t, v)
    ensures v.Text? && t.value.Text? && t.op == Like ==> (Matches(t, v) <==> LikeMatch(t.value.s, v.s))
    ensures (v.Number? <==> t.value.Number?) && t.op == Eq ==> (Matches(t, v) <==> v == t.value)
    ensures (v.Number? <==> t.value.Number?) && t.op == Lt ==> (Matches(t, v) <==> Before(v, t.value))
    ensures (v.Number? <==> t.value.Number?) && t.op == Gt ==> (Matches(t, v) <==> Before(t.value, v))
    ensures (v.Number? <==> t.value.Number?) && t.op == Lte ==> (Matches(t, v) <==> Before(v, t.value) || v == t.value)
    ensures (v.Number? <==> t.value.Number?) && t.op == Gte ==> (Matches(t, v) <==> Before(t.value, v) || v == t.value)
  {
    HoldsIs(t.op, v, t.value);
  }

  // The parser checks every test against the schema.
  predicate TestsOk(types: seq<ColumnType>, tests: seq<Predicate>) {
    forall t :: t in tests ==> t.column < |types| && HasType(t.value, types[t.column])
  }

  predicate RowMatches(tests: seq<Predicate>, row: Row) {
    forall t :: t in tests ==> t.column < |row.values| && Matches(t, row.values[t.column])
  }

  // What a plain scan returns: matching rows in primary-key order.
  function Filter(table: seq<Row>, tests: seq<Predicate>, n: nat): (rows: seq<Row>)
    requires n <= |table|
    ensures forall r :: r in rows <==> exists i :: 0 <= i < n && table[i] == r && RowMatches(tests, r)
  {
    if n == 0 then []
    else Filter(table, tests, n - 1) + if RowMatches(tests, table[n - 1]) then [table[n - 1]] else []
  }

  function Window(rows: seq<Row>, select: Select): seq<Row> {
    var kept := if select.offset <= |rows| then rows[select.offset..] else [];
    if select.hasLimit && select.limit < |kept| then kept[..select.limit] else kept
  }

  function CountOf(n: nat, select: Select): nat {
    if select.offset > 0 || (select.hasLimit && select.limit == 0) then 0 else n
  }

  // The row with key `id` among the first `n`, if any.
  function Lookup(table: seq<Row>, id: nat, n: nat): (i: nat)
    requires n <= |table|
    ensures i < n ==> table[i].id == id
    ensures i >= n ==> i == n && forall k :: 0 <= k < n ==> table[k].id != id
    decreases n
  {
    if n == 0 then 0
    else if table[n - 1].id == id then n - 1
    else
      var i := Lookup(table, id, n - 1);
      if i < n - 1 then i else n
  }

  // The rows behind the first `n` keys that exist and match.
  function Hits(table: seq<Row>, ids: seq<nat>, tests: seq<Predicate>, n: nat): (rows: seq<Row>)
    requires n <= |ids|
    ensures |rows| <= n
  {
    if n == 0 then []
    else
      var i := Lookup(table, ids[n - 1], |table|);
      Hits(table, ids, tests, n - 1) + if i < |table| && RowMatches(tests, table[i]) then [table[i]] else []
  }

  lemma {:induction false} HitsPrefix(table: seq<Row>, ids: seq<nat>, tests: seq<Predicate>, m: nat, n: nat)
    requires m <= n <= |ids|
    ensures Hits(table, ids, tests, m) <= Hits(table, ids, tests, n)
  {
    if m < n {
      HitsPrefix(table, ids, tests, m, n - 1);
    }
  }

  // Fetch, filter and cut: the loop both executors share.
  method Emit(table: seq<Row>, ids: seq<nat>, select: Select, counting: bool) returns (rows: seq<Row>, count: nat)
    ensures counting ==> count == CountOf(|Hits(table, ids, select.tests, |ids|)|, select)
    ensures !counting ==> rows == Window(Hits(table, ids, select.tests, |ids|), select)
  {
    rows := [];
    var matched := 0;
    var i := 0;
    while i < |ids|
      invariant 0 <= i <= |ids|
      invariant matched == |Hits(table, ids, select.tests, i)|
      invariant !counting ==> rows == Window(Hits(table, ids, select.tests, i), select)
    {
      var at := Lookup(table, ids[i], |table|);
      ghost var before := Hits(table, ids, select.tests, i);
      i := i + 1;
      var passes := false;
      if at < |table| {
        passes := CheckRow(select.tests, table[at]);
      }
      if !passes {
        continue;
      }
      matched := matched + 1;
      if counting || matched <= select.offset {
        continue;
      }
      if select.hasLimit && |rows| >= select.limit {
        HitsPrefix(table, ids, select.tests, i, |ids|);
        FullWindow(before, Hits(table, ids, select.tests, |ids|), select);
        break;
      }
      rows := rows + [table[at]];
    }
    count := if counting then matched else 0;
    if select.offset > 0 || (select.hasLimit && select.limit == 0) {
      count := 0;
    }
  }

  // One test of a value, by comparing the two.
  method CheckTest(t: Predicate, v: Value) returns (ok: bool)
    ensures ok <==> Matches(t, v)
  {
    if v.Number? != t.value.Number? {
      return false;
    }
    if t.op == Like {
      if v.Text? {
        ok := LikePatterns.Match(t.value.s, v.s);
        return;
      }
      return false;
    }
    BeforeTotal(v, t.value);
    var compared := if Before(v, t.value) then -1 else if Before(t.value, v) then 1 else 0;
    match t.op
    case Eq => ok := compared == 0;
    case Gt => ok := compared > 0;
    case Gte => ok := compared >= 0;
    case Lt => ok := compared < 0;
    case Lte => ok := compared <= 0;
    case Like => ok := false;
  }

  // All tests of a row.
  method CheckRow(tests: seq<Predicate>, row: Row) returns (ok: bool)
    ensures ok <==> RowMatches(tests, row)
  {
    for i := 0 to |tests|
      invariant forall k :: 0 <= k < i ==>
        tests[k].column < |row.values| && Matches(tests[k], row.values[tests[k].column])
    {
      assert tests[i] in tests;
      if tests[i].column >= |row.values| {
        return false;
      }
      var matched := CheckTest(tests[i], row.values[tests[i].column]);
      if !matched {
        return false;
      }
    }
    return true;
  }

  // Once the window is full, further rows do not change it.
  lemma FullWindow(a: seq<Row>, b: seq<Row>, select: Select)
    requires a <= b && select.hasLimit && select.offset <= |a| && |a| - select.offset >= select.limit
    ensures Window(b, select) == Window(a, select)
  {
  }

  function KeyLess(): (nat, nat) -> bool {
    (a: nat, b: nat) => a < b
  }

  // Ascending order in place, as any correct sort leaves distinct keys.
  method SortIds(ids: array<nat>)
    requires Distinct(ids[..])
    modifies ids
    ensures Increasing(ids[..])
    ensures forall x :: x in ids[..] <==> x in old(ids[..])
  {
    ghost var before := ids[..];
    var i := 0;
    while i < ids.Length
      invariant 0 <= i <= ids.Length
      invariant ids[..i] == Ranked(before, i, KeyLess())
      invariant ids[i..] == before[i..]
    {
      ghost var rest := ids[i + 1..];
      assert ids[i] == ids[i..][0] == before[i];
      assert rest == ids[i..][1..] == before[i + 1..];
      Bubble(ids, i, ids[i], KeyLess());
      i := i + 1;
    }
    assert ids[..i] == ids[..];
    SortedKeys(before, ids[..]);
  }

  lemma SortedKeys(before: seq<nat>, after: seq<nat>)
    requires Distinct(before) && after == Ranked(before, |before|, KeyLess())
    ensures Increasing(after) && forall x :: x in after <==> x in before
  {
    RankedOrdered(before, |before|, KeyLess());
    RankedKeeps(before, |before|, KeyLess());
    assert before[..|before|] == before;
    Shuffled(before, after);
    forall x ensures x in after <==> x in before {
      SameMembers(after, before, x);
    }
    forall i, j | 0 <= i < j < |after| ensures after[i] < after[j] {
      assert !KeyLess()(after[j], after[i]);
    }
  }

  // Two ascending key lists; the common keys move to the front of the first.
  method IntersectIds(left: array<nat>, leftCount: nat, right: array<nat>) returns (count: nat)
    requires left != right && leftCount <= left.Length
    requires Increasing(left[..leftCount]) && Increasing(right[..])
    modifies left
    ensures count <= leftCount && Increasing(left[..count])
    ensures forall x :: x in left[..count] <==> x in old(left[..leftCount]) && x in right[..]
  {
    ghost var l, r := left[..leftCount], right[..];
    var leftIndex, rightIndex, writeIndex := 0, 0, 0;
    while leftIndex < leftCount && rightIndex < right.Length
      invariant 0 <= writeIndex <= leftIndex <= leftCount && rightIndex <= right.Length
      invariant Merged(l, r, left[..writeIndex], leftIndex, rightIndex)
      invariant forall k :: leftIndex <= k < leftCount ==> left[k] == l[k]
      decreases leftCount - leftIndex + right.Length - rightIndex
    {
      var leftId, rightId := left[leftIndex], right[rightIndex];
      ghost var w := left[..writeIndex];
      if leftId < rightId {
        leftIndex := leftIndex + 1;
        MergedSkip(l, r, w, leftIndex - 1, rightIndex);
      } else if leftId > rightId {
        rightIndex := rightIndex + 1;
        MergedSkip(l, r, w, leftIndex, rightIndex - 1);
      } else {
        left[writeIndex] := leftId;
        writeIndex := writeIndex + 1;
        assert left[..writeIndex] == w + [leftId];
        MergedTake(l, r, w, leftIndex, rightIndex);
        leftIndex := leftIndex + 1;
        rightIndex := rightIndex + 1;
      }
    }
    count := writeIndex;
    MergedAll(l, r, left[..count], leftIndex, rightIndex);
  }

  // The prefixes up to `i` and `j` have been merged: nothing common lies across the cut.
  ghost predicate Merged(l: seq<nat>, r: seq<nat>, w: seq<nat>, i: nat, j: nat) {
    && i <= |l| && j <= |r|
    && Increasing(l) && Increasing(r) && Increasing(w)
    && (forall x :: x in w <==> x in l[..i] && x in r[..j])
    && (forall a, b :: 0 <= a < i && j <= b < |r| ==> l[a] < r[b])
    && (forall a, b :: i <= a < |l| && 0 <= b < j ==> r[b] < l[a])
  }

  lemma MergedSkip(l: seq<nat>, r: seq<nat>, w: seq<nat>, i: nat, j: nat)
    requires Merged(l, r, w, i, j) && i < |l| && j < |r|
    ensures l[i] < r[j] ==> Merged(l, r, w, i + 1, j)
    ensures l[i] > r[j] ==> Merged(l, r, w, i, j + 1)
  {
    assert l[..i + 1] == l[..i] + [l[i]] && r[..j + 1] == r[..j] + [r[j]];
    if l[i] < r[j] {
      assert l[i] !in r[..j];
    } else if l[i] > r[j] {
      assert r[j] !in l[..i];
    }
  }

  lemma MergedTake(l: seq<nat>, r: seq<nat>, w: seq<nat>, i: nat, j: nat)
    requires Merged(l, r, w, i, j) && i < |l| && j < |r| && l[i] == r[j]
    ensures Merged(l, r, w + [l[i]], i + 1, j + 1)
  {
    assert l[..i + 1] == l[..i] + [l[i]] && r[..j + 1] == r[..j] + [r[j]];
    forall k | 0 <= k < |w| ensures w[k] < l[i] {
      assert w[k] in w;
    }
    assert l[i] !in r[..j] && r[j] !in l[..i];
  }

  lemma MergedAll(l: seq<nat>, r: seq<nat>, w: seq<nat>, i: nat, j: nat)
    requires Merged(l, r, w, i, j) && (i == |l| || j == |r|)
    ensures forall x :: x in w <==> x in l && x in r
  {
    forall x | x in l && x in r ensures x in w {
      var a :| 0 <= a < |l| && l[a] == x;
      var b :| 0 <= b < |r| && r[b] == x;
      assert a < i && b < j;
      assert l[..i][a] == x && r[..j][b] == x;
    }
  }

  // The tests an index on `column` can answer.
  function SourceTests(tests: seq<Predicate>, column: nat): (s: seq<Predicate>)
    ensures forall t :: t in s <==> t in tests && t.column == column && t.op != Like
  {
    if tests == [] then []
    else
      var t := tests[|tests| - 1];
      SourceTests(tests[..|tests| - 1], column) + (if t.column == column && t.op != Like then [t] else [])
  }

  // Some row with key `id` passes the tests of `column`.
  ghost predicate Admits(table: seq<Row>, tests: seq<Predicate>, column: nat, id: nat) {
    exists i :: 0 <= i < |table| && table[i].id == id && column < |table[i].values|
      && AllHold(SourceTests(tests, column), table[i].values[column])
  }

  ghost predicate AllAdmit(table: seq<Row>, tests: seq<Predicate>, sources: seq<nat>, id: nat) {
    forall c :: c in sources ==> Admits(table, tests, c, id)
  }

  // Candidates of one index, in its order.
  method CollectAnchor(types: seq<ColumnType>, table: seq<Row>, tests: seq<Predicate>, column: nat, entries: seq<Entry>)
    returns (ids: array<nat>)
    requires TableOk(types, table) && column < |types| && entries == Image(table, column)
    ensures fresh(ids) && Distinct(ids[..])
    ensures forall x :: x in ids[..] <==> Admits(table, tests, column, x)
    ensures ids[..] == IdsOf(Admitted(entries, SourceTests(tests, column), |entries|))
  {
    ImageSorted(table, column);
    ImageMembers(types, table, column);
    ids := CollectCandidates(entries, SourceTests(tests, column));
    forall x ensures x in ids[..] <==> Admits(table, tests, column, x) {
      AdmittedEntries(types, table, tests, column, x);
    }
  }

  // Candidates of one source, ascending.
  method CollectSource(types: seq<ColumnType>, table: seq<Row>, tests: seq<Predicate>, column: nat, entries: seq<Entry>)
    returns (ids: array<nat>)
    requires TableOk(types, table) && column < |types| && entries == Image(table, column)
    ensures fresh(ids) && Increasing(ids[..])
    ensures forall x :: x in ids[..] <==> Admits(table, tests, column, x)
  {
    ids := CollectAnchor(types, table, tests, column, entries);
    SortIds(ids);
  }

  lemma AdmittedEntries(types: seq<ColumnType>, table: seq<Row>, tests: seq<Predicate>, column: nat, x: nat)
    requires TableOk(types, table) && column < |types|
    requires forall e :: e in Image(table, column) <==> Stands(table, column, e)
    ensures (exists e :: e in Image(table, column) && AllHold(SourceTests(tests, column), e.key) && e.id == x)
      <==> Admits(table, tests, column, x)
  {
    if Admits(table, tests, column, x) {
      var i :| 0 <= i < |table| && table[i].id == x && AllHold(SourceTests(tests, column), table[i].values[column]);
      var e := Entry(table[i].values[column], table[i].id);
      assert Stands(table, column, e);
      assert e in Image(table, column);
    }
    if e :| e in Image(table, column) && AllHold(SourceTests(tests, column), e.key) && e.id == x {
      assert Stands(table, column, e);
    }
  }

  lemma AdmitNext(table: seq<Row>, tests: seq<Predicate>, sources: seq<nat>, i: nat)
    requires i < |sources|
    ensures sources[i] in sources
    ensures forall x :: AllAdmit(table, tests, sources[..i + 1], x) <==>
      AllAdmit(table, tests, sources[..i], x) && Admits(table, tests, sources[i], x)
  {
    PrefixGrows(sources, i);
    assert forall c :: c in sources[..i + 1] <==> c in sources[..i] || c == sources[i];
  }

  lemma FewerAdmit(table: seq<Row>, tests: seq<Predicate>, sources: seq<nat>, i: nat, x: nat)
    requires i <= |sources| && !AllAdmit(table, tests, sources[..i], x)
    ensures !AllAdmit(table, tests, sources, x)
  {
  }

  // A matching row is admitted by every column.
  lemma MatchingIsAdmitted(types: seq<ColumnType>, table: seq<Row>, tests: seq<Predicate>, column: nat, i: nat)
    requires TableOk(types, table) && TestsOk(types, tests) && column < |types|
    requires i < |table| && RowMatches(tests, table[i])
    ensures Admits(table, tests, column, table[i].id)
  {
    forall t | t in SourceTests(tests, column) ensures Holds(t.op, table[i].values[column], t.value) {
      assert t in tests;
    }
  }

  // Hits of a key list: the matching rows whose keys are listed, by position.
  lemma {:induction false} HitsAre(types: seq<ColumnType>, table: seq<Row>, ids: seq<nat>, tests: seq<Predicate>,
                                   n: nat)
    requires TableOk(types, table) && n <= |ids|
    ensures forall r :: r in Hits(table, ids, tests, n) <==> r in table && RowMatches(tests, r) && r.id in ids[..n]
  {
    if n > 0 {
      HitsAre(types, table, ids, tests, n - 1);
      var id := ids[n - 1];
      var i := Lookup(table, id, |table|);
      assert ids[..n] == ids[..n - 1] + [id];
      forall r | r in table && r.id == id ensures i < |table| && r == table[i] {
        var k :| 0 <= k < |table| && table[k] == r;
      }
    }
  }

  lemma {:induction false} HitsOrder(types: seq<ColumnType>, table: seq<Row>, ids: seq<nat>, tests: seq<Predicate>,
                                     n: nat)
    requires TableOk(types, table) && Distinct(ids) && n <= |ids|
    ensures Distinct(Hits(table, ids, tests, n))
    ensures Increasing(ids) ==> IdsIncrease(Hits(table, ids, tests, n))
  {
    if n > 0 {
      HitsOrder(types, table, ids, tests, n - 1);
      var i := Lookup(table, ids[n - 1], |table|);
      if i < |table| && RowMatches(tests, table[i]) {
        HitsBefore(types, table, ids, tests, n - 1);
        RowAppended(Hits(table, ids, tests, n - 1), table[i], Increasing(ids));
      }
    }
  }

  lemma HitsBefore(types: seq<ColumnType>, table: seq<Row>, ids: seq<nat>, tests: seq<Predicate>, n: nat)
    requires TableOk(types, table) && Distinct(ids) && n < |ids|
    ensures KeysBefore(Hits(table, ids, tests, n), ids[n], Increasing(ids))
  {
    HitsAre(types, table, ids, tests, n);
    var before := Hits(table, ids, tests, n);
    forall k | 0 <= k < |before| ensures before[k].id != ids[n] && (Increasing(ids) ==> before[k].id < ids[n]) {
      assert before[k] in before;
      EarlierKey(ids, n, before[k].id);
    }
  }

  ghost predicate KeysBefore(rows: seq<Row>, id: nat, ascending: bool) {
    forall k :: 0 <= k < |rows| ==> rows[k].id != id && (ascending ==> rows[k].id < id)
  }

  lemma RowAppended(before: seq<Row>, row: Row, ascending: bool)
    requires Distinct(before) && (ascending ==> IdsIncrease(before))
    requires forall k :: 0 <= k < |before| ==> before[k].id != row.id && (ascending ==> before[k].id < row.id)
    ensures Distinct(before + [row]) && (ascending ==> IdsIncrease(before + [row]))
  {
  }

  lemma EarlierKey(ids: seq<nat>, n: nat, x: nat)
    requires n < |ids| && Distinct(ids) && x in ids[..n]
    ensures x != ids[n] && (Increasing(ids) ==> x < ids[n])
  {
    var k :| 0 <= k < n && ids[..n][k] == x;
    assert ids[k] == x;
  }

  predicate IdsIncrease(rows: seq<Row>) {
    forall i, j :: 0 <= i < j < |rows| ==> rows[i].id < rows[j].id
  }

  lemma {:induction false} FilterIncreases(types: seq<ColumnType>, table: seq<Row>, tests: seq<Predicate>, n: nat)
    requires TableOk(types, table) && n <= |table|
    ensures IdsIncrease(Filter(table, tests, n))
  {
    if n > 0 {
      FilterIncreases(types, table, tests, n - 1);
      forall r | r in Filter(table, tests, n - 1) ensures r.id < table[n - 1].id {
        var i :| 0 <= i < n - 1 && table[i] == r && RowMatches(tests, r);
      }
    }
  }

  // Keys that include all matching rows give exactly the rows of a scan: the
  // same rows in any order, and in the same order if the keys ascend.
  lemma HitsAreTheScan(types: seq<ColumnType>, table: seq<Row>, ids: seq<nat>, tests: seq<Predicate>)
    requires TableOk(types, table) && Distinct(ids)
    requires forall r :: r in table && RowMatches(tests, r) ==> r.id in ids
    ensures multiset(Hits(table, ids, tests, |ids|)) == multiset(Filter(table, tests, |table|))
    ensures Increasing(ids) ==> Hits(table, ids, tests, |ids|) == Filter(table, tests, |table|)
  {
    var hits, rows := Hits(table, ids, tests, |ids|), Filter(table, tests, |table|);
    HitsAre(types, table, ids, tests, |ids|);
    HitsOrder(types, table, ids, tests, |ids|);
    assert ids[..|ids|] == ids;
    FilterIncreases(types, table, tests, |table|);
    forall r ensures r in hits <==> r in rows {
      if r in hits {
        var i :| 0 <= i < |table| && table[i] == r;
      }
    }
    SameBag(hits, rows);
    if Increasing(ids) {
      var less := (a: Row, b: Row) => a.id < b.id;
      SortedUnique(hits, rows, less);
    }
  }

  lemma {:induction false} SameBag(a: seq<Row>, b: seq<Row>)
    requires Distinct(a) && IdsIncrease(b) && forall r :: r in a <==> r in b
    ensures multiset(a) == multiset(b)
  {
    forall r ensures multiset(a)[r] == multiset(b)[r] {
      CountDistinct(a, r);
      CountDistinct(b, r);
    }
  }

  lemma {:induction false} CountDistinct(a: seq<Row>, r: Row)
    requires Distinct(a)
    ensures multiset(a)[r] == if r in a then 1 else 0
  {
    if a != [] {
      CountDistinct(a[1..], r);
      assert a == [a[0]] + a[1..];
    }
  }
}
