/** The anchor plan: one index walked in its own order
    (src/generic_index_anchor_v2_sql.c:423-533).  Which rows it returns under LIMIT
    and OFFSET, and exactly when they are those of a scan. */
module AnchorPlans {
  import opened Pages
  import opened Lexer
  import opened ValueOrder
  import opened Ranking
  import opened Frequencies
  import opened Conjunctions
  import opened IndexBounds
  import opened IndexPlans

  function KeyOf(row: Row, column: nat): Value {
    if column < |row.values| then row.values[column] else Number(0)
  }

  // By the value in the column, then by primary key.
  function RowLess(column: nat): (Row, Row) -> bool {
    (a: Row, b: Row) =>
      Before(KeyOf(a, column), KeyOf(b, column)) || (KeyOf(a, column) == KeyOf(b, column) && a.id < b.id)
  }

  lemma RowLessIsWeak(column: nat)
    ensures StrictWeak(RowLess(column))
    ensures forall x, y :: RowLess(column)(x, y) ==> !RowLess(column)(y, x)
  {
    var less := RowLess(column);
    forall x, y ensures !(less(x, y) && less(y, x)) && !less(x, x) {
      BeforeTotal(KeyOf(x, column), KeyOf(y, column));
    }
    forall x, y, z | less(x, y) && less(y, z) ensures less(x, z) {
      LessChain(x, y, z, column);
    }
    forall x, y, z | !less(x, y) && !less(y, z) ensures !less(x, z) {
      NotLessChain(x, y, z, column);
    }
  }

  lemma LessChain(x: Row, y: Row, z: Row, column: nat)
    requires RowLess(column)(x, y) && RowLess(column)(y, z)
    ensures RowLess(column)(x, z)
  {
    var a, b, c := KeyOf(x, column), KeyOf(y, column), KeyOf(z, column);
    if Before(a, b) && Before(b, c) {
      BeforeTransitive(a, b, c);
    }
  }

  lemma NotLessChain(x: Row, y: Row, z: Row, column: nat)
    requires !RowLess(column)(x, y) && !RowLess(column)(y, z)
    ensures !RowLess(column)(x, z)
  {
    var a, b, c := KeyOf(x, column), KeyOf(y, column), KeyOf(z, column);
    BeforeTotal(a, b);
    BeforeTotal(b, c);
    BeforeTotal(a, c);
    if Before(c, b) && Before(b, a) {
      BeforeTransitive(c, b, a);
    }
  }

  // The matching rows in the order of the index.
  function InIndexOrder(table: seq<Row>, column: nat, tests: seq<Predicate>): (rows: seq<Row>) {
    var matching := Filter(table, tests, |table|);
    Ranked(matching, |matching|, RowLess(column))
  }

  ghost predicate RowsAscend(rows: seq<Row>, column: nat) {
    forall i, j :: 0 <= i < j < |rows| ==> RowLess(column)(rows[i], rows[j])
  }

  lemma MatchingDistinct(types: seq<ColumnType>, table: seq<Row>, tests: seq<Predicate>)
    requires TableOk(types, table)
    ensures var matching := Filter(table, tests, |table|);
      Distinct(matching) && forall a, b :: a in matching && b in matching && a.id == b.id ==> a == b
  {
    FilterIncreases(types, table, tests, |table|);
  }

  lemma IndexOrderAscends(types: seq<ColumnType>, table: seq<Row>, column: nat, tests: seq<Predicate>)
    requires TableOk(types, table)
    ensures RowsAscend(InIndexOrder(table, column, tests), column)
    ensures multiset(InIndexOrder(table, column, tests)) == multiset(Filter(table, tests, |table|))
  {
    var matching, sorted := Filter(table, tests, |table|), InIndexOrder(table, column, tests);
    RowLessIsWeak(column);
    RankedOrdered(matching, |matching|, RowLess(column));
    RankedKeeps(matching, |matching|, RowLess(column));
    assert matching[..|matching|] == matching;
    MatchingDistinct(types, table, tests);
    Shuffled(matching, sorted);
    forall i, j | 0 <= i < j < |sorted| ensures RowLess(column)(sorted[i], sorted[j]) {
      SameMembers(sorted, matching, sorted[i]);
      SameMembers(sorted, matching, sorted[j]);
      assert sorted[i] != sorted[j];
      NotLaterIsLess(sorted[i], sorted[j], column);
    }
  }

  lemma NotLaterIsLess(a: Row, b: Row, column: nat)
    requires !RowLess(column)(b, a) && a.id != b.id
    ensures RowLess(column)(a, b)
  {
    BeforeTotal(KeyOf(a, column), KeyOf(b, column));
  }

  // Only one arrangement of the matching rows ascends.
  lemma OneOrder(types: seq<ColumnType>, table: seq<Row>, column: nat, tests: seq<Predicate>, rows: seq<Row>)
    requires TableOk(types, table) && RowsAscend(rows, column)
    requires multiset(rows) == multiset(Filter(table, tests, |table|))
    ensures rows == InIndexOrder(table, column, tests)
  {
    var sorted := InIndexOrder(table, column, tests);
    RowLessIsWeak(column);
    IndexOrderAscends(types, table, column, tests);
    forall x ensures x in rows <==> x in sorted {
      SameMembers(rows, sorted, x);
    }
    SortedUnique(rows, sorted, RowLess(column));
  }

  // An entry tells the indexed value of its row.
  lemma EntryRow(types: seq<ColumnType>, table: seq<Row>, column: nat, e: Entry, r: Row)
    requires TableOk(types, table) && column < |types| && Stands(table, column, e) && r in table && r.id == e.id
    ensures KeyOf(r, column) == e.key
  {
    var i :| 0 <= i < |table| && e == Entry(table[i].values[column], table[i].id);
    var k :| 0 <= k < |table| && table[k] == r;
    OneRowPerId(types, table, i, k);
  }

  lemma OneRowPerId(types: seq<ColumnType>, table: seq<Row>, i: nat, k: nat)
    requires TableOk(types, table) && i < |table| && k < |table| && table[i].id == table[k].id
    ensures i == k
  {
  }

  ghost predicate EntriesAscend(s: seq<Entry>) {
    forall i, j :: 0 <= i < j < |s| ==> EntryLess()(s[i], s[j])
  }

  lemma ImageAscends(types: seq<ColumnType>, table: seq<Row>, column: nat)
    requires TableOk(types, table) && column < |types|
    ensures EntriesAscend(Image(table, column))
  {
    var all, s := EntriesOf(table, column), Image(table, column);
    EntryLessIsTotal();
    TotalIsWeak(EntryLess());
    RankedOrdered(all, |all|, EntryLess());
    ImageMembers(types, table, column);
    forall i, j | 0 <= i < j < |s| ensures EntryLess()(s[i], s[j]) {
      assert !EntryLess()(s[j], s[i]) && s[i].id != s[j].id;
    }
  }

  lemma {:induction false} AdmittedAscends(s: seq<Entry>, tests: seq<Predicate>, n: nat)
    requires EntriesAscend(s) && n <= |s|
    ensures EntriesAscend(Admitted(s, tests, n))
    ensures forall e :: e in Admitted(s, tests, n) ==> e in s[..n]
  {
    if n > 0 {
      AdmittedAscends(s, tests, n - 1);
      var before := Admitted(s, tests, n - 1);
      forall i | 0 <= i < |before| ensures EntryLess()(before[i], s[n - 1]) {
        assert before[i] in s[..n - 1];
      }
      assert s[..n] == s[..n - 1] + [s[n - 1]];
    }
  }

  ghost predicate AllBelow(rows: seq<Row>, column: nat, row: Row) {
    forall k :: 0 <= k < |rows| ==> RowLess(column)(rows[k], row)
  }

  lemma AscendsGrows(rows: seq<Row>, column: nat, row: Row)
    requires RowsAscend(rows, column) && AllBelow(rows, column, row)
    ensures RowsAscend(rows + [row], column)
  {
  }

  // Rows fetched in index order ascend.
  lemma {:induction false} HitsFollow(types: seq<ColumnType>, table: seq<Row>, column: nat, s: seq<Entry>,
                                      tests: seq<Predicate>, n: nat)
    requires TableOk(types, table) && column < |types| && n <= |s| && EntriesAscend(s)
    requires forall e :: e in s ==> Stands(table, column, e)
    ensures RowsAscend(Hits(table, IdsOf(s), tests, n), column)
  {
    if n > 0 {
      HitsFollow(types, table, column, s, tests, n - 1);
      var i := Lookup(table, IdsOf(s)[n - 1], |table|);
      if i < |table| && RowMatches(tests, table[i]) {
        HitsPrecede(types, table, column, s, tests, n - 1, table[i]);
        AscendsGrows(Hits(table, IdsOf(s), tests, n - 1), column, table[i]);
      }
    }
  }

  lemma HitsPrecede(types: seq<ColumnType>, table: seq<Row>, column: nat, s: seq<Entry>, tests: seq<Predicate>,
                    n: nat, row: Row)
    requires TableOk(types, table) && column < |types| && n < |s| && EntriesAscend(s)
    requires forall e :: e in s ==> Stands(table, column, e)
    requires row in table && row.id == s[n].id
    ensures AllBelow(Hits(table, IdsOf(s), tests, n), column, row)
  {
    var before, ids := Hits(table, IdsOf(s), tests, n), IdsOf(s)[..n];
    HitsAre(types, table, IdsOf(s), tests, n);
    forall k | 0 <= k < |before| ensures RowLess(column)(before[k], row) {
      assert before[k] in before;
      var j :| 0 <= j < n && ids[j] == before[k].id;
      RowsOfEntries(types, table, column, s, j, n, before[k], row);
    }
  }

  lemma RowsOfEntries(types: seq<ColumnType>, table: seq<Row>, column: nat, s: seq<Entry>, j: nat, k: nat, a: Row,
                      b: Row)
    requires TableOk(types, table) && column < |types| && EntriesAscend(s) && j < k < |s|
    requires Stands(table, column, s[j]) && Stands(table, column, s[k])
    requires a in table && a.id == s[j].id && b in table && b.id == s[k].id
    ensures RowLess(column)(a, b)
  {
    EntryRow(types, table, column, s[j], a);
    EntryRow(types, table, column, s[k], b);
    assert EntryLess()(s[j], s[k]);
  }

  // The window leaves nothing out, or everything.
  predicate KeepsAllOrNone(n: nat, select: Select) {
    || select.offset >= n
    || (select.hasLimit && select.limit == 0)
    || (select.offset == 0 && (select.hasLimit ==> select.limit >= n))
  }

  lemma WindowOfAll(a: seq<Row>, b: seq<Row>, select: Select)
    requires multiset(a) == multiset(b)
    ensures |a| == |b| && |Window(a, select)| == |Window(b, select)|
    ensures KeepsAllOrNone(|a|, select) ==> multiset(Window(a, select)) == multiset(Window(b, select))
  {
    assert |multiset(a)| == |a| && |multiset(b)| == |b|;
    if KeepsAllOrNone(|a|, select) {
      if select.offset >= |a| || (select.hasLimit && select.limit == 0) {
        assert Window(a, select) == [] && Window(b, select) == [];
      } else {
        assert Window(a, select) == a && Window(b, select) == b;
      }
    }
  }

  // The anchor plan returns LIMIT and OFFSET of the matching rows in index order.
  // These are the rows of the scan if the window leaves nothing out, or everything;
  // their number and the COUNT are always those of the scan.
  method ExecuteAnchor(types: seq<ColumnType>, table: seq<Row>, select: Select, column: nat, entries: seq<Entry>,
                       counting: bool)
    returns (rows: seq<Row>, count: nat)
    requires TableOk(types, table) && TestsOk(types, select.tests) && column < |types|
    requires entries == Image(table, column)
    ensures !counting ==> rows == Window(InIndexOrder(table, column, select.tests), select)
    ensures !counting && KeepsAllOrNone(|Filter(table, select.tests, |table|)|, select) ==>
      multiset(rows) == multiset(Window(Filter(table, select.tests, |table|), select))
    ensures !counting ==> |rows| == |Window(Filter(table, select.tests, |table|), select)|
    ensures counting ==> count == CountOf(|Filter(table, select.tests, |table|)|, select)
  {
    var ids := CollectAnchor(types, table, select.tests, column, entries);
    AnchorHits(types, table, select.tests, column, ids[..]);
    WindowOfAll(Hits(table, ids[..], select.tests, ids.Length), Filter(table, select.tests, |table|), select);
    rows, count := Emit(table, ids[..], select, counting);
  }

  lemma AnchorHits(types: seq<ColumnType>, table: seq<Row>, tests: seq<Predicate>, column: nat, ids: seq<nat>)
    requires TableOk(types, table) && TestsOk(types, tests) && column < |types| && Distinct(ids)
    requires forall x :: x in ids <==> Admits(table, tests, column, x)
    requires ids == IdsOf(Admitted(Image(table, column), SourceTests(tests, column), |table|))
    ensures Hits(table, ids, tests, |ids|) == InIndexOrder(table, column, tests)
    ensures multiset(Hits(table, ids, tests, |ids|)) == multiset(Filter(table, tests, |table|))
  {
    forall r | r in table && RowMatches(tests, r) ensures r.id in ids {
      var i :| 0 <= i < |table| && table[i] == r;
      MatchingIsAdmitted(types, table, tests, column, i);
    }
    HitsAreTheScan(types, table, ids, tests);
    var image := Image(table, column);
    var admitted := Admitted(image, SourceTests(tests, column), |table|);
    ImageMembers(types, table, column);
    ImageAscends(types, table, column);
    AdmittedAscends(image, SourceTests(tests, column), |table|);
    forall e | e in admitted ensures Stands(table, column, e) {
      assert e in image[..|table|];
    }
    HitsFollow(types, table, column, admitted, tests, |ids|);
    OneOrder(types, table, column, tests, Hits(table, ids, tests, |ids|));
  }

  // A table of `n` rows whose second column ascends, but for two values swapped.

  const TWO_INTS: seq<ColumnType> := [IntColumn, IntColumn]
  const EVERY_ROW: seq<Predicate> := [Predicate(1, Gte, Number(0)), Predicate(0, Gte, Number(0))]

  function Swap(p: nat, q: nat, i: nat): nat {
    if i == p then q else if i == q then p else i
  }

  function SwappedRow(p: nat, q: nat, i: nat): Row {
    Row(i, [Number(i), Number(Swap(p, q, i))])
  }

  function Swapped(n: nat, p: nat, q: nat): (table: seq<Row>)
    ensures |table| == n && forall i :: 0 <= i < n ==> table[i] == SwappedRow(p, q, i)
  {
    seq(n, i requires 0 <= i < n => SwappedRow(p, q, i))
  }

  predicate TwoNumbers(row: Row) {
    |row.values| == 2 && row.values[0].Number? && row.values[1].Number?
  }

  lemma TwoNumbersMatch(row: Row)
    requires TwoNumbers(row)
    ensures RowMatches(EVERY_ROW, row)
  {
  }

  lemma {:induction false} EveryRowMatches(table: seq<Row>, n: nat)
    requires n <= |table| && forall i :: 0 <= i < |table| ==> TwoNumbers(table[i])
    ensures Filter(table, EVERY_ROW, n) == table[..n]
  {
    if n > 0 {
      EveryRowMatches(table, n - 1);
      TwoNumbersMatch(table[n - 1]);
      PrefixGrows(table, n - 1);
    }
  }

  lemma SwappedInOrder(n: nat, p: nat, q: nat)
    requires p < n && q < n && p != q
    ensures TableOk(TWO_INTS, Swapped(n, p, q))
    ensures Filter(Swapped(n, p, q), EVERY_ROW, n) == Swapped(n, p, q)
    ensures InIndexOrder(Swapped(n, p, q), 1, EVERY_ROW) == Unswapped(n, p, q)
  {
    var table, rows := Swapped(n, p, q), Unswapped(n, p, q);
    SwappedIsTable(n, p, q);
    EveryRowMatches(table, n);
    assert table[..n] == table;
    UnswappedAscends(n, p, q);
    OneOrder(TWO_INTS, table, 1, EVERY_ROW, rows);
  }

  function Unswapped(n: nat, p: nat, q: nat): (rows: seq<Row>)
    ensures |rows| == n && forall i :: 0 <= i < n ==> rows[i] == SwappedRow(p, q, Swap(p, q, i))
  {
    seq(n, i requires 0 <= i < n => SwappedRow(p, q, Swap(p, q, i)))
  }

  lemma SwappedIsTable(n: nat, p: nat, q: nat)
    ensures TableOk(TWO_INTS, Swapped(n, p, q))
  {
    var table := Swapped(n, p, q);
    forall i | 0 <= i < n ensures RowOk(TWO_INTS, table[i]) {
      assert table[i] == SwappedRow(p, q, i);
    }
  }

  lemma UnswappedAscends(n: nat, p: nat, q: nat)
    requires p < n && q < n
    ensures RowsAscend(Unswapped(n, p, q), 1)
    ensures multiset(Unswapped(n, p, q)) == multiset(Swapped(n, p, q))
  {
    var table, rows := Swapped(n, p, q), Unswapped(n, p, q);
    forall i, j | 0 <= i < j < n ensures RowLess(1)(rows[i], rows[j]) {
      assert KeyOf(rows[i], 1) == Number(i) && KeyOf(rows[j], 1) == Number(j);
    }
    assert rows == table[p := table[q]][q := table[p]];
    SwapKeeps(table, p, q);
  }

  lemma SwapKeeps(s: seq<Row>, p: nat, q: nat)
    requires p < |s| && q < |s|
    ensures multiset(s[p := s[q]][q := s[p]]) == multiset(s)
  {
  }

  // A window that takes row `p` of the scan and leaves out position `q` misses
  // row `p` when the two are swapped in the index.
  lemma WindowMisses(n: nat, select: Select, p: nat, q: nat)
    requires select.offset < n && p < n && q < n && p != q
    requires var end := if select.hasLimit && select.limit < n - select.offset then select.offset + select.limit else n;
      select.offset <= p < end && !(select.offset <= q < end)
    ensures multiset(Window(InIndexOrder(Swapped(n, p, q), 1, EVERY_ROW), select))
         != multiset(Window(Filter(Swapped(n, p, q), EVERY_ROW, n), select))
  {
    SwappedInOrder(n, p, q);
    var scan, anchor := Swapped(n, p, q), Unswapped(n, p, q);
    var o := select.offset;
    var end := if select.hasLimit && select.limit < n - o then o + select.limit else n;
    WindowIsStretch(scan, select, o, end);
    WindowIsStretch(anchor, select, o, end);
    forall k | o <= k < end ensures anchor[k] != scan[p] {
      assert anchor[k].id == Swap(p, q, k) && scan[p].id == p;
    }
    StretchesDiffer(scan, anchor, o, end, p);
  }

  lemma WindowIsStretch(rows: seq<Row>, select: Select, o: nat, end: nat)
    requires o == select.offset < |rows|
    requires end == if select.hasLimit && select.limit < |rows| - o then o + select.limit else |rows|
    ensures Window(rows, select) == rows[o..end]
  {
  }

  lemma StretchesDiffer(a: seq<Row>, b: seq<Row>, o: nat, end: nat, p: nat)
    requires o <= p < end <= |a| == |b| && forall k :: o <= k < end ==> b[k] != a[p]
    ensures multiset(b[o..end]) != multiset(a[o..end])
  {
    assert a[o..end][p - o] == a[p];
    assert a[p] in multiset(a[o..end]);
    assert a[p] !in b[o..end];
  }

  const MAX_TESTS: nat := 16

  // What is routed to an anchor: two tests or more, one of them sortable and on the
  // column of the index, which is not the key, and no equality on the key
  // (src/generic_index_anchor_v2_sql.c:105-157, 393-419).
  predicate Routed(types: seq<ColumnType>, tests: seq<Predicate>, column: nat) {
    && TestsOk(types, tests) && 2 <= |tests| <= MAX_TESTS
    && 0 < column < |types| && SourceTests(tests, column) != []
    && forall t :: t in tests && t.column == 0 ==> t.op != Eq
  }

  // All tables with `n` matching rows give the rows of the scan, whatever query is
  // routed to an anchor.
  ghost predicate AnchorIsTheScan(n: nat, select: Select) {
    forall types: seq<ColumnType>, table: seq<Row>, column: nat, tests: seq<Predicate> ::
      TableOk(types, table) && Routed(types, tests, column) && |Filter(table, tests, |table|)| == n ==>
        SameRows(table, column, tests, select)
  }

  lemma EveryRowIsRouted()
    ensures Routed(TWO_INTS, EVERY_ROW, 1)
  {
    assert EVERY_ROW[0] in SourceTests(EVERY_ROW, 1);
  }

  ghost predicate SameRows(table: seq<Row>, column: nat, tests: seq<Predicate>, select: Select) {
    multiset(Window(InIndexOrder(table, column, tests), select))
      == multiset(Window(Filter(table, tests, |table|), select))
  }

  // The index order: by the value of the column, equal ones by primary key.
  lemma IndexOrderIs(types: seq<ColumnType>, table: seq<Row>, column: nat, tests: seq<Predicate>, i: nat, j: nat)
    requires TableOk(types, table) && column < |types| && i < j < |InIndexOrder(table, column, tests)|
    ensures var (a, b) := (InIndexOrder(table, column, tests)[i], InIndexOrder(table, column, tests)[j]);
      && column < |a.values| && column < |b.values|
      && (Before(a.values[column], b.values[column]) || (a.values[column] == b.values[column] && a.id < b.id))
  {
    IndexOrderAscends(types, table, column, tests);
    var rows, matching := InIndexOrder(table, column, tests), Filter(table, tests, |table|);
    assert rows[i] in multiset(rows) && rows[j] in multiset(rows);
    assert rows[i] in matching && rows[j] in matching;
  }

  // Exactly then are the rows under LIMIT and OFFSET those of the scan for every
  // routed query and table with `n` matching rows, whatever the index order.
  lemma AnchorWindowIff(n: nat, select: Select)
    ensures AnchorIsTheScan(n, select) <==> KeepsAllOrNone(n, select)
  {
    if KeepsAllOrNone(n, select) {
      forall types: seq<ColumnType>, table: seq<Row>, column: nat, tests: seq<Predicate> |
        TableOk(types, table) && Routed(types, tests, column) && |Filter(table, tests, |table|)| == n
        ensures SameRows(table, column, tests, select)
      {
        var matching := Filter(table, tests, |table|);
        RankedKeeps(matching, |matching|, RowLess(column));
        assert matching[..|matching|] == matching;
        WindowOfAll(InIndexOrder(table, column, tests), matching, select);
      }
    } else {
      var o := select.offset;
      var q := if o > 0 then 0 else select.limit;
      WindowMisses(n, select, o, q);
      SwappedInOrder(n, o, q);
      EveryRowIsRouted();
      assert !SameRows(Swapped(n, o, q), 1, EVERY_ROW, select);
    }
  }

  lemma TwoRows(a: seq<Row>, b: seq<Row>)
    requires |a| == |b| == 2 && a[0] == b[0] && a[1] == b[1]
    ensures a == b
  {
  }

  lemma FirstOnly(rows: seq<Row>, select: Select)
    requires |rows| == 2 && select.hasLimit && select.limit == 1 && select.offset == 0
    ensures Window(rows, select) == [rows[0]]
  {
  }

  // Two rows and LIMIT 1: the scan returns the row with key zero, the anchor plan the other one.
  lemma LimitOneDiffers(select: Select)
    requires select.hasLimit && select.limit == 1 && select.offset == 0
    ensures
      var table := [Row(0, [Number(0), Number(1)]), Row(1, [Number(1), Number(0)])];
      && TableOk(TWO_INTS, table) && Routed(TWO_INTS, EVERY_ROW, 1)
      && Window(Filter(table, EVERY_ROW, 2), select) == [table[0]]
      && Window(InIndexOrder(table, 1, EVERY_ROW), select) == [table[1]]
  {
    var table := [Row(0, [Number(0), Number(1)]), Row(1, [Number(1), Number(0)])];
    SwappedInOrder(2, 0, 1);
    EveryRowIsRouted();
    TwoRows(table, Swapped(2, 0, 1));
    TwoRows([table[1], table[0]], Unswapped(2, 0, 1));
    FirstOnly(table, select);
    FirstOnly([table[1], table[0]], select);
  }
}
