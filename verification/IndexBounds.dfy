/** Ordered index snapshots: from tests on one column to the primary keys of the
    rows that meet them (src/generic_index_candidates.c:605-849). */
module IndexBounds {
  import opened Pages
  import opened Lexer
  import opened ValueOrder
  import opened Ranking
  import opened Frequencies
  import opened Conjunctions

  datatype Row = Row(id: nat, values: seq<Value>)
  datatype Entry = Entry(key: Value, id: nat)

  predicate HasType(v: Value, t: ColumnType) {
    v.Number? <==> t == IntColumn
  }

  // Rows in primary-key order, all of the same shape; column zero is the key.
  predicate RowOk(types: seq<ColumnType>, row: Row) {
    && |types| > 0 && |row.values| == |types|
    && (forall c :: 0 <= c < |types| ==> HasType(row.values[c], types[c]))
    && row.values[0] == Number(row.id)
  }

  ghost predicate TableOk(types: seq<ColumnType>, table: seq<Row>) {
    && (forall i :: 0 <= i < |table| ==> RowOk(types, table[i]))
    && (forall i, j :: 0 <= i < j < |table| ==> table[i].id < table[j].id)
  }

  function EntryLess(): (Entry, Entry) -> bool {
    (a: Entry, b: Entry) => Before(a.key, b.key) || (a.key == b.key && a.id < b.id)
  }

  lemma EntryLessIsTotal()
    ensures TotalOrder(EntryLess())
  {
    forall x, y ensures EntryLess()(x, y) || EntryLess()(y, x) || x == y {
      BeforeTotal(x.key, y.key);
    }
    forall x, y ensures !(EntryLess()(x, y) && EntryLess()(y, x)) {
      BeforeTotal(x.key, y.key);
    }
    forall x, y, z | EntryLess()(x, y) && EntryLess()(y, z) ensures EntryLess()(x, z) {
      if Before(x.key, y.key) && Before(y.key, z.key) { BeforeTransitive(x.key, y.key, z.key); }
    }
  }

  // One entry per row, in table order.
  function EntriesOf(table: seq<Row>, column: nat): seq<Entry>
    requires forall i :: 0 <= i < |table| ==> column < |table[i].values|
  {
    seq(|table|, i requires 0 <= i < |table| => Entry(table[i].values[column], table[i].id))
  }

  // The sorted image of a column: what a snapshot must equal.
  function Image(table: seq<Row>, column: nat): (s: seq<Entry>)
    requires forall i :: 0 <= i < |table| ==> column < |table[i].values|
    ensures |s| == |table|
  {
    Ranked(EntriesOf(table, column), |table|, EntryLess())
  }

  ghost predicate KeysAscend(s: seq<Entry>) {
    forall i, j :: 0 <= i < j < |s| ==> !Before(s[j].key, s[i].key)
  }

  lemma ImageSorted(table: seq<Row>, column: nat)
    requires forall i :: 0 <= i < |table| ==> column < |table[i].values|
    ensures KeysAscend(Image(table, column))
    ensures multiset(Image(table, column)) == multiset(EntriesOf(table, column))
  {
    var all, s := EntriesOf(table, column), Image(table, column);
    EntryLessIsTotal();
    TotalIsWeak(EntryLess());
    RankedOrdered(all, |all|, EntryLess());
    RankedKeeps(all, |all|, EntryLess());
    assert all[..|all|] == all;
    forall i, j | 0 <= i < j < |s| ensures !Before(s[j].key, s[i].key) {
      assert !EntryLess()(s[j], s[i]);
    }
  }

  // Entry `e` stands for a row of the table.
  ghost predicate Stands(table: seq<Row>, column: nat, e: Entry)
    requires forall i :: 0 <= i < |table| ==> column < |table[i].values|
  {
    exists i :: 0 <= i < |table| && e == Entry(table[i].values[column], table[i].id)
  }

  // The image lists every row once, and no primary key twice.
  lemma ImageMembers(types: seq<ColumnType>, table: seq<Row>, column: nat)
    requires TableOk(types, table) && column < |types|
    ensures forall e :: e in Image(table, column) <==> Stands(table, column, e)
    ensures forall i, j :: 0 <= i < j < |table| ==> Image(table, column)[i].id != Image(table, column)[j].id
  {
    var all, s := EntriesOf(table, column), Image(table, column);
    ImageSorted(table, column);
    forall e ensures e in s <==> Stands(table, column, e) {
      SameMembers(s, all, e);
      if e in all {
        var i :| 0 <= i < |all| && all[i] == e;
      }
      if Stands(table, column, e) {
        var i :| 0 <= i < |table| && e == Entry(table[i].values[column], table[i].id);
        assert all[i] == e;
      }
    }
    Shuffled(all, s);
    forall i, j | 0 <= i < j < |table| ensures s[i].id != s[j].id {
      DifferentIds(types, table, column, s[i], s[j]);
    }
  }

  lemma DifferentIds(types: seq<ColumnType>, table: seq<Row>, column: nat, a: Entry, b: Entry)
    requires TableOk(types, table) && column < |types|
    requires Stands(table, column, a) && Stands(table, column, b) && a != b
    ensures a.id != b.id
  {
  }

  lemma SameMembers<T>(a: seq<T>, b: seq<T>, x: T)
    requires multiset(a) == multiset(b)
    ensures x in a <==> x in b
  {
    assert x in a <==> x in multiset(a);
    assert x in b <==> x in multiset(b);
  }

  lemma Shuffled<T>(a: seq<T>, b: seq<T>)
    requires multiset(a) == multiset(b) && Distinct(a)
    ensures Distinct(b)
  {
    forall x ensures x in Elements(a) <==> x in Elements(b) {
      SameMembers(a, b, x);
    }
    assert Elements(a) == Elements(b);
    DistinctCardinality(a);
    assert |multiset(a)| == |a| && |multiset(b)| == |b|;
    AllDifferent(b);
  }

  // The image is ordered by value, equal values by primary key.
  lemma ImageAscends(types: seq<ColumnType>, table: seq<Row>, column: nat, i: nat, j: nat)
    requires TableOk(types, table) && column < |types| && i < j < |table|
    ensures var (a, b) := (Image(table, column)[i], Image(table, column)[j]);
      Before(a.key, b.key) || (a.key == b.key && a.id < b.id)
  {
    var all, s := EntriesOf(table, column), Image(table, column);
    ImageMembers(types, table, column);
    EntryLessIsTotal();
    TotalIsWeak(EntryLess());
    RankedOrdered(all, |all|, EntryLess());
    assert !EntryLess()(s[j], s[i]);
    BeforeTotal(s[i].key, s[j].key);
  }

  // The first entry not below `v`.
  method LowerBound(s: seq<Entry>, v: Value) returns (r: nat)
    requires KeysAscend(s)
    ensures r <= |s|
    ensures forall i :: 0 <= i < r ==> Before(s[i].key, v)
    ensures forall i :: r <= i < |s| ==> !Before(s[i].key, v)
  {
    var min, max := 0, |s|;
    while min < max
      invariant 0 <= min <= max <= |s|
      invariant forall i :: 0 <= i < min ==> Before(s[i].key, v)
      invariant forall i :: max <= i < |s| ==> !Before(s[i].key, v)
    {
      var mid := min + (max - min) / 2;
      if Before(s[mid].key, v) {
        forall i | 0 <= i <= mid ensures Before(s[i].key, v) {
          NotAfter(s, i, mid);
          AscendingStrict(s[i].key, s[mid].key, v);
        }
        min := mid + 1;
      } else {
        forall i | mid <= i < |s| ensures !Before(s[i].key, v) {
          NotAfter(s, mid, i);
          AscendingChain(v, s[mid].key, s[i].key);
        }
        max := mid;
      }
    }
    r := min;
  }

  // The first entry above `v`.
  method UpperBound(s: seq<Entry>, v: Value) returns (r: nat)
    requires KeysAscend(s)
    ensures r <= |s|
    ensures forall i :: 0 <= i < r ==> !Before(v, s[i].key)
    ensures forall i :: r <= i < |s| ==> Before(v, s[i].key)
  {
    var min, max := 0, |s|;
    while min < max
      invariant 0 <= min <= max <= |s|
      invariant forall i :: 0 <= i < min ==> !Before(v, s[i].key)
      invariant forall i :: max <= i < |s| ==> Before(v, s[i].key)
    {
      var mid := min + (max - min) / 2;
      if !Before(v, s[mid].key) {
        forall i | 0 <= i <= mid ensures !Before(v, s[i].key) {
          NotAfter(s, i, mid);
          AscendingChain(s[i].key, s[mid].key, v);
        }
        min := mid + 1;
      } else {
        forall i | mid <= i < |s| ensures Before(v, s[i].key) {
          NotAfter(s, mid, i);
          StrictAscending(v, s[mid].key, s[i].key);
        }
        max := mid;
      }
    }
    r := min;
  }

  lemma NotAfter(s: seq<Entry>, i: nat, j: nat)
    requires KeysAscend(s) && i <= j < |s|
    ensures !Before(s[j].key, s[i].key)
  {
    BeforeTotal(s[i].key, s[i].key);
  }

  lemma AscendingStrict(x: Value, y: Value, z: Value)
    requires !Before(y, x) && Before(y, z)
    ensures Before(x, z)
  {
    BeforeTotal(x, y);
    if x != y { BeforeTransitive(x, y, z); }
  }

  lemma StrictAscending(x: Value, y: Value, z: Value)
    requires Before(x, y) && !Before(z, y)
    ensures Before(x, z)
  {
    BeforeTotal(y, z);
    if y != z { BeforeTransitive(x, y, z); }
  }

  // The entries that meet one ordered test form one stretch.
  method PredicateBounds(s: seq<Entry>, t: Predicate) returns (start: nat, end: nat)
    requires KeysAscend(s) && t.op != Like
    ensures start <= |s| && end <= |s|
    ensures forall i :: 0 <= i < |s| ==> (start <= i < end <==> Holds(t.op, s[i].key, t.value))
  {
    start, end := 0, |s|;
    forall i | 0 <= i < |s|
      ensures !(Before(s[i].key, t.value) && Before(t.value, s[i].key))
      ensures s[i].key == t.value || Before(s[i].key, t.value) || Before(t.value, s[i].key)
    {
      BeforeTotal(s[i].key, t.value);
    }
    BeforeTotal(t.value, t.value);
    match t.op
    case Eq =>
      start := LowerBound(s, t.value);
      end := UpperBound(s, t.value);
    case Gt => start := UpperBound(s, t.value);
    case Gte => start := LowerBound(s, t.value);
    case Lt => end := LowerBound(s, t.value);
    case Lte => end := UpperBound(s, t.value);
  }

  predicate AllHold(tests: seq<Predicate>, v: Value) {
    forall t :: t in tests ==> Holds(t.op, v, t.value)
  }

  // Several tests on the column intersect to one stretch.
  method ConjunctiveBounds(s: seq<Entry>, tests: seq<Predicate>) returns (start: nat, end: nat)
    requires KeysAscend(s) && forall t :: t in tests ==> t.op != Like
    ensures start <= |s| && end <= |s|
    ensures forall i :: 0 <= i < |s| ==> (start <= i < end <==> AllHold(tests, s[i].key))
  {
    start, end := 0, |s|;
    var i := 0;
    while i < |tests|
      invariant 0 <= i <= |tests| && start <= |s| && end <= |s|
      invariant forall k :: 0 <= k < |s| ==> (start <= k < end <==> AllHold(tests[..i], s[k].key))
    {
      assert tests[i] in tests && tests[..i + 1] == tests[..i] + [tests[i]];
      var predicateStart, predicateEnd := PredicateBounds(s, tests[i]);
      if predicateStart > start { start := predicateStart; }
      if predicateEnd < end { end := predicateEnd; }
      if start >= end {
        forall k | 0 <= k < |s| ensures !AllHold(tests, s[k].key) {
          assert !AllHold(tests[..i + 1], s[k].key);
        }
        start := end;
        return;
      }
      i := i + 1;
    }
    assert tests[..i] == tests;
  }

  // The entries among the first `n` that meet all tests, in index order.
  function Admitted(s: seq<Entry>, tests: seq<Predicate>, n: nat): (a: seq<Entry>)
    requires n <= |s|
    ensures |a| <= n
  {
    if n == 0 then []
    else Admitted(s, tests, n - 1) + if AllHold(tests, s[n - 1].key) then [s[n - 1]] else []
  }

  function IdsOf(s: seq<Entry>): (ids: seq<nat>)
    ensures |ids| == |s| && forall i :: 0 <= i < |ids| ==> ids[i] == s[i].id
  {
    seq(|s|, i requires 0 <= i < |s| => s[i].id)
  }

  // If they form one stretch, they are that stretch.
  lemma {:induction false} AdmittedStretch(s: seq<Entry>, tests: seq<Predicate>, start: nat, end: nat, n: nat)
    requires n <= |s| && start <= |s| && end <= |s|
    requires forall i :: 0 <= i < |s| ==> (start <= i < end <==> AllHold(tests, s[i].key))
    ensures Admitted(s, tests, n) == if n <= start || end <= start then [] else s[start..if n < end then n else end]
  {
    if n > 0 {
      AdmittedStretch(s, tests, start, end, n - 1);
      assert start < n <= end <==> AllHold(tests, s[n - 1].key);
      assert start < n ==> s[start..n] == s[start..n - 1] + [s[n - 1]];
    }
  }

  // The primary keys of the rows whose column meets all tests, in index order.
  method CollectCandidates(s: seq<Entry>, tests: seq<Predicate>) returns (ids: array<nat>)
    requires KeysAscend(s) && forall t :: t in tests ==> t.op != Like
    requires forall i, j :: 0 <= i < j < |s| ==> s[i].id != s[j].id
    ensures fresh(ids) && Distinct(ids[..])
    ensures forall x :: x in ids[..] <==> exists e :: e in s && AllHold(tests, e.key) && e.id == x
    ensures ids[..] == IdsOf(Admitted(s, tests, |s|))
  {
    var start, end;
    if |tests| == 1 {
      start, end := PredicateBounds(s, tests[0]);
      assert forall v :: AllHold(tests, v) <==> Holds(tests[0].op, v, tests[0].value);
    } else {
      start, end := ConjunctiveBounds(s, tests);
    }
    var count := if end >= start then end - start else 0;
    ids := new nat[count](i requires 0 <= i < count => s[start + i].id);
    StretchIds(s, tests, start, end, ids[..]);
    StretchIsAdmitted(s, tests, start, end, ids[..]);
  }

  lemma StretchIsAdmitted(s: seq<Entry>, tests: seq<Predicate>, start: nat, end: nat, ids: seq<nat>)
    requires start <= |s| && end <= |s| && |ids| == if end >= start then end - start else 0
    requires forall i :: 0 <= i < |s| ==> (start <= i < end <==> AllHold(tests, s[i].key))
    requires forall i :: 0 <= i < |ids| ==> ids[i] == s[start + i].id
    requires forall i, j :: 0 <= i < j < |s| ==> s[i].id != s[j].id
    ensures Distinct(ids) && ids == IdsOf(Admitted(s, tests, |s|))
  {
    AdmittedStretch(s, tests, start, end, |s|);
  }

  lemma StretchIds(s: seq<Entry>, tests: seq<Predicate>, start: nat, end: nat, ids: seq<nat>)
    requires start <= |s| && end <= |s| && |ids| == if end >= start then end - start else 0
    requires forall i :: 0 <= i < |s| ==> (start <= i < end <==> AllHold(tests, s[i].key))
    requires forall i :: 0 <= i < |ids| ==> ids[i] == s[start + i].id
    ensures forall x :: x in ids <==> exists e :: e in s && AllHold(tests, e.key) && e.id == x
  {
    forall x ensures x in ids <==> exists e :: e in s && AllHold(tests, e.key) && e.id == x {
      if x in ids {
        var i :| 0 <= i < |ids| && ids[i] == x;
        assert s[start + i] in s;
      }
      if e :| e in s && AllHold(tests, e.key) && e.id == x {
        var k :| 0 <= k < |s| && s[k] == e;
        assert ids[k - start] == x;
      }
    }
  }
}
