/** Index plans over the snapshot cache (src/generic_index_intersection_sql.c:489-690,
    src/generic_index_anchor_v2_sql.c:423-533, src/generic_index_candidates.c:532-589):
    whatever the cache holds and whichever of its steps fail, a plan that completes
    answers from the rows the reader sees. */
module CachedPlans {
  import opened Pages
  import opened Lexer
  import opened Conjunctions
  import opened IndexBounds
  import opened IndexPlans
  import opened AnchorPlans
  import opened IndexPlanner
  import opened EpochCache

  function IndexedColumns(indexes: seq<Index>, t: nat): set<nat> {
    set i | i in indexes && i.table == t :: i.column
  }

  // Snapshots hold what the plans work on.
  lemma SnapshotIsImage(types: seq<seq<ColumnType>>, tables: Tables, t: nat, column: nat)
    requires TablesOk(types, tables) && t < |types| && column < |types[t]|
    ensures TableOk(types[t], tables[t]) && ImageOf(tables, Index(t, column)) == Image(tables[t], column)
  {
  }

  lemma IndexedInRange(types: seq<seq<ColumnType>>, indexes: seq<Index>, t: nat)
    requires IndexesOk(types, indexes) && t < |types|
    ensures forall c :: c in IndexedColumns(indexes, t) ==> c < |types[t]| && Index(t, c) in indexes
  {
    forall c | c in IndexedColumns(indexes, t) ensures c < |types[t]| && Index(t, c) in indexes {
      assert Index(t, c) in indexes;
    }
  }

  method ReadSource(store: Store, t: nat, column: nat, seed: Seed) returns (ok: bool, entry: seq<Entry>)
    requires store.Valid() && t < |store.types| && column < |store.types[t]| && Index(t, column) in store.indexes
    modifies store`history, store`durable, store`tick
    ensures store.Valid()
    ensures ok ==> TableOk(store.types[t], store.working[t]) && entry == Image(store.working[t], column)
    ensures store.AllLucky() ==> ok
  {
    var loaded;
    ok, entry, loaded := store.ReadSnapshot(Index(t, column), seed);
    SnapshotIsImage(store.types, store.working, t, column);
  }

  // Candidates of one source, ascending.
  method SourceKeys(store: Store, t: nat, tests: seq<Predicate>, column: nat, seed: Seed)
    returns (ok: bool, ids: array<nat>)
    requires store.Valid() && t < |store.types| && column < |store.types[t]| && Index(t, column) in store.indexes
    modifies store`history, store`durable, store`tick
    ensures store.Valid() && fresh(ids)
    ensures ok ==> Increasing(ids[..]) && forall x :: x in ids[..] <==> Admits(store.working[t], tests, column, x)
    ensures store.AllLucky() ==> ok
  {
    var entries;
    ok, entries := ReadSource(store, t, column, seed);
    if ok {
      ids := CollectSource(store.types[t], store.working[t], tests, column, entries);
    } else {
      ids := new nat[0];
    }
  }

  // The keys all of the first `i` sources admit, ascending.
  ghost predicate Common(table: seq<Row>, tests: seq<Predicate>, sources: seq<nat>, i: nat, ids: seq<nat>) {
    && i <= |sources| && Increasing(ids)
    && forall x :: x in ids <==> AllAdmit(table, tests, sources[..i], x)
  }

  lemma CommonFirst(table: seq<Row>, tests: seq<Predicate>, sources: seq<nat>, ids: seq<nat>)
    requires sources != [] && Increasing(ids) && forall x :: x in ids <==> Admits(table, tests, sources[0], x)
    ensures Common(table, tests, sources, 1, ids)
  {
    assert sources[..1] == [sources[0]];
  }

  lemma CommonNext(table: seq<Row>, tests: seq<Predicate>, sources: seq<nat>, i: nat, ids: seq<nat>, next: seq<nat>,
                   both: seq<nat>)
    requires Common(table, tests, sources, i, ids) && i < |sources| && Increasing(both)
    requires forall x :: x in next <==> Admits(table, tests, sources[i], x)
    requires forall x :: x in both <==> x in ids && x in next
    ensures Common(table, tests, sources, i + 1, both)
  {
    AdmitNext(table, tests, sources, i);
  }

  // Once nothing is common, nothing will be.
  lemma NothingCommon(table: seq<Row>, tests: seq<Predicate>, sources: seq<nat>, i: nat)
    requires Common(table, tests, sources, i, [])
    ensures Common(table, tests, sources, |sources|, [])
  {
    PrefixAll(sources);
    forall x: nat ensures !AllAdmit(table, tests, sources, x) {
      assert x !in [];
      FewerAdmit(table, tests, sources, i, x);
    }
  }

  // Some key passes the first `i` sources.
  ghost predicate InCommon(table: seq<Row>, tests: seq<Predicate>, sources: seq<nat>, i: nat) {
    i <= |sources| && exists x :: AllAdmit(table, tests, sources[..i], x)
  }

  lemma FirstInCommon(table: seq<Row>, tests: seq<Predicate>, sources: seq<nat>, i: nat, ids: seq<nat>)
    requires Common(table, tests, sources, i, ids) && ids != []
    ensures InCommon(table, tests, sources, i)
  {
    assert ids[0] in ids;
  }

  // Candidates every source admits.  Sources are read one after another, and no
  // further once nothing is left in common.
  method CollectIntersection(store: Store, t: nat, tests: seq<Predicate>, sources: seq<nat>, seed: Seed)
    returns (ok: bool, ids: array<nat>, count: nat, read: nat)
    requires store.Valid() && t < |store.types| && sources != []
    requires forall k :: 0 <= k < |sources| ==> sources[k] < |store.types[t]| && Index(t, sources[k]) in store.indexes
    modifies store`history, store`durable, store`tick
    ensures store.Valid() && fresh(ids)
    ensures ok ==> count <= ids.Length && Common(store.working[t], tests, sources, |sources|, ids[..count])
    ensures ok ==> 1 <= read <= |sources| && (read < |sources| ==> !InCommon(store.working[t], tests, sources, read))
    ensures ok ==> forall k :: 1 <= k < read ==> InCommon(store.working[t], tests, sources, k)
    ensures store.AllLucky() ==> ok
  {
    ghost var table := store.working[t];
    ok, ids := SourceKeys(store, t, tests, sources[0], seed);
    count, read := ids.Length, 1;
    if !ok {
      return;
    }
    assert ids[..count] == ids[..];
    CommonFirst(table, tests, sources, ids[..count]);
    while read < |sources| && count > 0
      invariant ok && 1 <= read <= |sources| && store.Valid() && fresh(ids) && count <= ids.Length
      invariant Common(table, tests, sources, read, ids[..count])
      invariant forall k :: 1 <= k < read ==> InCommon(table, tests, sources, k)
      invariant store.working == old(store.working)
    {
      FirstInCommon(table, tests, sources, read, ids[..count]);
      ok, ids, count := IntersectNext(store, t, tests, sources, read, ids, count, seed);
      if !ok {
        return;
      }
      read := read + 1;
    }
    if count == 0 {
      assert ids[..0] == [];
      NothingCommon(table, tests, sources, read);
    }
  }

  // One more source.
  method IntersectNext(store: Store, t: nat, tests: seq<Predicate>, sources: seq<nat>, i: nat, ids: array<nat>,
                       count: nat, seed: Seed)
    returns (ok: bool, ids': array<nat>, count': nat)
    requires store.Valid() && t < |store.types| && i < |sources|
    requires sources[i] < |store.types[t]| && Index(t, sources[i]) in store.indexes
    requires count <= ids.Length && Common(store.working[t], tests, sources, i, ids[..count])
    modifies store`history, store`durable, store`tick, ids
    ensures store.Valid() && (ids' == ids || fresh(ids'))
    ensures ok ==> count' <= ids'.Length && Common(store.working[t], tests, sources, i + 1, ids'[..count'])
    ensures store.AllLucky() ==> ok
  {
    ghost var table, before := store.working[t], ids[..count];
    var next;
    ids', count' := ids, count;
    ok, next := SourceKeys(store, t, tests, sources[i], seed);
    if !ok {
      return;
    }
    if next.Length == 0 {
      assert next[..0] == [];
      CommonNext(table, tests, sources, i, before, next[..], []);
      return ok, next, 0;
    }
    count' := IntersectIds(ids, count, next);
    CommonNext(table, tests, sources, i, before, next[..], ids[..count']);
  }

  // Whatever sources the planner picked and in whatever order, the intersection
  // plan returns the rows of a plain scan, LIMIT and OFFSET included.
  method ExecuteIntersection(store: Store, t: nat, select: Select, sources: seq<nat>, counting: bool, seed: Seed)
    returns (ok: bool, rows: seq<Row>, count: nat)
    requires store.Valid() && t < |store.types| && TestsOk(store.types[t], select.tests) && sources != []
    requires forall k :: 0 <= k < |sources| ==> sources[k] < |store.types[t]| && Index(t, sources[k]) in store.indexes
    modifies store`history, store`durable, store`tick
    ensures store.Valid()
    ensures var scan := Filter(store.working[t], select.tests, |store.working[t]|);
      && (ok && !counting ==> rows == Window(scan, select))
      && (ok && counting ==> count == CountOf(|scan|, select))
    ensures store.AllLucky() ==> ok
  {
    rows, count := [], 0;
    SnapshotsAreTables(store.types, store.working, t);
    var ids, n, read;
    ok, ids, n, read := CollectIntersection(store, t, select.tests, sources, seed);
    if ok {
      CommonIncludesMatches(store.types[t], store.working[t], select.tests, sources, ids[..n]);
      HitsAreTheScan(store.types[t], store.working[t], ids[..n], select.tests);
      rows, count := Emit(store.working[t], ids[..n], select, counting);
    }
  }

  lemma CommonIncludesMatches(types: seq<ColumnType>, table: seq<Row>, tests: seq<Predicate>, sources: seq<nat>,
                              ids: seq<nat>)
    requires TableOk(types, table) && TestsOk(types, tests)
    requires (forall k :: 0 <= k < |sources| ==> sources[k] < |types|) && Common(table, tests, sources, |sources|, ids)
    ensures forall r :: r in table && RowMatches(tests, r) ==> r.id in ids
  {
    PrefixAll(sources);
    forall r | r in table && RowMatches(tests, r) ensures r.id in ids {
      var i :| 0 <= i < |table| && table[i] == r;
      forall c | c in sources ensures Admits(table, tests, c, r.id) {
        MatchingIsAdmitted(types, table, tests, c, i);
      }
      assert AllAdmit(table, tests, sources, r.id);
    }
  }

  lemma SnapshotsAreTables(types: seq<seq<ColumnType>>, tables: Tables, t: nat)
    requires TablesOk(types, tables) && t < |types|
    ensures TableOk(types[t], tables[t])
  {
  }

  // The intersection plan as a whole: if the planner takes it and its sources can be
  // read, its rows are the rows of a scan, for every answer the estimators could
  // give, every state of the cache, and inside a transaction as outside.
  method RunIntersection(store: Store, t: nat, select: Select, oracle: seq<Estimate>, counting: bool, seed: Seed)
    returns (ok: bool, taken: bool, rows: seq<Row>, count: nat)
    requires store.Valid() && t < |store.types| && TestsOk(store.types[t], select.tests) && |oracle| == MAX_SOURCES
    modifies store`history, store`durable, store`tick
    ensures store.Valid()
    ensures var scan := Filter(store.working[t], select.tests, |store.working[t]|);
      && (ok && taken && !counting ==> rows == Window(scan, select))
      && (ok && taken && counting ==> count == CountOf(|scan|, select))
    ensures var n := |Usable(select.tests, |select.tests|, IndexedColumns(store.indexes, t))|;
      && (taken ==> 2 <= n <= 16) && (2 <= n <= 16 && !Informed(oracle, n) ==> taken)
      && (2 <= n <= 16 && Informed(oracle, n) ==> DecidedByPrice(oracle, n, taken))
    ensures store.AllLucky() ==> ok
  {
    rows, count, ok := [], 0, true;
    var columns;
    var indexed := IndexedColumns(store.indexes, t);
    taken, columns := PlanIntersection(select.tests, indexed, oracle);
    if !taken {
      return;
    }
    IndexedInRange(store.types, store.indexes, t);
    UsableInRange(store.types[t], select.tests, indexed, columns);
    ok, rows, count := ExecuteIntersection(store, t, select, columns, counting, seed);
  }

  // Without estimates the planner takes the anchor on which scan and anchor plan differ.
  lemma DifferenceIsReached()
    ensures Preferred(EVERY_ROW, {1}) < |EVERY_ROW| && EVERY_ROW[Preferred(EVERY_ROW, {1})].column == 1
  {
    assert UsableTest(EVERY_ROW[0], {1});
  }

  // The anchor plan as a whole: the matching rows in the order of the chosen index.
  method RunAnchor(store: Store, t: nat, select: Select, oracle: seq<Estimate>, counting: bool, seed: Seed)
    returns (ok: bool, taken: bool, rows: seq<Row>, count: nat)
    requires store.Valid() && t < |store.types| && TestsOk(store.types[t], select.tests) && |oracle| >= |select.tests|
    modifies store`history, store`durable, store`tick
    ensures store.Valid()
    ensures ok && taken && !counting ==>
      exists c :: c in IndexedColumns(store.indexes, t)
        && rows == Window(InIndexOrder(store.working[t], c, select.tests), select)
    ensures var scan := Filter(store.working[t], select.tests, |store.working[t]|);
      && (ok && taken && !counting && KeepsAllOrNone(|scan|, select) ==>
            multiset(rows) == multiset(Window(scan, select)))
      && (ok && taken && counting ==> count == CountOf(|scan|, select))
    ensures var anchors := Anchors(select.tests, IndexedColumns(store.indexes, t), oracle);
      forall i: nat :: IsBest(anchors, |select.tests|, i) ==>
        (taken <==> 5 * oracle[i].candidates <= 3 * oracle[i].total)
    ensures store.AllLucky() ==> ok
  {
    rows, count, ok := [], 0, true;
    var column;
    taken, column := ChooseAnchor(select.tests, IndexedColumns(store.indexes, t), oracle);
    if !taken {
      return;
    }
    IndexedInRange(store.types, store.indexes, t);
    var entries;
    ok, entries := ReadSource(store, t, column, seed);
    if ok {
      rows, count := ExecuteAnchor(store.types[t], store.working[t], select, column, entries, counting);
    }
  }
}
