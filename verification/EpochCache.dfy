/** Index snapshots on disk as a cache of the committed tables, guarded by one
    epoch number (src/generic_index_epoch.c:101-402,
    src/generic_index_candidates.c:425-589, src/generic_index_record_guard.c:521-569).
    Directory changes reach the disk in the order they were made, and certainly
    once the directory has been synced; a crash keeps some prefix of the rest. */
module EpochCache {
  import opened Lexer
  import opened ValueOrder
  import opened IndexBounds

  const EPOCH_MAX: nat := 0xFFFF_FFFF_FFFF_FFFF

  type EpochNumber = e: nat | e <= EPOCH_MAX
  // What a fresh epoch starts from: derived from the clock, never zero nor the largest.
  type Seed = s: nat | 0 < s < EPOCH_MAX witness 1

  datatype Index = Index(table: nat, column: nat)
  datatype Snapshot = Snapshot(epoch: EpochNumber, entries: seq<Entry>)
  datatype EpochFile = Missing | Epoch(value: EpochNumber)

  // The files that matter: temporary files are never read.
  datatype Dir = Dir(epoch: EpochFile, snapshots: map<Index, Snapshot>)

  type Tables = seq<seq<Row>>

  ghost predicate TablesOk(types: seq<seq<ColumnType>>, tables: Tables) {
    |tables| == |types| && forall t :: 0 <= t < |tables| ==> TableOk(types[t], tables[t])
  }

  // No plan reads an index on the primary key, and no fence is put up for one.
  ghost predicate IndexesOk(types: seq<seq<ColumnType>>, indexes: seq<Index>) {
    forall i :: i in indexes ==> i.table < |types| && 0 < i.column < |types[i.table]|
  }

  // What the snapshot of an index must hold.
  function ImageOf(tables: Tables, i: Index): seq<Entry> {
    if i.table < |tables| && forall k :: 0 <= k < |tables[i.table]| ==> i.column < |tables[i.table][k].values|
    then Image(tables[i.table], i.column) else []
  }

  // Nothing newer than the epoch, and what carries the epoch is right.
  ghost predicate DirOk(d: Dir, tables: Tables) {
    d.epoch.Epoch? ==> forall i :: i in d.snapshots ==> SnapshotOk(d.snapshots[i], d.epoch.value, ImageOf(tables, i))
  }

  predicate SnapshotOk(s: Snapshot, epoch: EpochNumber, image: seq<Entry>) {
    s.epoch <= epoch && (s.epoch == epoch ==> s.entries == image)
  }

  // No snapshot would be accepted.
  ghost predicate Fenced(d: Dir) {
    d.epoch.Epoch? ==> forall i :: i in d.snapshots ==> d.snapshots[i].epoch < d.epoch.value
  }

  // Only snapshots of known indexes, and DirOk.
  ghost predicate Sound(d: Dir, indexes: seq<Index>, tables: Tables) {
    (forall i :: i in d.snapshots ==> i in indexes) && DirOk(d, tables)
  }

  predicate Indexed(indexes: seq<Index>, t: nat) {
    exists i :: i in indexes && i.table == t
  }

  // Changing tables that no index covers, or changing anything behind a fence, is harmless.
  lemma DirOkAfter(d: Dir, before: Tables, after: Tables)
    requires DirOk(d, before)
    requires Fenced(d) || forall i :: i in d.snapshots ==> ImageOf(before, i) == ImageOf(after, i)
    ensures DirOk(d, after)
  {
    if d.epoch.Epoch? {
      forall i | i in d.snapshots ensures SnapshotOk(d.snapshots[i], d.epoch.value, ImageOf(after, i)) {
        assert SnapshotOk(d.snapshots[i], d.epoch.value, ImageOf(before, i));
      }
    }
  }

  // Advancing the epoch leaves every snapshot behind: always so short of the
  // largest epoch, which is followed by the seed.
  predicate Advances(d: Dir, seed: Seed) {
    d.epoch == Epoch(EPOCH_MAX) ==> forall i :: i in d.snapshots ==> d.snapshots[i].epoch < seed
  }

  lemma WithEpoch(d: Dir, seed: Seed, indexes: seq<Index>, tables: Tables)
    requires Sound(d, indexes, tables) && Advances(d, seed) && (d.epoch.Missing? ==> d.snapshots == map[])
    ensures Sound(Advanced(d, seed), indexes, tables) && Fenced(Advanced(d, seed))
  {
    FenceIff(d, tables, seed);
    assert Advanced(d, seed) == d.(epoch := Epoch(NextEpoch(d.epoch, seed)));
  }

  function Renewed(d: Dir, i: Index, entries: seq<Entry>): Dir {
    if d.epoch.Missing? then d else d.(snapshots := d.snapshots[i := Snapshot(d.epoch.value, entries)])
  }

  lemma WithSnapshot(d: Dir, i: Index, indexes: seq<Index>, tables: Tables)
    requires Sound(d, indexes, tables) && i in indexes
    ensures Sound(Renewed(d, i, ImageOf(tables, i)), indexes, tables)
  {
    var e := Renewed(d, i, ImageOf(tables, i));
    if d.epoch.Epoch? {
      forall j | j in e.snapshots ensures SnapshotOk(e.snapshots[j], e.epoch.value, ImageOf(tables, j)) {
        assert j != i ==> SnapshotOk(d.snapshots[j], d.epoch.value, ImageOf(tables, j));
      }
    }
  }

  lemma LastRenewed(history: seq<Dir>, from: nat, i: Index, indexes: seq<Index>, tables: Tables, d: Dir)
    requires from < |history| && SoundFrom(history, from, indexes, tables) && i in indexes
    requires d == Renewed(history[|history| - 1], i, ImageOf(tables, i))
    ensures Sound(d, indexes, tables)
  {
    LastSound(history, from, indexes, tables);
    WithSnapshot(history[|history| - 1], i, indexes, tables);
  }

  lemma LastAdvanced(history: seq<Dir>, from: nat, seed: Seed, indexes: seq<Index>, tables: Tables, d: Dir)
    requires from < |history| && SoundFrom(history, from, indexes, tables)
    requires var last := history[|history| - 1];
      d == Advanced(last, seed) && Advances(last, seed) && (last.epoch.Missing? ==> last.snapshots == map[])
    ensures Sound(d, indexes, tables) && Fenced(d)
  {
    LastSound(history, from, indexes, tables);
    WithEpoch(history[|history| - 1], seed, indexes, tables);
  }

  // Every state of the directory from position `from` on.
  ghost predicate SoundFrom(history: seq<Dir>, from: nat, indexes: seq<Index>, tables: Tables) {
    forall k :: from <= k < |history| ==> SoundAt(history, k, indexes, tables)
  }

  ghost predicate SoundAt(history: seq<Dir>, k: nat, indexes: seq<Index>, tables: Tables) {
    k < |history| && Sound(history[k], indexes, tables)
  }

  ghost predicate FencedFrom(history: seq<Dir>, from: nat) {
    forall k :: from <= k < |history| ==> FencedAt(history, k)
  }

  ghost predicate FencedAt(history: seq<Dir>, k: nat) {
    k < |history| && Fenced(history[k])
  }

  lemma SoundFromAppend(history: seq<Dir>, d: Dir, from: nat, indexes: seq<Index>, tables: Tables)
    requires SoundFrom(history, from, indexes, tables) && Sound(d, indexes, tables)
    ensures SoundFrom(history + [d], from, indexes, tables)
  {
    forall k | from <= k < |history + [d]| ensures SoundAt(history + [d], k, indexes, tables) {
      assert k < |history| ==> SoundAt(history, k, indexes, tables);
    }
  }

  lemma LastSound(history: seq<Dir>, from: nat, indexes: seq<Index>, tables: Tables)
    requires from < |history| && SoundFrom(history, from, indexes, tables)
    ensures Sound(history[|history| - 1], indexes, tables)
  {
    assert SoundAt(history, |history| - 1, indexes, tables);
  }

  lemma FencedFromAppend(history: seq<Dir>, d: Dir, from: nat)
    requires FencedFrom(history, from) && Fenced(d)
    ensures FencedFrom(history + [d], from)
  {
    forall k | from <= k < |history + [d]| ensures FencedAt(history + [d], k) {
      assert k < |history| ==> FencedAt(history, k);
    }
  }

  lemma Appended(history: seq<Dir>, d: Dir, from: nat, durable: nat, indexes: seq<Index>, tables: Tables)
    requires from <= durable < |history| && SoundFrom(history, from, indexes, tables) && Sound(d, indexes, tables)
    ensures
      var after := history + [d];
      && SoundFrom(after, from, indexes, tables) && SoundFrom(after, durable, indexes, tables)
      && SoundFrom(after, |history|, indexes, tables)
      && (Fenced(d) ==> FencedFrom(after, |history|))
      && (Fenced(d) && FencedFrom(history, durable) ==> FencedFrom(after, durable))
  {
    SoundFromAppend(history, d, from, indexes, tables);
    if Fenced(d) && FencedFrom(history, durable) {
      FencedFromAppend(history, d, durable);
    }
    assert (history + [d])[|history|] == d;
  }

  // What every directory a crash could leave is worth when the tables change.
  lemma SoundFromAfter(history: seq<Dir>, from: nat, indexes: seq<Index>, before: Tables, after: Tables)
    requires SoundFrom(history, from, indexes, before)
    requires FencedFrom(history, from) || SameImages(indexes, before, after)
    ensures SoundFrom(history, from, indexes, after)
  {
    forall k | from <= k < |history| ensures SoundAt(history, k, indexes, after) {
      assert SoundAt(history, k, indexes, before);
      assert FencedFrom(history, from) ==> FencedAt(history, k);
      DirOkAfter(history[k], before, after);
    }
  }

  ghost predicate SameImages(indexes: seq<Index>, before: Tables, after: Tables) {
    forall i :: i in indexes ==> ImageOf(before, i) == ImageOf(after, i)
  }

  class Store {
    const types: seq<seq<ColumnType>>
    const indexes: seq<Index>
    // Whether each directory operation succeeds.
    const luck: nat -> bool
    var tick: nat
    // Directory states in order of issue; those before `durable` are gone for good.
    var history: seq<Dir>
    var durable: nat
    var committed: Tables
    var working: Tables
    var inTransaction: bool

    function Now(): Dir
      requires history != []
      reads this`history
    {
      history[|history| - 1]
    }

    ghost predicate Typed()
      reads this`committed, this`working
    {
      IndexesOk(types, indexes) && TablesOk(types, committed) && TablesOk(types, working)
    }

    // Some indexed table may have uncommitted changes.
    ghost predicate Changed()
      reads this`committed, this`working, this`inTransaction
    {
      inTransaction && !SameImages(indexes, committed, working)
    }

    // Every directory a crash could leave, from position `from` on, suits the
    // committed tables.
    ghost predicate SafeSince(from: nat)
      reads this`history, this`committed
    {
      SoundFrom(history, from, indexes, committed)
    }

    // What holds whether or not the snapshots are right.
    ghost predicate Shaped()
      reads this
    {
      && Typed()
      && durable < |history|
      && (forall i :: i in Now().snapshots ==> i in indexes)
      && (!inTransaction ==> working == committed)
    }

    ghost predicate Valid()
      reads this
    {
      && Shaped()
      && SafeSince(durable)
      && (Changed() ==> FencedFrom(history, durable))
    }

    ghost predicate AllLucky() {
      forall n :: luck(n)
    }

    // A new database without any index file.
    constructor (types: seq<seq<ColumnType>>, indexes: seq<Index>, tables: Tables, luck: nat -> bool)
      requires IndexesOk(types, indexes) && TablesOk(types, tables)
      ensures Valid() && this.types == types && this.indexes == indexes && this.luck == luck
      ensures history == [Dir(Missing, map[])] && committed == working == tables && !inTransaction
    {
      this.types, this.indexes, this.luck := types, indexes, luck;
      tick, history, durable := 0, [Dir(Missing, map[])], 0;
      committed, working, inTransaction := tables, tables, false;
    }

    // A process dies: the directory is any state not yet superseded durably,
    // the tables are the committed ones.
    method Crash(survivor: nat)
      requires Valid() && durable <= survivor < |history|
      modifies this
      ensures Valid() && history == [old(history[survivor])]
      ensures committed == working == old(committed) && !inTransaction
    {
      assert SoundAt(history, survivor, indexes, committed);
      history, durable := [history[survivor]], 0;
      working, inTransaction := committed, false;
    }

    // The epoch file is lost or damaged.
    method LoseEpoch()
      requires Valid()
      modifies this`history, this`durable
      ensures Valid() && history == [old(Now()).(epoch := Missing)]
    {
      assert SoundAt(history, |history| - 1, indexes, committed);
      history, durable := [Now().(epoch := Missing)], 0;
    }

    method Try() returns (ok: bool)
      modifies this`tick
      ensures ok == luck(old(tick))
    {
      ok, tick := luck(tick), tick + 1;
    }

    // Right for the committed tables, and a fence where one is needed.
    ghost predicate Suits(d: Dir)
      reads this`committed, this`working, this`inTransaction
    {
      Sound(d, indexes, committed) && (Changed() ==> Fenced(d))
    }

    ghost predicate ValidSince(from: nat)
      reads this
    {
      Valid() && from <= durable && SafeSince(from)
    }

    // A rename or removal, then a sync of the directory.
    method Change(ghost from: nat, d: Dir) returns (ok: bool)
      requires Shaped() && forall i :: i in d.snapshots ==> i in indexes
      modifies this`history, this`durable, this`tick
      ensures Shaped() && durable >= old(durable)
      ensures old(ValidSince(from)) && Suits(d) ==> ValidSince(from)
      ensures old(ValidSince(from)) && Suits(d) && Fenced(d) && (ok || old(FencedFrom(history, durable))) ==>
        FencedFrom(history, durable)
      ensures Now() == d || (history == old(history) && !ok)
      ensures AllLucky() ==> ok
    {
      ghost var valid := ValidSince(from) && Suits(d);
      if valid {
        Appended(history, d, from, durable, indexes, committed);
      }
      ok := Try();
      if !ok {
        return;
      }
      history := history + [d];
      ok := Try();
      if ok {
        durable := |history| - 1;
      }
    }

    // Removes every snapshot, each removal made durable before the next.
    method Purge(ghost from: nat) returns (ok: bool)
      requires Shaped() && Now().epoch.Missing?
      modifies this`history, this`durable, this`tick
      ensures Shaped() && Now().epoch.Missing? && durable >= old(durable)
      ensures old(ValidSince(from)) ==> ValidSince(from)
      ensures ok ==> Now().snapshots == map[]
      ensures AllLucky() ==> ok
    {
      ok := true;
      var n: nat := 0;
      while n < |indexes|
        invariant n <= |indexes| && ok
        invariant Shaped() && Now().epoch.Missing? && durable >= old(durable)
        invariant old(ValidSince(from)) ==> ValidSince(from)
        invariant Gone(Now(), indexes, n)
      {
        if indexes[n] in Now().snapshots {
          ok := RemoveSnapshot(from, indexes[n]);
          if !ok {
            return;
          }
        }
        n := n + 1;
      }
      NothingLeft(Now(), indexes);
    }

    method RemoveSnapshot(ghost from: nat, i: Index) returns (ok: bool)
      requires Shaped() && Now().epoch.Missing?
      modifies this`history, this`durable, this`tick
      ensures Shaped() && Now().epoch.Missing? && durable >= old(durable)
      ensures old(ValidSince(from)) ==> ValidSince(from)
      ensures ok ==> Now().snapshots == old(Now()).snapshots - {i}
      ensures AllLucky() ==> ok
    {
      ok := Change(from, Now().(snapshots := Now().snapshots - {i}));
    }

    // The epoch to compare snapshots with; replaced, after a purge, if it was lost.
    method EpochCurrent(ghost from: nat, seed: Seed) returns (ok: bool, epoch: EpochNumber)
      requires Shaped()
      modifies this`history, this`durable, this`tick
      ensures Shaped() && (ok ==> Now().epoch == Epoch(epoch))
      ensures old(Now()).epoch.Epoch? ==> history == old(history) && durable == old(durable)
      ensures old(ValidSince(from)) ==> ValidSince(from)
      ensures ok && old(Now()).epoch.Missing? ==> Now().snapshots == map[] && epoch == seed
      ensures AllLucky() ==> ok
    {
      epoch := 0;
      ok := Try();
      if !ok {
        return;
      }
      if Now().epoch.Epoch? {
        return true, Now().epoch.value;
      }
      ok := Purge(from);
      if !ok {
        return;
      }
      epoch := seed;
      ok := Change(from, Now().(epoch := Epoch(epoch)));
    }

    // Publishes a new epoch before a table with an index may change.  No snapshot
    // carries it unless the largest epoch was reached and the seed does not
    // exceed every snapshot's.
    method BeforeMutation(ghost from: nat, t: nat, seed: Seed) returns (ok: bool)
      requires ValidSince(from)
      modifies this`history, this`durable, this`tick
      ensures Shaped() && from <= durable
      ensures old(Advances(Now(), seed)) || !Indexed(indexes, t) ==> ValidSince(from)
      ensures !Indexed(indexes, t) ==> ok && history == old(history) && durable == old(durable)
      ensures (forall i :: i in indexes ==> i.table != t) ==> ok && history == old(history)
      ensures ok && Indexed(indexes, t) ==> Now() == Advanced(old(Now()), seed)
      ensures ok && Indexed(indexes, t) ==> EpochFollows(old(Now().epoch), Now().epoch, seed)
      ensures ok && Indexed(indexes, t) && old(Advances(Now(), seed)) ==> FencedFrom(history, durable)
      ensures AllLucky() ==> ok
    {
      if !Indexed(indexes, t) {
        return true;
      }
      ok := Try();
      if !ok {
        return;
      }
      if Now().epoch.Missing? {
        ok := Purge(from);
        if !ok {
          return;
        }
      }
      ok := Bump(from, seed);
    }

    // The next epoch, or a fresh one in a directory without snapshots.
    method Bump(ghost from: nat, seed: Seed) returns (ok: bool)
      requires ValidSince(from)
      requires Now().epoch.Missing? ==> Now().snapshots == map[]
      modifies this`history, this`durable, this`tick
      ensures Shaped() && from <= durable
      ensures old(Advances(Now(), seed)) ==> ValidSince(from) && (ok ==> FencedFrom(history, durable))
      ensures ok ==> Now() == Advanced(old(Now()), seed)
      ensures AllLucky() ==> ok
    {
      var d := Advanced(Now(), seed);
      if Advances(Now(), seed) {
        LastAdvanced(history, durable, seed, indexes, committed, d);
      }
      ok := Change(from, d);
    }

    // A row change: fence first, then commit at once unless a transaction is open.
    method Mutate(t: nat, rows: seq<Row>, seed: Seed) returns (ok: bool)
      requires Valid() && t < |types| && TableOk(types[t], rows)
      modifies this
      ensures Shaped()
      ensures old(Advances(Now(), seed)) || !Indexed(indexes, t) ==>
        Valid() && SoundFrom(history, old(durable), indexes, old(committed))
      ensures ok && Indexed(indexes, t) ==> Now() == Advanced(old(Now()), seed)
      ensures ok && Indexed(indexes, t) ==> EpochFollows(old(Now().epoch), Now().epoch, seed)
      ensures (forall i :: i in indexes ==> i.table != t) ==> ok && history == old(history)
      ensures working == if ok then old(working)[t := rows] else old(working)
      ensures committed == if ok && !old(inTransaction) then working else old(committed)
      ensures inTransaction == old(inTransaction)
      ensures AllLucky() ==> ok
    {
      ghost var from := durable;
      ok := BeforeMutation(from, t, seed);
      if ok {
        Apply(from, t, rows);
      }
    }

    // The rows change: behind a fence, or where no index would show it.
    method Apply(ghost from: nat, t: nat, rows: seq<Row>)
      requires Shaped() && t < |types| && TableOk(types[t], rows)
      modifies this`working, this`committed
      ensures Shaped()
      ensures old(ValidSince(from)) && (FencedFrom(history, durable) || !Indexed(indexes, t)) ==>
        Valid() && SoundFrom(history, from, indexes, old(committed))
      ensures working == old(working)[t := rows]
      ensures committed == if inTransaction then old(committed) else working
    {
      ghost var valid := ValidSince(from) && (FencedFrom(history, durable) || !Indexed(indexes, t));
      OtherImages(indexes, committed, working, t, rows);
      TablesUpdate(types, working, t, rows);
      if valid && !inTransaction {
        SoundFromAfter(history, durable, indexes, working, working[t := rows]);
      }
      working := working[t := rows];
      if !inTransaction {
        committed := working;
      }
    }

    method Begin()
      requires Valid() && !inTransaction
      modifies this`inTransaction
      ensures Valid() && inTransaction
    {
      inTransaction := true;
    }

    method Commit()
      requires Valid() && inTransaction
      modifies this`inTransaction, this`committed
      ensures Valid() && !inTransaction && committed == working
      ensures SoundFrom(history, durable, indexes, old(committed))
    {
      SoundFromAfter(history, durable, indexes, committed, working);
      committed := working;
      inTransaction := false;
    }

    method Rollback()
      requires Valid() && inTransaction
      modifies this`inTransaction, this`working
      ensures Valid() && !inTransaction && working == committed == old(committed)
    {
      working := committed;
      inTransaction := false;
    }

    // The snapshot carries the epoch.
    predicate Accepts(i: Index)
      reads this`history, this`inTransaction
    {
      && history != [] && !inTransaction && Now().epoch.Epoch?
      && i in Now().snapshots && Now().snapshots[i].epoch == Now().epoch.value
    }

    // The entries an index plan works on: an accepted snapshot, or a fresh scan
    // whose snapshot is then published.  Either way they are the sorted image of
    // the table as the reader sees it, unless the fence failed before.
    method ReadSnapshot(i: Index, seed: Seed) returns (ok: bool, entries: seq<Entry>, loaded: bool)
      requires Shaped() && i in indexes
      modifies this`history, this`durable, this`tick
      ensures Shaped()
      ensures old(Valid()) ==> ValidSince(old(durable))
      ensures old(Valid()) && ok ==> entries == ImageOf(working, i)
      ensures loaded ==> ok && old(Accepts(i)) && Accepts(i) && entries == old(Now().snapshots[i].entries)
      ensures ok && !loaded ==> entries == ImageOf(working, i)
      ensures ok ==> Now().epoch == if old(Now()).epoch.Epoch? then old(Now()).epoch else Epoch(seed)
      ensures AllLucky() ==> ok && loaded == old(Accepts(i))
      ensures AllLucky() && !inTransaction ==> Accepts(i) && Now().snapshots[i].entries == entries
    {
      ghost var from := durable;
      var epoch;
      loaded, entries := false, [];
      ok, epoch := EpochCurrent(from, seed);
      if !ok {
        return;
      }
      assert old(Valid()) ==> SoundAt(history, |history| - 1, indexes, committed);
      if !inTransaction && i in Now().snapshots && Now().snapshots[i].epoch == epoch {
        assert old(Valid()) ==> SnapshotOk(Now().snapshots[i], epoch, ImageOf(committed, i));
        return true, Now().snapshots[i].entries, true;
      }
      entries := ImageOf(working, i);
      if !inTransaction {
        Publish(from, i);
      }
    }

    // A fresh snapshot replaces the one on disk, if any.
    method Publish(ghost from: nat, i: Index)
      requires Shaped() && !inTransaction && Now().epoch.Epoch? && i in indexes
      modifies this`history, this`durable, this`tick
      ensures Shaped() && Now().epoch == old(Now()).epoch
      ensures old(ValidSince(from)) ==> ValidSince(from)
      ensures AllLucky() ==> Accepts(i) && Now().snapshots[i].entries == ImageOf(committed, i)
    {
      var d := Renewed(Now(), i, ImageOf(committed, i));
      if ValidSince(from) {
        LastRenewed(history, durable, i, indexes, committed, d);
      }
      var written := Change(from, d);
    }
  }

  // The directory a bump is to leave: snapshots go if there was no epoch.
  function Advanced(d: Dir, seed: Seed): Dir {
    Dir(Epoch(NextEpoch(d.epoch, seed)), if d.epoch.Missing? then map[] else d.snapshots)
  }

  // Row changes that change nothing, up to the largest epoch.
  method ReachLargest(store: Store, tables: Tables, t: nat, seed: Seed)
    requires store.Valid() && store.committed == tables && !store.inTransaction && store.AllLucky()
    requires t < |tables| && Indexed(store.indexes, t) && store.Now().epoch.Epoch?
    modifies store
    ensures store.Valid() && store.committed == tables && !store.inTransaction
    ensures store.Now() == old(store.Now()).(epoch := Epoch(EPOCH_MAX))
  {
    ghost var snapshots := store.Now().snapshots;
    while store.Now().epoch.value < EPOCH_MAX
      invariant store.Valid() && store.committed == tables && !store.inTransaction
      invariant store.Now().epoch.Epoch? && store.Now().snapshots == snapshots
      decreases EPOCH_MAX - store.Now().epoch.value
    {
      var ok := store.Mutate(t, tables[t], seed);
    }
  }

  // From a new database, by reads and row changes only, to a read that returns
  // what the table held before its last change: enough changes to reach the
  // largest epoch, and the clock repeating the first seed at the wrap.
  method ReachStaleRead(types: seq<seq<ColumnType>>, indexes: seq<Index>, tables: Tables, i: Index, rows: seq<Row>,
                        seed: Seed)
    returns (store: Store, entries: seq<Entry>)
    requires IndexesOk(types, indexes) && TablesOk(types, tables) && i in indexes
    requires TableOk(types[i.table], rows) && ImageOf(tables, i) != ImageOf(tables[i.table := rows], i)
    ensures store.committed == tables[i.table := rows] && !store.inTransaction && store.Accepts(i)
    ensures entries == ImageOf(tables, i) != ImageOf(store.committed, i)
  {
    store := new Store(types, indexes, tables, _ => true);
    var ok, loaded;
    ok, entries, loaded := store.ReadSnapshot(i, seed);
    ReachLargest(store, tables, i.table, seed);
    ok := store.Mutate(i.table, rows, seed);
    ok, entries, loaded := store.ReadSnapshot(i, seed);
  }

  ghost predicate Gone(d: Dir, indexes: seq<Index>, n: nat) {
    forall k :: 0 <= k < n && k < |indexes| ==> indexes[k] !in d.snapshots
  }

  lemma NothingLeft(d: Dir, indexes: seq<Index>)
    requires (forall i :: i in d.snapshots ==> i in indexes) && Gone(d, indexes, |indexes|)
    ensures d.snapshots == map[]
  {
    forall i: Index ensures i !in d.snapshots {
      if i in indexes {
        var k :| 0 <= k < |indexes| && indexes[k] == i;
      }
    }
    assert d.snapshots.Keys == {};
  }

  lemma TablesUpdate(types: seq<seq<ColumnType>>, tables: Tables, t: nat, rows: seq<Row>)
    requires TablesOk(types, tables) && t < |types| && TableOk(types[t], rows)
    ensures TablesOk(types, tables[t := rows])
  {
  }

  // Rows no index covers do not show.
  lemma OtherImages(indexes: seq<Index>, committed: Tables, working: Tables, t: nat, rows: seq<Row>)
    requires t < |working| == |committed|
    ensures !Indexed(indexes, t) ==> SameImages(indexes, working, working[t := rows])
    ensures !Indexed(indexes, t) && SameImages(indexes, committed, working) ==>
      SameImages(indexes, committed, working[t := rows])
  {
  }

  function NextEpoch(file: EpochFile, seed: Seed): EpochNumber {
    if file.Missing? then seed + 1 else if file.value == EPOCH_MAX then seed else file.value + 1
  }

  // The epoch after another one: the next number, the seed after the largest 64-bit
  // number, and the number after the seed where there was none.
  ghost predicate EpochFollows(before: EpochFile, after: EpochFile, seed: Seed) {
    && after.Epoch?
    && (before.Missing? ==> after.value == seed + 1)
    && (before.Epoch? && before.value + 1 == 0x1_0000_0000_0000_0000 ==> after.value == seed)
    && (before.Epoch? && before.value + 1 < 0x1_0000_0000_0000_0000 ==> after.value == before.value + 1)
  }

  // The fence holds after every bump except the wrap at the largest epoch, which
  // replaces it by a time-based seed and keeps the snapshots: there it holds
  // exactly when every snapshot is older than the seed.
  lemma FenceIff(d: Dir, tables: Tables, seed: Seed)
    requires DirOk(d, tables) && (d.epoch.Missing? ==> d.snapshots == map[])
    ensures Fenced(d.(epoch := Epoch(NextEpoch(d.epoch, seed)))) <==>
      d.epoch != Epoch(EPOCH_MAX) || forall i :: i in d.snapshots ==> d.snapshots[i].epoch < seed
  {
    if d.epoch.Epoch? && d.epoch.value != EPOCH_MAX {
      forall i | i in d.snapshots ensures d.snapshots[i].epoch < d.epoch.value + 1 {
        assert SnapshotOk(d.snapshots[i], d.epoch.value, ImageOf(tables, i));
      }
    }
  }

  // A wrap that repeats the seed of an older epoch lets a stale snapshot pass.
  lemma WrapAcceptsStale(seed: Seed)
    requires 0 < seed < EPOCH_MAX
    ensures exists d: Dir, i: Index, tables: Tables ::
      && DirOk(d, tables) && d.epoch == Epoch(EPOCH_MAX)
      && i in d.snapshots && d.snapshots[i].epoch == NextEpoch(d.epoch, seed)
      && d.snapshots[i].entries != ImageOf(tables, i)
  {
    var i := Index(0, 1);
    var tables: Tables := [[]];
    var d := Dir(Epoch(EPOCH_MAX), map[i := Snapshot(seed, [Entry(Number(7), 1)])]);
    assert ImageOf(tables, i) == [];
    assert DirOk(d, tables);
    assert i in d.snapshots;
  }
}
