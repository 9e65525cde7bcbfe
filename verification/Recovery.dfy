/** Recovery of an interrupted migration at database open: strict classification,
    the page-ownership preflight, and the executor that reclaims, checkpoints and
    only then removes the manifest (src/compact_v2_migration_recovery.h:82-175,
    src/compact_v2_migration_pager_recovery.h:65-168,
    src/compact_v2_migration_full_page_preflight.h:21-95). */
module Recovery {
  import opened Pages
  import opened Trees
  import opened OldTree
  import opened LiveGuard
  import opened Manifest
  import opened Pager
  import opened PagerReclaim
  import opened OwnershipCollect

  // One table of the authoritative catalog with its schema generation.
  datatype Entry = Entry(tableId: nat, root: nat, generation: nat)

  datatype Action = Invalid | ReclaimStaging | KeepNewReclaimOld

  function Roots(catalog: seq<Entry>): (r: seq<nat>)
    ensures |r| == |catalog|
    ensures forall i :: 0 <= i < |r| ==> r[i] == catalog[i].root
  {
    seq(|catalog|, i requires 0 <= i < |catalog| => catalog[i].root)
  }

  // A catalog whose table ids and generations can be trusted, over a file of `n` pages.
  predicate CatalogOk(catalog: seq<Entry>, n: nat) {
    && 1 <= |catalog| <= MAX_TABLES
    && (forall i :: 0 <= i < |catalog| ==>
          catalog[i].tableId != 0 && catalog[i].generation != 0 && catalog[i].root < n)
    && forall i, j :: 0 <= i < j < |catalog| ==> catalog[i].tableId != catalog[j].tableId
  }

  method CheckCatalog(catalog: seq<Entry>, n: nat) returns (ok: bool)
    ensures ok <==> CatalogOk(catalog, n)
  {
    if |catalog| == 0 || |catalog| > MAX_TABLES {
      return false;
    }
    for i := 0 to |catalog|
      invariant forall k :: 0 <= k < i ==>
        catalog[k].tableId != 0 && catalog[k].generation != 0 && catalog[k].root < n
      invariant forall a, b :: 0 <= a < b < i ==> catalog[a].tableId != catalog[b].tableId
    {
      if catalog[i].tableId == 0 || catalog[i].generation == 0 || catalog[i].root >= n {
        return false;
      }
      for j := 0 to i
        invariant forall a :: 0 <= a < j ==> catalog[a].tableId != catalog[i].tableId
      {
        if catalog[i].tableId == catalog[j].tableId {
          return false;
        }
      }
    }
    return true;
  }

  // The first entry with the given table id.
  function Lookup(catalog: seq<Entry>, tableId: nat): Option<Entry> {
    if catalog == [] then None
    else if catalog[0].tableId == tableId then Some(catalog[0])
    else Lookup(catalog[1..], tableId)
  }

  // The authoritative entry of a table; nothing is authoritative in a bad catalog.
  function Authoritative(catalog: seq<Entry>, n: nat, tableId: nat): Option<Entry> {
    if CatalogOk(catalog, n) && tableId != 0 then Lookup(catalog, tableId) else None
  }

  // DURABLE_UNPUBLISHED may meet the old or the new catalog state;
  // CATALOG_PUBLISHED only the new one.
  function Classify(m: Manifest, root: nat, generation: nat): Action {
    if !IsValid(m) then Invalid
    else if root == m.oldRoot && generation == m.oldGeneration then
      if m.phase == DURABLE_UNPUBLISHED then ReclaimStaging else Invalid
    else if root == m.stagedRoot && generation == m.newGeneration then KeepNewReclaimOld
    else Invalid
  }

  // Exactly when there is something to reclaim.
  lemma ClassifyIs(m: Manifest, root: nat, generation: nat)
    ensures Classify(m, root, generation) == ReclaimStaging <==>
      IsValid(m) && m.phase == 1 && root == m.oldRoot && generation == m.oldGeneration
    ensures Classify(m, root, generation) == KeepNewReclaimOld <==>
      IsValid(m) && root == m.stagedRoot && generation == m.newGeneration
  {
  }

  function ActionFor(m: Manifest, catalog: seq<Entry>, n: nat): Action {
    match Authoritative(catalog, n, m.tableId)
    case None => Invalid
    case Some(e) => Classify(m, e.root, e.generation)
  }

  // The tree at `root` shares no page with a live tree.
  ghost predicate DetachedTree(image: Image, roots: seq<nat>, root: nat) {
    exists t :: IsLiveTree(image.pages, image.free, {}, root, t)
      && forall p :: p in NodePages(t) ==> !Live(image.pages, roots, p)
  }

  // What the preflight demands of everything recovery might reclaim.
  ghost predicate PagesAreSafe(m: Manifest, image: Image, catalog: seq<Entry>) {
    var roots := Roots(catalog);
    && CatalogIntact(image.pages, image.free, roots)
    && match ActionFor(m, catalog, |image.pages|)
       case Invalid => false
       case ReclaimStaging => ClaimsAreSafe(m.claims, image, roots)
       case KeepNewReclaimOld => OldRootIsSafe(m.oldRoot, image, roots)
  }

  ghost predicate ClaimsAreSafe(claims: seq<u32>, image: Image, roots: seq<nat>) {
    forall c :: c in claims ==> c < |image.pages| && !Live(image.pages, roots, c)
  }

  ghost predicate OldRootIsSafe(root: nat, image: Image, roots: seq<nat>) {
    && root < |image.pages| && !Live(image.pages, roots, root)
    && (AlreadyReclaimed(image, root) || DetachedTree(image, roots, root))
  }

  method FindEntry(catalog: seq<Entry>, n: nat, tableId: nat) returns (e: Option<Entry>)
    ensures e == Authoritative(catalog, n, tableId)
  {
    var ok := CheckCatalog(catalog, n);
    if !ok || tableId == 0 {
      return None;
    }
    var i := 0;
    while i < |catalog|
      invariant 0 <= i <= |catalog|
      invariant Lookup(catalog, tableId) == Lookup(catalog[i..], tableId)
    {
      if catalog[i].tableId == tableId {
        return Some(catalog[i]);
      }
      assert catalog[i..][1..] == catalog[i + 1..];
      i := i + 1;
    }
    return None;
  }

  method AreDisjoint(a: array<bool>, b: array<bool>) returns (ok: bool)
    requires a.Length == b.Length
    ensures ok <==> forall p :: 0 <= p < a.Length ==> !(a[p] && b[p])
  {
    for page := 0 to a.Length
      invariant forall p :: 0 <= p < page ==> !(a[p] && b[p])
    {
      if a[page] && b[page] {
        return false;
      }
    }
    return true;
  }

  // A detached old root must be reclaimed already, or carry a tree clear of every live page.
  method CheckDetached(pages: seq<Page>, free: seq<nat>, root: nat, live: array<bool>, ghost roots: seq<nat>)
    returns (ok: bool)
    requires live.Length == |pages| <= INVALID_PAGE_NUM
    requires forall p :: 0 <= p < |pages| ==> (live[p] <==> Live(pages, roots, p))
    ensures ok <==> OldRootIsSafe(root, Image(pages, free), roots)
  {
    if root == INVALID_PAGE_NUM || root >= live.Length || live[root] {
      return false;
    }
    if (root != 0 && root in free) || (root == 0 && Retired(pages[0])) {
      return true;
    }
    var detached := new bool[|pages|](_ => false);
    assert Taken(detached[..]) == {};
    ok := CollectTreePages(pages, free, root, detached);
    if !ok {
      return;
    }
    ghost var t :| IsLiveTree(pages, free, {}, root, t);
    OneLiveTree(pages, free, {}, root, t);
    assert Taken(detached[..]) == NodePages(t);
    ok := AreDisjoint(detached, live);
    forall p ensures p in NodePages(t) <==> 0 <= p < |pages| && detached[p] {
      assert p in Taken(detached[..]) <==> p in NodePages(t);
    }
  }

  method ClaimsAreDisjointFromLive(m: Manifest, live: array<bool>, ghost roots: seq<nat>, ghost image: Image)
    returns (ok: bool)
    requires live.Length == |image.pages|
    requires forall p :: 0 <= p < |image.pages| ==> (live[p] <==> Live(image.pages, roots, p))
    ensures ok <==> ClaimsAreSafe(m.claims, image, roots)
  {
    for i := 0 to |m.claims|
      invariant forall k :: 0 <= k < i ==> m.claims[k] < live.Length && !live[m.claims[k]]
    {
      if m.claims[i] >= live.Length || live[m.claims[i]] {
        assert m.claims[i] in m.claims;
        return false;
      }
    }
    return true;
  }

  // The gate run before any reclaim.
  method CheckPagesAreSafe(m: Manifest, pager: Pager, catalog: seq<Entry>) returns (safe: bool)
    requires pager.Valid()
    ensures safe <==> PagesAreSafe(m, pager.Now(), catalog)
  {
    var pages, free := pager.pages, pager.free;
    var entry := FindEntry(catalog, |pages|, m.tableId);
    if entry.None? {
      return false;
    }
    var valid := CheckValid(m);
    var action := Classify(m, entry.value.root, entry.value.generation);
    if !valid || action == Invalid {
      return false;
    }
    var roots := Roots(catalog);
    var live := new bool[|pages|](_ => false);
    safe := BuildLiveMap(pages, free, roots, live);
    if !safe {
      return;
    }
    if action == ReclaimStaging {
      safe := ClaimsAreDisjointFromLive(m, live, roots, Image(pages, free));
      return;
    }
    safe := CheckDetached(pages, free, m.oldRoot, live, roots);
  }

  // The directory entry of the manifest: the names it had since the directory
  // was last synced.  The last one is visible; a crash may leave any of them.
  class Directory {
    var names: seq<Option<Manifest>>

    ghost predicate Valid()
      reads this
    {
      names != []
    }

    constructor (name: Option<Manifest>)
      ensures Valid() && names == [name]
    {
      names := [name];
    }

    method Replace(name: Option<Manifest>)
      requires Valid()
      modifies this
      ensures Valid() && names == old(names) + [name]
    {
      names := names + [name];
    }

    method SyncParent()
      requires Valid()
      modifies this
      ensures Valid() && names == [old(names[|names| - 1])]
    {
      names := [names[|names| - 1]];
    }
  }

  // Steps that may fail, and the pins met while reclaiming.
  datatype Faults = Faults(pins: Pins, removeFails: bool, syncFails: bool)

  datatype Result = Result(action: Action, root: nat, generation: nat)

  const NO_RESULT: Result := Result(Invalid, 0, 0)

  // The reclaim action of a recovery turned `before` into `after`.
  ghost predicate Reclaimed(m: Manifest, action: Action, before: Image, after: Image) {
    match action
    case Invalid => false
    case ReclaimStaging =>
      && after.pages == before.pages
      && Elements(after.free) == Elements(before.free) + Elements(m.claims)
      && FreeListOk(after)
    case KeepNewReclaimOld => TreeReclaimed(before, after, m.oldRoot)
  }

  // The reclaim of `action` would find sound inputs.
  ghost predicate CanReclaim(m: Manifest, action: Action, image: Image) {
    && FreeListOk(image)
    && match action
       case Invalid => false
       case ReclaimStaging => forall c :: c in m.claims ==> c < |image.pages|
       case KeepNewReclaimOld => AlreadyReclaimed(image, m.oldRoot) || HasOldTree(image.pages, image.free, m.oldRoot)
  }

  // How far a recovery attempt got, and what it left behind: either nothing
  // happened, or the reclaim is durable and the manifest still there, removed,
  // or removed for good.
  ghost predicate AttemptOutcome(m: Manifest, catalog: seq<Entry>, before: Image, names: seq<Option<Manifest>>,
                                 after: Image, names': seq<Option<Manifest>>, ok: bool) {
    && (if ok then names' == [None] else names' in {names, names + [None]})
    && (Reclaimed(m, ActionFor(m, catalog, |before.pages|), before, after)
        || (after == before && names' == names && !ok))
  }

  class Adapter {
    const pager: Pager
    const directory: Directory
    var reclaimWasCheckpointed: bool

    constructor (pager: Pager, directory: Directory)
      ensures this.pager == pager && this.directory == directory && !reclaimWasCheckpointed
    {
      this.pager, this.directory := pager, directory;
      reclaimWasCheckpointed := false;
    }

    method Reclaim(m: Manifest, action: Action, pins: Pins) returns (ok: bool)
      requires pager.Valid() && pager.inTransaction && IsValid(m) && action != Invalid
      modifies pager`pages, pager`free, pager`dirty
      ensures pager.Valid()
      ensures ok ==> Reclaimed(m, action, old(pager.Now()), pager.Now())
      ensures pins == NO_PINS && CanReclaim(m, action, old(pager.Now())) ==> ok
    {
      if action == ReclaimStaging {
        ghost var before := pager.Now();
        var claims: seq<nat> := m.claims;
        ok := ReclaimClaims(pager, claims, pins);
        if ok {
          ReclaimedSet(before, claims, pins.raced);
        }
      } else {
        ok := TreeReclaim(pager, m.oldRoot, pins);
      }
    }

    method SyncReclaim() returns (ok: bool)
      requires pager.Valid()
      modifies this, pager
      ensures pager.Valid()
      ensures ok <==> old(pager.inTransaction && !reclaimWasCheckpointed)
      ensures ok ==> reclaimWasCheckpointed && !pager.inTransaction
                     && pager.Now() == pager.disk == old(pager.Now())
      ensures !ok ==> unchanged(this) && unchanged(pager)
    {
      if !pager.inTransaction || reclaimWasCheckpointed {
        return false;
      }
      pager.CommitAndCheckpoint();
      reclaimWasCheckpointed := true;
      return true;
    }

    // Removing a manifest that is already gone is a success.
    method RemoveManifest(fails: bool) returns (ok: bool)
      requires directory.Valid()
      modifies directory
      ensures directory.Valid()
      ensures ok <==> reclaimWasCheckpointed && !pager.inTransaction && !fails
      ensures directory.names == if ok then old(directory.names) + [None] else old(directory.names)
    {
      if !reclaimWasCheckpointed || pager.inTransaction || fails {
        return false;
      }
      directory.Replace(None);
      return true;
    }

    method SyncParent(fails: bool) returns (ok: bool)
      requires directory.Valid()
      modifies directory
      ensures directory.Valid()
      ensures ok <==> reclaimWasCheckpointed && !pager.inTransaction && !fails
      ensures directory.names == if ok then [old(directory.names[|directory.names| - 1])] else old(directory.names)
    {
      if !reclaimWasCheckpointed || pager.inTransaction || fails {
        return false;
      }
      directory.SyncParent();
      return true;
    }

    ghost predicate Attempted(m: Manifest, catalog: seq<Entry>, before: Image, names: seq<Option<Manifest>>, ok: bool)
      reads pager, directory
    {
      && !pager.inTransaction && pager.disk == pager.Now()
      && AttemptOutcome(m, catalog, before, names, pager.Now(), directory.names, ok)
    }

    // Read the catalog, classify, reclaim, checkpoint, remove, sync: in this
    // order, and stop at the first step that fails.
    method RecoverReopen(m: Manifest, catalog: seq<Entry>, faults: Faults) returns (ok: bool, result: Result)
      requires pager.Valid() && directory.Valid() && pager.inTransaction && !reclaimWasCheckpointed
      modifies this, pager, directory
      ensures pager.Valid() && directory.Valid()
      ensures pager.inTransaction ==>
        && !ok && directory.names == old(directory.names)
        && pager.saved == old(pager.saved) && pager.disk == old(pager.disk)
      ensures !pager.inTransaction ==> Attempted(m, catalog, old(pager.Now()), old(directory.names), ok)
      ensures !pager.inTransaction ==>
        Reclaimed(m, ActionFor(m, catalog, |old(pager.pages)|), old(pager.Now()), pager.Now())
      ensures ok ==>
        var entry := Authoritative(catalog, |old(pager.pages)|, m.tableId);
        var action := ActionFor(m, catalog, |old(pager.pages)|);
        entry.Some? && action != Invalid && result == Result(action, entry.value.root, entry.value.generation)
      ensures !ok ==> result == NO_RESULT
      ensures
        (faults == Faults(NO_PINS, false, false)
         && CanReclaim(m, ActionFor(m, catalog, |old(pager.pages)|), old(pager.Now()))) ==> ok
    {
      result := NO_RESULT;
      ok := CheckValid(m);
      if !ok {
        return;
      }
      var entry := FindEntry(catalog, |pager.pages|, m.tableId);
      if entry.None? {
        return false, result;
      }
      var action := Classify(m, entry.value.root, entry.value.generation);
      if action == Invalid {
        return false, result;
      }
      ok := Reclaim(m, action, faults.pins);
      if !ok {
        return;
      }
      ok := SyncReclaim();
      ok := RemoveManifest(faults.removeFails);
      if !ok {
        return;
      }
      ok := SyncParent(faults.syncFails);
      if !ok {
        return;
      }
      result := Result(action, entry.value.root, entry.value.generation);
    }

    // One attempt inside a fresh transaction; whatever was not checkpointed is rolled back.
    method PagerRecoverReopen(m: Manifest, catalog: seq<Entry>, faults: Faults) returns (ok: bool, result: Result)
      requires pager.Valid() && directory.Valid()
      modifies this, pager, directory
      ensures pager.Valid() && directory.Valid()
      ensures old(pager.inTransaction) ==> !ok && unchanged(pager) && unchanged(directory)
      ensures !old(pager.inTransaction) ==> Attempted(m, catalog, old(pager.Now()), old(directory.names), ok)
      ensures ok ==> Invalid != result.action == ActionFor(m, catalog, |old(pager.pages)|)
      ensures !ok ==> result == NO_RESULT
      ensures (!old(pager.inTransaction) && faults == Faults(NO_PINS, false, false)
               && CanReclaim(m, ActionFor(m, catalog, |old(pager.pages)|), old(pager.Now()))) ==> ok
    {
      if pager.inTransaction {
        return false, NO_RESULT;
      }
      reclaimWasCheckpointed := false;
      pager.Begin();
      ok, result := RecoverReopen(m, catalog, faults);
      if !ok && pager.inTransaction {
        pager.Rollback();
      }
    }
  }
}
