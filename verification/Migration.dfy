/** The migration protocol as a step machine with crashes.  A state is what a
    crash would leave (the checkpointed image, the catalog, the possible names
    of the manifest) plus where the running process stands.  Claiming and
    writing the staged pages, publishing the catalog and each checkpoint are
    atomic durable steps; renaming or removing the manifest is durable only
    after a directory sync. */
module Migration {
  import opened Pages
  import opened Trees
  import opened OldTree
  import opened LiveGuard
  import opened Manifest
  import opened Pager
  import opened PagerReclaim
  import opened OwnershipCollect
  import opened Recovery
  import opened Safety

  // Where the process stands; a step that reports failure leaves it Open, and
  // the names the directory may have are still those of before.  Closed is every state before a successful open.
  datatype Stand =
    | Open
    | Staged(m: Manifest) | Renamed(m: Manifest) | Announced(m: Manifest)
    | Published(m: Manifest) | MarkRenamed(m: Manifest) | Marked(m: Manifest)
    | Closed
    | Checked(m: Manifest) | ReclaimDone(m: Manifest) | Removed(m: Manifest)

  datatype State = State(image: Image, catalog: seq<Entry>, names: seq<Option<Manifest>>, at: Stand)

  datatype Event =
    | Stage(m: Manifest, image: Image)
    | Rename | Sync | Publish | Mark
    | Crash(survivor: nat)
    | OpenWithoutManifest | Preflight | Reclaim(image: Image) | Remove | Fail
    | GiveUp
    | Work(image: Image, catalog: seq<Entry>)

  function Visible(s: State): Option<Manifest>
    requires s.names != []
  {
    s.names[|s.names| - 1]
  }

  // The staged tree was written to claimed pages only: pages taken from the
  // free list or appended to the file, and nothing else was dirty.
  ghost predicate StagedImage(before: Image, after: Image, claims: seq<u32>, root: nat) {
    && |before.pages| <= |after.pages|
    && FreeListOk(after)
    && Elements(after.free) == Elements(before.free) - Elements(claims)
    && (forall c :: c in claims ==> c in before.free || c >= |before.pages|)
    && (forall p :: |before.pages| <= p < |after.pages| ==> p in claims)
    && (forall p :: 0 <= p < |before.pages| && p !in claims ==> after.pages[p] == before.pages[p])
    && exists t :: IsLiveTree(after.pages, after.free, {}, root, t) && NodePages(t) == Elements(claims)
  }

  // Root and generation of one table replaced together.
  function Replace(catalog: seq<Entry>, m: Manifest): (c: seq<Entry>)
    ensures |c| == |catalog|
  {
    seq(|catalog|, i requires 0 <= i < |catalog| =>
      if catalog[i].tableId == m.tableId then Entry(m.tableId, m.stagedRoot, m.newGeneration) else catalog[i])
  }

  ghost predicate DescribesCatalog(m: Manifest, s: State) {
    && IsValid(m) && m.phase == DURABLE_UNPUBLISHED
    && m.newGeneration == m.oldGeneration + 1
    && Authoritative(s.catalog, |s.image.pages|, m.tableId) == Some(Entry(m.tableId, m.oldRoot, m.oldGeneration))
  }

  ghost predicate SoundCatalog(image: Image, catalog: seq<Entry>) {
    && CatalogOk(catalog, |image.pages|)
    && FreeListOk(image)
    && CatalogIntact(image.pages, image.free, Roots(catalog))
  }

  ghost predicate Next(s: State, e: Event, s': State) {
    match e
    case Stage(m, image) =>
      && s.at == Open && DescribesCatalog(m, s) && StagedImage(s.image, image, m.claims, m.stagedRoot)
      && s' == s.(image := image, at := Staged(m))
    case Rename =>
      && s.at.Staged?
      && s' == s.(names := s.names + [Some(s.at.m)], at := Renamed(s.at.m))
    case Sync =>
      && s.names != []
      && s' == s.(names := [Visible(s)], at := s'.at)
      && (match s.at
          case Renamed(m) => s'.at == Announced(m)
          case MarkRenamed(m) => s'.at == Marked(m)
          case Removed(m) => s'.at == Open
          case _ => false)
    case Publish =>
      && s.at.Announced?
      && s' == s.(catalog := Replace(s.catalog, s.at.m), at := Published(s.at.m))
    case Mark =>
      && s.at.Published?
      && s' == s.(names := s.names + [Some(s.at.m.(phase := CATALOG_PUBLISHED))], at := MarkRenamed(s.at.m))
    case Crash(survivor) =>
      && survivor < |s.names|
      && s' == s.(names := [s.names[survivor]], at := Closed)
    case OpenWithoutManifest =>
      && s.at == Closed && s.names != [] && Visible(s) == None
      && s' == s.(at := Open)
    case Preflight =>
      && s.at == Closed && s.names != [] && Visible(s).Some?
      && PagesAreSafe(Visible(s).value, s.image, s.catalog)
      && s' == s.(at := Checked(Visible(s).value))
    case Reclaim(image) =>
      && s.at.Checked?
      && Reclaimed(s.at.m, ActionFor(s.at.m, s.catalog, |s.image.pages|), s.image, image)
      && s' == s.(image := image, at := ReclaimDone(s.at.m))
    case Remove =>
      && s.at.ReclaimDone?
      && s' == s.(names := s.names + [None], at := Removed(s.at.m))
    case Fail =>
      && (s.at.Checked? || s.at.ReclaimDone? || s.at.Removed?)
      && s' == s.(at := Closed)
    case GiveUp =>
      && (s.at.Staged? || s.at.Renamed? || s.at.Announced? || s.at.Published? || s.at.MarkRenamed?)
      && s' == s.(at := Open)
    case Work(image, catalog) =>
      && (s.at == Open || s.at.Published? || s.at.MarkRenamed? || s.at.Marked?
          || s.at.Staged? || s.at.Renamed? || s.at.Announced?)
      && SoundCatalog(image, catalog)
      && s' == s.(image := image, catalog := catalog)
      && (s.at.Staged? || s.at.Renamed? || s.at.Announced? ==> StagedReady(s', s.at.m))
  }

  // A staged tree waits, complete, allocated and out of reach of the catalog.
  ghost predicate StagedReady(s: State, m: Manifest) {
    && DescribesCatalog(m, s)
    && exists t :: IsLiveTree(s.image.pages, s.image.free, {}, m.stagedRoot, t)
         && forall p :: p in NodePages(t) ==> !Live(s.image.pages, Roots(s.catalog), p)
  }

  ghost predicate Inv(s: State) {
    && s.names != []
    && SoundCatalog(s.image, s.catalog)
    && (s.at.Staged? || s.at.Renamed? || s.at.Announced? ==> StagedReady(s, s.at.m))
    && (s.at.Checked? ==> PagesAreSafe(s.at.m, s.image, s.catalog))
  }

  ghost predicate SparesLivePages(s: State, s': State) {
    forall p: nat :: Live(s.image.pages, Roots(s.catalog), p) ==>
      && p < |s.image.pages| && p < |s'.image.pages|
      && s'.image.pages[p] == s.image.pages[p]
      && p !in s'.image.free
  }

  lemma StageIsSafe(s: State, e: Event, s': State)
    requires Inv(s) && e.Stage? && Next(s, e, s')
    ensures Inv(s') && SparesLivePages(s, s')
  {
    var roots := Roots(s.catalog);
    forall p: nat | Live(s.image.pages, roots, p)
      ensures p < |s.image.pages| && s'.image.pages[p] == s.image.pages[p] && p !in s'.image.free && p !in e.m.claims
    {
      LiveIsAllocated(s.image.pages, s.image.free, roots, p);
      assert p in s'.image.free <==> p in Elements(s'.image.free);
      assert p in s.image.free <==> p in Elements(s.image.free);
    }
    var ts :| LiveTrees(s.image.pages, s.image.free, roots, ts);
    CatalogFrame(s.image.pages, s.image.free, s'.image.pages, s'.image.free, roots, ts);
    var t :| IsLiveTree(s'.image.pages, s'.image.free, {}, e.m.stagedRoot, t) && NodePages(t) == Elements(e.m.claims);
    forall p | p in NodePages(t) ensures !Live(s'.image.pages, roots, p) {
      assert p in Elements(e.m.claims);
    }
  }

  // Trees of different catalog entries share no page.
  lemma TreesDisjoint(pages: seq<Page>, free: seq<nat>, roots: seq<nat>, ts: seq<Tree>, i: nat, j: nat)
    requires LiveTrees(pages, free, roots, ts) && i < j < |ts|
    ensures NodePages(ts[i]) !! NodePages(ts[j])
  {
    assert LiveAt(pages, free, roots, ts, j);
    TreePagesInRange(pages, free, PagesOf(ts, j), roots[j], ts[j]);
    forall p | p in NodePages(ts[i]) ensures p !in NodePages(ts[j]) {
      PagesOfIn(ts, j, p);
    }
  }

  // Swapping one tree for one that meets no live page keeps the others.
  lemma ReplaceTree(pages: seq<Page>, free: seq<nat>, roots: seq<nat>, ts: seq<Tree>, i: nat, root: nat, t: Tree)
    requires LiveTrees(pages, free, roots, ts) && i < |ts|
    requires IsLiveTree(pages, free, {}, root, t)
    requires forall p :: p in NodePages(t) ==> !Live(pages, roots, p)
    ensures LiveTrees(pages, free, roots[i := root], ts[i := t])
    ensures forall p :: p in NodePages(ts[i]) ==> !Live(pages, roots[i := root], p)
  {
    var us := ts[i := t];
    forall a, p | 0 <= a < |ts| && p in NodePages(ts[a]) ensures p !in NodePages(t) {
      PagesOfIn(ts, |ts|, p);
      TreesAreLive(pages, free, roots, ts, p);
    }
    var swapped := roots[i := root];
    forall j | 0 <= j < |us| ensures LiveAt(pages, free, swapped, us, j) {
      assert LiveAt(pages, free, roots, ts, j);
      forall p | p in PagesOf(us, j) ensures p !in NodePages(us[j]) {
        PagesOfIn(us, j, p);
        var k :| 0 <= k < j && p in NodePages(us[k]);
        if k != i && j != i {
          TreesDisjoint(pages, free, roots, ts, k, j);
        }
      }
      if j == i {
        LiveTreeTaken(pages, free, {}, PagesOf(us, j), root, t);
      } else {
        LiveTreeTaken(pages, free, PagesOf(ts, j), PagesOf(us, j), roots[j], ts[j]);
      }
    }
    forall p | p in NodePages(ts[i]) ensures !Live(pages, roots[i := root], p) {
      TreesAreLive(pages, free, roots[i := root], us, p);
      PagesOfIn(us, |us|, p);
      if k :| 0 <= k < |us| && p in NodePages(us[k]) {
        assert k != i;
        TreesDisjoint(pages, free, roots, ts, if k < i then k else i, if k < i then i else k);
      }
    }
  }

  lemma {:induction false} LookupIndex(catalog: seq<Entry>, tableId: nat) returns (i: nat)
    requires Lookup(catalog, tableId).Some?
    ensures i < |catalog| && catalog[i] == Lookup(catalog, tableId).value && catalog[i].tableId == tableId
  {
    if catalog[0].tableId == tableId {
      i := 0;
    } else {
      i := LookupIndex(catalog[1..], tableId);
      i := i + 1;
    }
  }

  lemma {:induction false} LookupAt(catalog: seq<Entry>, n: nat, i: nat)
    requires CatalogOk(catalog, n) && i < |catalog|
    ensures Lookup(catalog, catalog[i].tableId) == Some(catalog[i])
  {
    var j := LookupFound(catalog, i);
  }

  lemma {:induction false} LookupFound(catalog: seq<Entry>, i: nat) returns (j: nat)
    requires i < |catalog|
    ensures j <= i && catalog[j].tableId == catalog[i].tableId
    ensures Lookup(catalog, catalog[i].tableId) == Some(catalog[j])
  {
    if catalog[0].tableId == catalog[i].tableId {
      j := 0;
    } else {
      j := LookupFound(catalog[1..], i - 1);
      j := j + 1;
    }
  }

  // Publication changes one entry.
  lemma ReplaceEntry(catalog: seq<Entry>, n: nat, m: Manifest) returns (i: nat)
    requires Authoritative(catalog, n, m.tableId).Some? && m.stagedRoot < n && m.newGeneration != 0
    ensures i < |catalog| && catalog[i] == Authoritative(catalog, n, m.tableId).value
    ensures CatalogOk(Replace(catalog, m), n)
    ensures Authoritative(Replace(catalog, m), n, m.tableId) == Some(Entry(m.tableId, m.stagedRoot, m.newGeneration))
    ensures Roots(Replace(catalog, m)) == Roots(catalog)[i := m.stagedRoot]
  {
    i := LookupIndex(catalog, m.tableId);
    var catalog' := Replace(catalog, m);
    forall k | 0 <= k < |catalog|
      ensures catalog'[k] == if k == i then Entry(m.tableId, m.stagedRoot, m.newGeneration) else catalog[k]
    {
      assert k < i ==> catalog[k].tableId != catalog[i].tableId;
      assert i < k ==> catalog[i].tableId != catalog[k].tableId;
    }
    LookupAt(catalog', n, i);
  }

  // Publication keeps every tree and detaches the old one.
  lemma PublishedCatalog(s: State, m: Manifest)
    requires SoundCatalog(s.image, s.catalog) && StagedReady(s, m)
    ensures SoundCatalog(s.image, Replace(s.catalog, m))
    ensures Authoritative(Replace(s.catalog, m), |s.image.pages|, m.tableId)
         == Some(Entry(m.tableId, m.stagedRoot, m.newGeneration))
    ensures forall t :: IsOldTree(s.image.pages, s.image.free, m.oldRoot, t) ==>
      forall p :: p in NodePages(t) ==> !Live(s.image.pages, Roots(Replace(s.catalog, m)), p)
    ensures !Live(s.image.pages, Roots(Replace(s.catalog, m)), m.oldRoot)
  {
    var pages, free, roots := s.image.pages, s.image.free, Roots(s.catalog);
    var staged :| IsLiveTree(pages, free, {}, m.stagedRoot, staged)
      && forall p :: p in NodePages(staged) ==> !Live(pages, roots, p);
    assert staged in Subtrees(staged) && LiveNodeOk(pages, free, {}, m.stagedRoot, staged);
    var i := ReplaceEntry(s.catalog, |pages|, m);
    var ts :| LiveTrees(pages, free, roots, ts);
    ReplaceTree(pages, free, roots, ts, i, m.stagedRoot, staged);
    assert LiveAt(pages, free, roots, ts, i);
    assert ts[i] in Subtrees(ts[i]);
    assert m.oldRoot in NodePages(ts[i]);
    forall t | IsOldTree(pages, free, m.oldRoot, t) ensures t == ts[i] {
      WalkersAgree(pages, free, PagesOf(ts, i), m.oldRoot, t, ts[i]);
    }
  }

  // One step keeps the invariant, and unless it is ordinary work on the open
  // database it neither frees nor overwrites a page a catalog root can reach.
  lemma StepIsSafe(s: State, e: Event, s': State)
    requires Inv(s) && Next(s, e, s')
    ensures Inv(s')
    ensures !e.Work? ==> SparesLivePages(s, s')
  {
    if e.Stage? {
      StageIsSafe(s, e, s');
    } else if e.Reclaim? {
      SafeReclaim(s.at.m, s.catalog, s.image, s'.image);
    } else if e.Work? {
    } else {
      if e.Publish? {
        PublishedCatalog(s, s.at.m);
      }
      forall p: nat | Live(s.image.pages, Roots(s.catalog), p) ensures p < |s.image.pages| && p !in s.image.free {
        LiveIsAllocated(s.image.pages, s.image.free, Roots(s.catalog), p);
      }
    }
  }

  ghost predicate IsRun(states: seq<State>, events: seq<Event>) {
    && |states| == |events| + 1
    && Inv(states[0])
    && forall i :: 0 <= i < |events| ==> Next(states[i], events[i], states[i + 1])
  }

  // Crash safety: in every run, with crashes after any step and any surviving
  // manifest name, the catalog trees stay intact, and no step of the migration
  // or of its recovery frees or overwrites a live page.
  lemma {:induction false} RunIsSafe(states: seq<State>, events: seq<Event>, i: nat)
    requires IsRun(states, events) && i < |states|
    ensures Inv(states[i])
    ensures i < |events| && !events[i].Work? ==> SparesLivePages(states[i], states[i + 1])
  {
    if i > 0 {
      RunIsSafe(states, events, i - 1);
      assert Next(states[i - 1], events[i - 1], states[i]);
      StepIsSafe(states[i - 1], events[i - 1], states[i]);
    }
    if i < |events| {
      StepIsSafe(states[i], events[i], states[i + 1]);
    }
  }
}
