/** Manifests that outlive their migration (src/compact_v2_migration_recovery.h:140-174,
    src/compact_v2_migration_full_page_preflight.h:21-95).  An unsynced removal can be
    undone by a crash after the freed pages were used again.  Exactly when such a
    manifest still passes the preflight, and a run after which it never does. */
module StaleManifests {
  import opened Pages
  import opened Trees
  import opened OldTree
  import opened LiveGuard
  import opened Manifest
  import opened Pager
  import opened PagerReclaim
  import opened Recovery
  import opened Safety
  import opened Migration
  import opened Convergence

  // In use, but out of reach.
  ghost predicate Idle(s: State, p: nat) {
    p < |s.image.pages| && p !in s.image.free && OutOfReach(s, p)
  }

  // Ordinary work: it takes pages from the free list or from the end of the file and
  // loses none, so it neither touches idle pages nor makes any.
  ghost predicate Tidy(s: State, s': State) {
    && |s.image.pages| <= |s'.image.pages|
    && (forall p: nat :: Idle(s', p) ==> Idle(s, p))
    && (forall p: nat :: Idle(s, p) ==> Idle(s', p) && s'.image.pages[p] == s.image.pages[p])
  }

  ghost predicate Started(j: Job) {
    && Inv(j.start) && j.start.at == Open && j.start.names == [None]
    && DescribesCatalog(j.m, j.start)
    && StagedImage(j.start.image, j.staged, j.m.claims, j.m.stagedRoot)
  }

  // A step of a migration among any tidy work.
  ghost predicate LooseStep(j: Job, s: State, e: Event, s': State) {
    && Next(s, e, s')
    && (e.Work? ==> Tidy(s, s'))
    && (e.Stage? ==> s == j.start && e == Stage(j.m, j.staged))
  }

  ghost predicate LooseStepAt(j: Job, states: seq<State>, events: seq<Event>, i: nat) {
    i < |events| && i + 1 < |states| && LooseStep(j, states[i], events[i], states[i + 1])
  }

  ghost predicate IsLooseRun(j: Job, states: seq<State>, events: seq<Event>) {
    && |states| == |events| + 1
    && states[0] == j.start
    && forall i :: 0 <= i < |events| ==> LooseStepAt(j, states, events, i)
  }

  // The manifests a process can be busy with.
  predicate BusyWith(m: Manifest, at: Stand, published: bool) {
    match at
    case Open | Closed => true
    case Staged(x) => !published && x == m
    case Renamed(x) => !published && x == m
    case Announced(x) => !published && x == m
    case Published(x) => published && x == m
    case MarkRenamed(x) => published && x == m
    case Marked(x) => published && x == m
    case Checked(x) => x == m || (published && x == m.(phase := CATALOG_PUBLISHED))
    case ReclaimDone(x) => x == m || (published && x == m.(phase := CATALOG_PUBLISHED))
    case Removed(x) => x == m || (published && x == m.(phase := CATALOG_PUBLISHED))
  }

  predicate Known(m: Manifest, at: Stand) {
    BusyWith(m, at, false) || BusyWith(m, at, true)
  }

  // Staging has happened, as far as the manifest's names and the process tell.
  predicate InPlay(s: State) {
    (exists n :: n in s.names && n != None) || !(s.at == Open || s.at == Closed)
  }

  // Unless it was adopted again, the old root is free, retired or still a tree of its own.
  ghost predicate OldRootSettled(j: Job, s: State) {
    && j.m.oldRoot < |s.image.pages|
    && (OutOfReach(s, j.m.oldRoot) ==>
          AlreadyReclaimed(s.image, j.m.oldRoot) || DetachedTree(s.image, Roots(s.catalog), j.m.oldRoot))
  }

  ghost predicate ClaimsInFile(j: Job, image: Image) {
    forall c :: c in j.m.claims ==> c < |image.pages|
  }

  // What every loose run keeps.
  ghost predicate Loose(j: Job, s: State) {
    && NamesOf(j.m, s.names, true) && Known(j.m, s.at)
    && OldRootSettled(j, s)
    && (InPlay(s) ==> ClaimsInFile(j, s.image))
  }

  // Steps that change neither pages nor catalog bring no new manifest into play.
  lemma LooseQuiet(m: Manifest, s: State, e: Event, s': State)
    requires Next(s, e, s') && Quiet(e) && NamesOf(m, s.names, true) && Known(m, s.at)
    ensures s'.image == s.image && s'.catalog == s.catalog
    ensures NamesOf(m, s'.names, true) && Known(m, s'.at)
    ensures InPlay(s') ==> InPlay(s)
  {
    assert Visible(s) in s.names;
    if e.Crash? {
      assert s.names[e.survivor] in s.names;
    }
  }

  lemma StagedClaims(j: Job)
    requires Started(j)
    ensures ClaimsInFile(j, j.staged)
  {
    var t :| IsLiveTree(j.staged.pages, j.staged.free, {}, j.m.stagedRoot, t) && NodePages(t) == Elements(j.m.claims);
    TreePagesInRange(j.staged.pages, j.staged.free, {}, j.m.stagedRoot, t);
    forall c | c in j.m.claims ensures c < |j.staged.pages| {
      assert c in Elements(j.m.claims);
    }
  }

  // Publication leaves the old tree, whatever has become of it, detached.
  lemma DetachedByPublication(s: State, m: Manifest)
    requires SoundCatalog(s.image, s.catalog) && StagedReady(s, m)
    ensures m.oldRoot < |s.image.pages| && DetachedTree(s.image, Roots(Replace(s.catalog, m)), m.oldRoot)
  {
    var pages, free, roots := s.image.pages, s.image.free, Roots(s.catalog);
    var staged :| IsLiveTree(pages, free, {}, m.stagedRoot, staged)
      && forall p :: p in NodePages(staged) ==> !Live(pages, roots, p);
    assert staged in Subtrees(staged) && LiveNodeOk(pages, free, {}, m.stagedRoot, staged);
    var i := ReplaceEntry(s.catalog, |pages|, m);
    var ts :| LiveTrees(pages, free, roots, ts);
    ReplaceTree(pages, free, roots, ts, i, m.stagedRoot, staged);
    assert LiveAt(pages, free, roots, ts, i);
    assert ts[i] in Subtrees(ts[i]);
    TreePagesInRange(pages, free, PagesOf(ts, i), roots[i], ts[i]);
    assert m.oldRoot in NodePages(ts[i]);
    LiveTreeTaken(pages, free, PagesOf(ts, i), {}, m.oldRoot, ts[i]);
  }

  lemma ReclaimedRoot(before: Image, after: Image, root: nat)
    requires TreeReclaimed(before, after, root)
    ensures AlreadyReclaimed(after, root) && |after.pages| == |before.pages|
  {
    if !AlreadyReclaimed(before, root) {
      var t :| IsOldTree(before.pages, before.free, root, t)
        && Elements(after.free) == Elements(before.free) + (NodePages(t) - {0});
      assert t in Subtrees(t);
      assert root != 0 ==> root in Elements(after.free);
    }
  }

  // Tidy work keeps the old root settled.
  lemma TidySettles(j: Job, s: State, s': State)
    requires Inv(s) && Inv(s') && Tidy(s, s') && OldRootSettled(j, s)
    ensures OldRootSettled(j, s')
  {
    var r := j.m.oldRoot;
    if OutOfReach(s', r) && !AlreadyReclaimed(s'.image, r) {
      assert 0 !in s'.image.free && 0 !in s.image.free;
      assert Idle(s', r) && Idle(s, r);
      var t :| IsLiveTree(s.image.pages, s.image.free, {}, r, t)
        && forall p :: p in NodePages(t) ==> !Live(s.image.pages, Roots(s.catalog), p);
      TreePagesInRange(s.image.pages, s.image.free, {}, r, t);
      forall p | p in NodePages(t)
        ensures p < |s.image.pages| && s'.image.pages[p] == s.image.pages[p] && p !in s'.image.free && OutOfReach(s', p)
      {
        assert Idle(s, p);
        assert Idle(s', p);
      }
      LiveTreeFrame(s.image.pages, s.image.free, s'.image.pages, s'.image.free, {}, r, t);
    }
  }

  lemma LooseReclaim(j: Job, s: State, e: Event, s': State)
    requires Loose(j, s) && Inv(s) && Next(s, e, s') && e.Reclaim?
    ensures Loose(j, s')
  {
    SafeReclaim(s.at.m, s.catalog, s.image, s'.image);
    ReclaimSettles(j, s, e, s');
  }

  // Reclaiming staged pages spares the old root, which is in use; reclaiming the old
  // tree retires it.
  lemma ReclaimSettles(j: Job, s: State, e: Event, s': State)
    requires Next(s, e, s') && e.Reclaim? && Known(j.m, s.at) && OldRootSettled(j, s)
    requires |s'.image.pages| == |s.image.pages|
    ensures OldRootSettled(j, s')
  {
    var action := ActionFor(s.at.m, s.catalog, |s.image.pages|);
    if action == ReclaimStaging {
      EntryIsLive(s', j.m.tableId, j.m.oldRoot);
    } else {
      ReclaimedRoot(s.image, s'.image, j.m.oldRoot);
    }
  }

  lemma EntryIsLive(s: State, tableId: nat, root: nat)
    requires var e := Authoritative(s.catalog, |s.image.pages|, tableId); e.Some? && e.value.root == root
    ensures !OutOfReach(s, root) && root < |s.image.pages|
  {
    var i := LookupIndex(s.catalog, tableId);
    assert Reaches(s.image.pages, Roots(s.catalog)[i], root, 0);
  }

  lemma LoosePublish(j: Job, s: State, e: Event, s': State)
    requires Loose(j, s) && Inv(s) && Next(s, e, s') && e.Publish?
    ensures Loose(j, s')
  {
    DetachedByPublication(s, j.m);
  }

  lemma LooseStage(j: Job, s: State, e: Event, s': State)
    requires Started(j) && LooseStep(j, s, e, s') && e.Stage? && Inv(s')
    ensures Loose(j, s')
  {
    StagedClaims(j);
    EntryIsLive(s', j.m.tableId, j.m.oldRoot);
  }

  lemma LooseWork(j: Job, s: State, e: Event, s': State)
    requires Loose(j, s) && Inv(s) && Inv(s') && LooseStep(j, s, e, s') && e.Work?
    ensures Loose(j, s')
  {
    WorkStays(s, e, s');
    TidySettles(j, s, s');
  }

  lemma StepStaysLoose(j: Job, s: State, e: Event, s': State)
    requires Started(j) && Loose(j, s) && Inv(s) && LooseStep(j, s, e, s')
    ensures Loose(j, s') && Inv(s')
  {
    StepIsSafe(s, e, s');
    if e.Stage? {
      LooseStage(j, s, e, s');
    } else if e.Publish? {
      LoosePublish(j, s, e, s');
    } else if e.Reclaim? {
      LooseReclaim(j, s, e, s');
    } else if e.Work? {
      LooseWork(j, s, e, s');
    } else {
      LooseQuiet(j.m, s, e, s');
    }
  }

  lemma LooseRunStep(j: Job, states: seq<State>, events: seq<Event>, i: nat)
    requires IsLooseRun(j, states, events) && 0 < i < |states|
    ensures LooseStep(j, states[i - 1], events[i - 1], states[i])
  {
    assert LooseStepAt(j, states, events, i - 1);
  }

  lemma {:induction false} RunStaysLoose(j: Job, states: seq<State>, events: seq<Event>, i: nat)
    requires Started(j) && IsLooseRun(j, states, events) && i < |states|
    ensures Loose(j, states[i]) && Inv(states[i])
  {
    if i > 0 {
      RunStaysLoose(j, states, events, i - 1);
      LooseRunStep(j, states, events, i);
      StepStaysLoose(j, states[i - 1], events[i - 1], states[i]);
    } else {
      StartIsLoose(j);
    }
  }

  lemma StartIsLoose(j: Job)
    requires Started(j)
    ensures Loose(j, j.start)
  {
    EntryIsLive(j.start, j.m.tableId, j.m.oldRoot);
  }

  // The pages an action concerns: the claims, or the root of the old tree.
  ghost predicate Concerns(x: Manifest, action: Action, p: nat) {
    match action
    case Invalid => false
    case ReclaimStaging => p in x.claims
    case KeepNewReclaimOld => p == x.oldRoot
  }

  // In every run, whatever tidy work goes on, a visible manifest passes the preflight
  // if and only if it is classified and no page it names was adopted by a live tree.
  lemma PassesIff(j: Job, states: seq<State>, events: seq<Event>, i: nat)
    requires Started(j) && IsLooseRun(j, states, events) && i < |states|
    requires states[i].names != [] && Visible(states[i]).Some?
    ensures
      var s, x := states[i], Visible(states[i]).value;
      var action := ActionFor(x, s.catalog, |s.image.pages|);
      PagesAreSafe(x, s.image, s.catalog) <==>
        action != Invalid && forall p: nat :: Concerns(x, action, p) ==> OutOfReach(s, p)
  {
    RunStaysLoose(j, states, events, i);
    LoosePasses(j, states[i]);
  }

  lemma LoosePasses(j: Job, s: State)
    requires Loose(j, s) && Inv(s) && Visible(s).Some?
    ensures
      var x := Visible(s).value;
      var action := ActionFor(x, s.catalog, |s.image.pages|);
      PagesAreSafe(x, s.image, s.catalog) <==>
        action != Invalid && forall p: nat :: Concerns(x, action, p) ==> OutOfReach(s, p)
  {
    var x := Visible(s).value;
    assert Some(x) in s.names;
    var action := ActionFor(x, s.catalog, |s.image.pages|);
    if action == ReclaimStaging {
      assert forall c :: c in x.claims ==> Concerns(x, action, c);
    } else if action == KeepNewReclaimOld {
      assert Concerns(x, action, x.oldRoot);
    }
  }

  // Where the protocol stands, as long as only publication changes the catalog entry.
  ghost predicate Entered(j: Job, s: State) {
    || (OldEntry(j, s) && NamesOf(j.m, s.names, false) && BusyWith(j.m, s.at, false))
    || (NewEntry(j, s) && NamesOf(j.m, s.names, true) && BusyWith(j.m, s.at, true))
  }

  ghost predicate KeepsEntry(j: Job, s: State, e: Event, s': State) {
    e.Work? ==> Authoritative(s'.catalog, |s'.image.pages|, j.m.tableId)
                == Authoritative(s.catalog, |s.image.pages|, j.m.tableId)
  }

  ghost predicate KeepsEntryAt(j: Job, states: seq<State>, events: seq<Event>, i: nat) {
    i < |events| && i + 1 < |states| && KeepsEntry(j, states[i], events[i], states[i + 1])
  }

  lemma QuietEntered(m: Manifest, s: State, e: Event, s': State, published: bool)
    requires Next(s, e, s') && Quiet(e) && NamesOf(m, s.names, published) && BusyWith(m, s.at, published)
    ensures s'.image == s.image && s'.catalog == s.catalog
    ensures NamesOf(m, s'.names, published) && BusyWith(m, s'.at, published)
  {
    assert Visible(s) in s.names;
    if e.Crash? {
      assert s.names[e.survivor] in s.names;
    }
  }

  lemma PublishEnters(j: Job, s: State, e: Event, s': State)
    requires Entered(j, s) && Inv(s) && Next(s, e, s') && e.Publish?
    ensures Entered(j, s')
  {
    PublishedCatalog(s, j.m);
  }

  lemma StepStaysEntered(j: Job, s: State, e: Event, s': State)
    requires Started(j) && Entered(j, s) && Inv(s) && LooseStep(j, s, e, s') && KeepsEntry(j, s, e, s')
    ensures Entered(j, s')
  {
    if e.Publish? {
      PublishEnters(j, s, e, s');
    } else if e.Reclaim? {
      SafeReclaim(s.at.m, s.catalog, s.image, s'.image);
    } else if e.Work? {
      WorkStays(s, e, s');
    } else if Quiet(e) {
      QuietEntered(j.m, s, e, s', !(OldEntry(j, s) && NamesOf(j.m, s.names, false) && BusyWith(j.m, s.at, false)));
    }
  }

  lemma KeptRunStep(j: Job, states: seq<State>, events: seq<Event>, i: nat)
    requires 0 < i < |states| && |states| == |events| + 1 && KeepsEntryAt(j, states, events, i - 1)
    ensures KeepsEntry(j, states[i - 1], events[i - 1], states[i])
  {
  }

  lemma {:induction false} RunStaysEntered(j: Job, states: seq<State>, events: seq<Event>, i: nat)
    requires Started(j) && IsLooseRun(j, states, events) && i < |states|
    requires forall k :: 0 <= k < i ==> KeepsEntryAt(j, states, events, k)
    ensures Entered(j, states[i])
  {
    if i > 0 {
      RunStaysEntered(j, states, events, i - 1);
      RunStaysLoose(j, states, events, i - 1);
      LooseRunStep(j, states, events, i);
      KeptRunStep(j, states, events, i);
      StepStaysEntered(j, states[i - 1], events[i - 1], states[i]);
    }
  }

  // As long as work leaves the table its entry, a visible manifest is always classified.
  lemma VisibleIsClassified(j: Job, states: seq<State>, events: seq<Event>, i: nat)
    requires Started(j) && IsLooseRun(j, states, events) && i < |states|
    requires forall k :: 0 <= k < i ==> KeepsEntryAt(j, states, events, k)
    requires states[i].names != [] && Visible(states[i]).Some?
    ensures ActionFor(Visible(states[i]).value, states[i].catalog, |states[i].image.pages|) != Invalid
  {
    RunStaysEntered(j, states, events, i);
    assert Visible(states[i]) in states[i].names;
  }

  // A closed database whose only manifest name does not pass stays as it is.
  lemma StuckForGood(s: State, e: Event, s': State)
    requires s.at == Closed && |s.names| == 1 && Visible(s).Some?
    requires !PagesAreSafe(Visible(s).value, s.image, s.catalog)
    requires Next(s, e, s')
    ensures s' == s
  {
  }

  // A new table whose root is the free page `c`, taken from the front of a stretch of
  // the free list.
  function Reused(image: Image, rest: seq<nat>, c: nat): Image {
    Image(if c < |image.pages| then image.pages[c := TOMBSTONE] else image.pages, rest)
  }

  function WithTable(catalog: seq<Entry>, id: nat, c: nat): seq<Entry> {
    catalog + [Entry(id, c, 1)]
  }

  lemma {:induction false} LookupAppend(catalog: seq<Entry>, e: Entry, tableId: nat)
    requires Lookup(catalog, tableId).Some?
    ensures Lookup(catalog + [e], tableId) == Lookup(catalog, tableId)
  {
    assert (catalog + [e])[0] == catalog[0];
    if catalog[0].tableId != tableId {
      assert (catalog + [e])[1..] == catalog[1..] + [e];
      LookupAppend(catalog[1..], e, tableId);
    }
  }

  lemma {:induction false} FreshId(catalog: seq<Entry>) returns (id: nat)
    ensures id > 0 && forall i :: 0 <= i < |catalog| ==> catalog[i].tableId < id
  {
    if catalog == [] {
      id := 1;
    } else {
      id := FreshId(catalog[1..]);
      id := if catalog[0].tableId < id then id else catalog[0].tableId + 1;
      forall i | 0 <= i < |catalog| ensures catalog[i].tableId < id {
        assert i > 0 ==> catalog[i] == catalog[1..][i - 1];
      }
    }
  }

  // A page that was free becomes a live tree of one page.
  lemma ReuseIsLive(image: Image, catalog: seq<Entry>, rest: seq<nat>, c: nat, id: nat)
    requires SoundCatalog(image, catalog) && c < |image.pages| && c in image.free && c !in rest
    requires forall p :: p in rest ==> p in image.free
    ensures
      var after, roots := Reused(image, rest, c), Roots(WithTable(catalog, id, c));
      && CatalogIntact(after.pages, rest, roots)
      && forall p: nat :: Live(after.pages, roots, p) <==> Live(image.pages, Roots(catalog), p) || p == c
  {
    var after, roots, roots' := Reused(image, rest, c), Roots(catalog), Roots(WithTable(catalog, id, c));
    var ts :| LiveTrees(image.pages, image.free, roots, ts);
    forall p: nat | Live(image.pages, roots, p) ensures p < |image.pages| && p !in image.free {
      LiveIsAllocated(image.pages, image.free, roots, p);
    }
    CatalogFrame(image.pages, image.free, after.pages, rest, roots, ts);
    MoreRoots(after.pages, rest, roots, roots', ts);
    var t := Tree(c, []);
    assert Subtrees(t) == {t};
    TreesAreLive(after.pages, rest, roots, ts, c);
    assert LiveNodeOk(after.pages, rest, PagesOf(ts, |ts|), c, t);
    LiveTreesAppend(after.pages, rest, roots', ts, t, |ts|);
    var us := ts + [t];
    assert NodePages(t) == {c};
    assert LiveTrees(after.pages, rest, roots', us);
    PagesOfPrefix(us, ts, |ts|);
    forall p: nat ensures Live(after.pages, roots', p) <==> Live(image.pages, roots, p) || p == c {
      TreesAreLive(after.pages, rest, roots', us, p);
      TreesAreLive(after.pages, rest, roots, ts, p);
    }
  }

  lemma MoreRoots(pages: seq<Page>, free: seq<nat>, roots: seq<nat>, roots': seq<nat>, ts: seq<Tree>)
    requires LiveTrees(pages, free, roots, ts) && roots <= roots'
    ensures forall k :: 0 <= k < |ts| ==> LiveAt(pages, free, roots', ts, k)
  {
    forall k | 0 <= k < |ts| ensures LiveAt(pages, free, roots', ts, k) {
      assert LiveAt(pages, free, roots, ts, k);
    }
  }

  // The claims are back on the free list.
  function Returned(j: Job): Image {
    Image(j.staged.pages, j.staged.free + j.m.claims)
  }

  lemma ReturnedIsReclaimed(j: Job)
    requires Sound(j)
    ensures Reclaimed(j.m, ReclaimStaging, j.staged, Returned(j))
  {
    var s := StagedState(j);
    var free := j.staged.free + j.m.claims;
    assert Elements(free) == Elements(j.staged.free) + Elements(j.m.claims);
    forall i, k | 0 <= i < k < |free| ensures free[i] != free[k] {
      assert i >= |j.staged.free| ==> free[i] in j.m.claims;
      assert k >= |j.staged.free| ==> free[k] in j.m.claims;
      assert i < |j.staged.free| ==> free[i] in j.staged.free;
    }
  }

  // The free list after the first claim has been taken from it again.
  function Rest(j: Job): seq<nat>
    requires |j.m.claims| > 0
  {
    j.staged.free + j.m.claims[1..]
  }

  lemma RestIsSmaller(j: Job)
    requires Sound(j)
    ensures var c := j.m.claims[0];
      && c in Returned(j).free && c !in Rest(j)
      && (forall p: nat :: p in Returned(j).free <==> p in Rest(j) || p == c)
      && Distinct(Rest(j))
  {
    ReturnedIsReclaimed(j);
    assert j.m.claims == [j.m.claims[0]] + j.m.claims[1..];
    WithoutOne(j.staged.free, j.m.claims[0], j.m.claims[1..], Returned(j).free);
  }

  lemma WithoutOne(a: seq<nat>, c: nat, b: seq<nat>, all: seq<nat>)
    requires Distinct(all) && all == a + ([c] + b)
    ensures c in all && c !in a + b && Distinct(a + b)
    ensures forall p: nat :: p in all <==> p in a + b || p == c
  {
    var n, rest := |a|, a + b;
    assert all[n] == c;
    assert forall i :: 0 <= i < |rest| ==> rest[i] == all[if i < n then i else i + 1];
    forall p: nat ensures p in all <==> p in rest || p == c {
      assert p in all <==> p in a || p == c || p in b;
    }
  }

  // The work of the run: a new table whose root is a freed claim.
  lemma ReuseIsSound(j: Job, s: State, id: nat, s': State)
    requires Sound(j) && Inv(s) && s.image == Returned(j) && s.catalog == j.start.catalog
    requires |s.catalog| < MAX_TABLES && id > 0 && forall i :: 0 <= i < |s.catalog| ==> s.catalog[i].tableId < id
    requires s'.image == Reused(s.image, Rest(j), j.m.claims[0])
    requires s'.catalog == WithTable(s.catalog, id, j.m.claims[0])
    ensures SoundCatalog(s'.image, s'.catalog) && |s'.image.pages| == |s.image.pages|
    ensures forall p: nat :: OutOfReach(s', p) <==> OutOfReach(s, p) && p != j.m.claims[0]
    ensures forall p: nat :: p in s.image.free <==> p in s'.image.free || p == j.m.claims[0]
  {
    var staged := StagedState(j);
    RestIsSmaller(j);
    ReuseIsLive(s.image, s.catalog, Rest(j), j.m.claims[0], id);
  }

  lemma ReuseTouchesOne(s: State, s': State, c: nat)
    requires |s'.image.pages| == |s.image.pages| && c in s.image.free
    requires forall p: nat :: p < |s.image.pages| && p != c ==> s'.image.pages[p] == s.image.pages[p]
    requires forall p: nat :: OutOfReach(s', p) <==> OutOfReach(s, p) && p != c
    requires forall p: nat :: p in s.image.free <==> p in s'.image.free || p == c
    ensures Tidy(s, s')
  {
    forall p: nat ensures Idle(s', p) <==> Idle(s, p) {
    }
  }

  lemma SameEntry(catalog: seq<Entry>, n: nat, e: Entry, tableId: nat)
    requires CatalogOk(catalog, n) && CatalogOk(catalog + [e], n) && Authoritative(catalog, n, tableId).Some?
    ensures Authoritative(catalog + [e], n, tableId) == Authoritative(catalog, n, tableId)
  {
    LookupAppend(catalog, e, tableId);
  }

  lemma ReuseIsTidy(j: Job, s: State, id: nat) returns (s': State)
    requires Sound(j) && Inv(s) && s.at == Open && s.image == Returned(j) && s.catalog == j.start.catalog
    requires |s.catalog| < MAX_TABLES && id > 0 && forall i :: 0 <= i < |s.catalog| ==> s.catalog[i].tableId < id
    ensures s'.names == s.names && s'.at == s.at
    ensures LooseStep(j, s, Work(s'.image, s'.catalog), s')
    ensures !OutOfReach(s', j.m.claims[0]) && OldEntry(j, s')
  {
    var staged := StagedState(j);
    var c := j.m.claims[0];
    RestIsSmaller(j);
    s' := s.(image := Reused(s.image, Rest(j), c), catalog := WithTable(s.catalog, id, c));
    ReuseIsSound(j, s, id, s');
    ReuseTouchesOne(s, s', c);
    SameEntry(s.catalog, |s.image.pages|, Entry(id, c, 1), j.m.tableId);
    WorkStep(j, s, s');
  }

  lemma WorkStep(j: Job, s: State, s': State)
    requires s.at == Open && s' == s.(image := s'.image, catalog := s'.catalog) && SoundCatalog(s'.image, s'.catalog)
    requires Tidy(s, s')
    ensures LooseStep(j, s, Work(s'.image, s'.catalog), s')
  {
  }

  lemma CrashStep(j: Job, s: State, s': State)
    requires s.names != [] && s' == s.(names := [s.names[0]], at := Closed)
    ensures LooseStep(j, s, Crash(0), s')
  {
  }

  ghost predicate EndsAt(states: seq<State>, s: State) {
    |states| > 0 && states[|states| - 1] == s
  }

  // Staged, renamed, crashed with the manifest.
  lemma UntilCrash(j: Job) returns (states: seq<State>, events: seq<Event>, s: State)
    requires Sound(j)
    ensures IsLooseRun(j, states, events) && EndsAt(states, s)
    ensures s == State(j.staged, j.start.catalog, [Some(j.m)], Closed)
  {
    var staged := StagedState(j);
    var renamed := staged.(names := [None, Some(j.m)], at := Renamed(j.m));
    s := State(j.staged, j.start.catalog, [Some(j.m)], Closed);
    states, events := [j.start], [];
    states, events := Go(j, states, events, j.start, Stage(j.m, j.staged), staged);
    states, events := Go(j, states, events, staged, Rename, renamed);
    states, events := Go(j, states, events, renamed, Crash(1), s);
  }

  // Reclaimed, removed without a sync, and opened without a manifest.
  lemma UntilOpen(j: Job) returns (states: seq<State>, events: seq<Event>, s: State)
    requires Sound(j)
    ensures IsLooseRun(j, states, events) && EndsAt(states, s)
    ensures s == State(Returned(j), j.start.catalog, [Some(j.m), None], Open)
  {
    var crashed;
    states, events, crashed := UntilCrash(j);
    ReclaimSteps(j, crashed);
    RemovalSteps(j, crashed);
    var checked := crashed.(at := Checked(j.m));
    var returned := crashed.(image := Returned(j), at := ReclaimDone(j.m));
    var removed := returned.(names := [Some(j.m), None], at := Removed(j.m));
    var failed := removed.(at := Closed);
    s := removed.(at := Open);
    states, events := Go(j, states, events, crashed, Event.Preflight, checked);
    states, events := Go(j, states, events, checked, Event.Reclaim(Returned(j)), returned);
    states, events := Go(j, states, events, returned, Event.Remove, removed);
    states, events := Go(j, states, events, removed, Fail, failed);
    states, events := Go(j, states, events, failed, OpenWithoutManifest, s);
  }

  lemma ReclaimSteps(j: Job, s: State)
    requires Sound(j) && s == State(j.staged, j.start.catalog, [Some(j.m)], Closed)
    ensures
      var checked := s.(at := Checked(j.m));
      var returned := s.(image := Returned(j), at := ReclaimDone(j.m));
      && LooseStep(j, s, Event.Preflight, checked)
      && LooseStep(j, checked, Event.Reclaim(Returned(j)), returned)
  {
    FirstPreflight(j, s);
    ReturnedIsReclaimed(j);
  }

  lemma RemovalSteps(j: Job, s: State)
    requires s.names == [Some(j.m)]
    ensures
      var returned := s.(image := Returned(j), at := ReclaimDone(j.m));
      var removed := returned.(names := [Some(j.m), None], at := Removed(j.m));
      && LooseStep(j, returned, Event.Remove, removed)
      && LooseStep(j, removed, Fail, removed.(at := Closed))
      && LooseStep(j, removed.(at := Closed), OpenWithoutManifest, removed.(at := Open))
  {
  }

  // Closed, with a manifest that asks for pages in use, and nowhere to go.
  ghost predicate Stuck(j: Job, s: State) {
    && s.at == Closed && s.names == [Some(j.m)]
    && ActionFor(j.m, s.catalog, |s.image.pages|) == ReclaimStaging
    && !PagesAreSafe(j.m, s.image, s.catalog)
    && forall e, s' :: Next(s, e, s') ==> s' == s
  }

  // Such a run for every migration whose catalog has room for a table: then a freed
  // claim is used again, and a second crash brings the manifest back.  The database
  // never opens again.
  lemma ReusedClaimSticks(j: Job) returns (states: seq<State>, events: seq<Event>, last: State)
    requires Sound(j) && |j.start.catalog| < MAX_TABLES
    ensures IsLooseRun(j, states, events) && EndsAt(states, last) && Stuck(j, last)
  {
    var open;
    states, events, open := UntilOpen(j);
    RunStaysLoose(j, states, events, |states| - 1);
    var reused := ReuseAndCrash(j, open);
    last := reused.(names := [Some(j.m)], at := Closed);
    states, events := Go(j, states, events, open, Work(reused.image, reused.catalog), reused);
    states, events := Go(j, states, events, reused, Crash(0), last);
  }

  lemma ReuseAndCrash(j: Job, open: State) returns (reused: State)
    requires Sound(j) && Inv(open) && |j.start.catalog| < MAX_TABLES
    requires open == State(Returned(j), j.start.catalog, [Some(j.m), None], Open)
    ensures LooseStep(j, open, Work(reused.image, reused.catalog), reused)
    ensures LooseStep(j, reused, Crash(0), reused.(names := [Some(j.m)], at := Closed))
    ensures Stuck(j, reused.(names := [Some(j.m)], at := Closed))
  {
    var id := FreshId(j.start.catalog);
    reused := ReuseIsTidy(j, open, id);
    var last := reused.(names := [Some(j.m)], at := Closed);
    CrashStep(j, reused, last);
    Adopted(j, last);
  }

  lemma FirstPreflight(j: Job, s: State)
    requires Sound(j) && s.image == j.staged && s.catalog == j.start.catalog && s.names == [Some(j.m)] && s.at == Closed
    ensures PagesAreSafe(j.m, s.image, s.catalog) && ActionFor(j.m, s.catalog, |s.image.pages|) == ReclaimStaging
  {
    var staged := StagedState(j);
    ActionBefore(j, s);
  }

  lemma Adopted(j: Job, s: State)
    requires Sound(j) && OldEntry(j, s) && !OutOfReach(s, j.m.claims[0])
    requires s.at == Closed && s.names == [Some(j.m)]
    ensures Stuck(j, s)
  {
    ActionBefore(j, s);
    assert j.m.claims[0] in j.m.claims;
    forall e, s' | Next(s, e, s') ensures s' == s {
      StuckForGood(s, e, s');
    }
  }

  lemma Go(j: Job, states: seq<State>, events: seq<Event>, s: State, e: Event, s': State)
    returns (states': seq<State>, events': seq<Event>)
    requires IsLooseRun(j, states, events) && EndsAt(states, s) && LooseStep(j, s, e, s')
    ensures IsLooseRun(j, states', events') && EndsAt(states', s')
  {
    states', events' := states + [s'], events + [e];
    forall i | 0 <= i < |events'| ensures LooseStepAt(j, states', events', i) {
      assert i < |events| ==> LooseStepAt(j, states, events, i);
    }
  }
}
