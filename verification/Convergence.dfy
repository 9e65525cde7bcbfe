/** Recovery can always finish and always ends in the same place: runs of one
    migration, interrupted anywhere and recovered any number of times, while
    other work goes on elsewhere in the file. */
module Convergence {
  import opened Pages
  import opened Trees
  import opened OldTree
  import opened LiveGuard
  import opened Manifest
  import opened Pager
  import opened PagerReclaim
  import opened OwnershipCollect
  import opened Recovery
  import opened Safety
  import opened Migration

  // One migration of one table, started from an open database.  Other work
  // leaves the `spared` pages alone meanwhile.
  datatype Job = Job(start: State, m: Manifest, staged: Image, spared: set<nat>)

  ghost predicate Sound(j: Job) {
    && Inv(j.start) && j.start.at == Open && j.start.names == [None]
    && DescribesCatalog(j.m, j.start)
    && StagedImage(j.start.image, j.staged, j.m.claims, j.m.stagedRoot)
    && HasOldTree(j.start.image.pages, j.start.image.free, j.m.oldRoot)
    && (forall c :: c in j.m.claims ==> c in j.spared)
    && OldPages(j) <= j.spared
    && (forall p :: p in j.spared ==> p < |j.staged.pages|)
  }

  ghost function RetiredTree(j: Job): (t: Tree)
    requires HasOldTree(j.start.image.pages, j.start.image.free, j.m.oldRoot)
    ensures IsOldTree(j.start.image.pages, j.start.image.free, j.m.oldRoot, t)
  {
    var t :| IsOldTree(j.start.image.pages, j.start.image.free, j.m.oldRoot, t);
    t
  }

  ghost function OldPages(j: Job): set<nat>
    requires HasOldTree(j.start.image.pages, j.start.image.free, j.m.oldRoot)
  {
    NodePages(RetiredTree(j))
  }

  function Later(j: Job): Manifest {
    j.m.(phase := CATALOG_PUBLISHED)
  }

  // On page `p` an image has the given page, free or in use as given.
  ghost predicate LooksAt(image: Image, pages: seq<Page>, free: set<nat>, p: nat) {
    && (p < |pages| <==> p < |image.pages|)
    && (p < |pages| ==> image.pages[p] == pages[p] && (p in image.free <==> p in free))
  }

  // And so on all spared pages.
  ghost predicate Looks(j: Job, image: Image, pages: seq<Page>, free: set<nat>) {
    && |pages| <= |image.pages|
    && forall p :: p in j.spared ==> LooksAt(image, pages, free, p)
  }

  ghost predicate NotStaged(j: Job, image: Image) {
    Looks(j, image, j.start.image.pages, Elements(j.start.image.free))
  }

  ghost predicate StagedHere(j: Job, image: Image) {
    Looks(j, image, j.staged.pages, Elements(j.staged.free))
  }

  // The staged pages were given back.
  ghost predicate StagingUndone(j: Job, image: Image) {
    Looks(j, image, j.staged.pages, Elements(j.staged.free) + Elements(j.m.claims))
  }

  // The old tree was given back.
  ghost predicate OldTreeGone(j: Job, image: Image)
    requires Sound(j)
  {
    Looks(j, image, PagesWithoutOld(j), Elements(j.staged.free) + (OldPages(j) - {0}))
  }

  function PagesWithoutOld(j: Job): seq<Page> {
    if j.m.oldRoot == 0 && |j.staged.pages| > 0 && !Retired(j.staged.pages[0])
    then j.staged.pages[0 := TOMBSTONE] else j.staged.pages
  }

  // The table's root and generation in the catalog.
  ghost predicate TableIs(j: Job, s: State, root: nat, generation: nat) {
    Authoritative(s.catalog, |s.image.pages|, j.m.tableId) == Some(Entry(j.m.tableId, root, generation))
  }

  ghost predicate OldEntry(j: Job, s: State) {
    TableIs(j, s, j.m.oldRoot, j.m.oldGeneration)
  }

  ghost predicate NewEntry(j: Job, s: State) {
    TableIs(j, s, j.m.stagedRoot, j.m.newGeneration)
  }

  ghost predicate OutOfReach(s: State, p: nat) {
    !Live(s.image.pages, Roots(s.catalog), p)
  }

  // Work elsewhere: it keeps the spared pages, neither takes nor adopts them, and
  // leaves the catalog entry of the table.
  ghost predicate Spares(j: Job, s: State, s': State) {
    && Authoritative(s'.catalog, |s'.image.pages|, j.m.tableId)
       == Authoritative(s.catalog, |s.image.pages|, j.m.tableId)
    && Looks(j, s'.image, s.image.pages, Elements(s.image.free))
    && forall p :: p in j.spared && OutOfReach(s, p) ==> OutOfReach(s', p)
  }

  // A step of the job: staging happens once, other work spares its pages.
  ghost predicate JobStep(j: Job, s: State, e: Event, s': State) {
    && Next(s, e, s')
    && (e.Work? ==> Spares(j, s, s'))
    && (e.Stage? ==> s == j.start && e == Stage(j.m, j.staged))
  }

  ghost predicate JobStepAt(j: Job, states: seq<State>, events: seq<Event>, i: nat) {
    i < |events| && i + 1 < |states| && JobStep(j, states[i], events[i], states[i + 1])
  }

  ghost predicate IsJobRun(j: Job, states: seq<State>, events: seq<Event>) {
    && |states| == |events| + 1
    && states[0] == j.start
    && forall i :: 0 <= i < |events| ==> JobStepAt(j, states, events, i)
  }

  // The same spared pages, free or in use alike.
  ghost predicate SameOutcome(j: Job, a: Image, b: Image) {
    forall p :: p in j.spared ==>
      p < |a.pages| && p < |b.pages| && a.pages[p] == b.pages[p] && (p in a.free <==> p in b.free)
  }

  ghost predicate StagingMayReturn(j: Job, s: State) {
    && (StagedHere(j, s.image) || StagingUndone(j, s.image))
    && forall c :: c in j.m.claims ==> OutOfReach(s, c)
  }

  predicate NamesOf(m: Manifest, names: seq<Option<Manifest>>, published: bool) {
    names != [] && forall n :: n in names ==>
      n == None || n == Some(m) || (published && n == Some(m.(phase := CATALOG_PUBLISHED)))
  }

  // Where the process can stand before publication, by what is known of the image.
  ghost predicate StandsBefore(m: Manifest, at: Stand, names: seq<Option<Manifest>>, staged: bool, undone: bool,
                               mayReturn: bool) {
    match at
    case Open | Closed => true
    case Staged(x) => x == m && staged && mayReturn
    case Renamed(x) => x == m && staged && mayReturn && names != [] && names[|names| - 1] == Some(m)
    case Announced(x) => x == m && staged && mayReturn && names == [Some(m)]
    case Checked(x) => x == m && mayReturn
    case ReclaimDone(x) => x == m && undone && mayReturn
    case Removed(x) => x == m && undone
    case _ => false
  }

  // And after it.
  ghost predicate StandsAfter(m: Manifest, at: Stand, names: seq<Option<Manifest>>, staged: bool, gone: bool) {
    var later := m.(phase := CATALOG_PUBLISHED);
    match at
    case Open | Closed => true
    case Published(x) => x == m && staged
    case MarkRenamed(x) => x == m && staged && names != [] && names[|names| - 1] == Some(later)
    case Marked(x) => x == m && staged
    case Checked(x) => x == m || x == later
    case ReclaimDone(x) => gone
    case Removed(x) => gone
    case _ => false
  }

  // Before publication, only the first manifest can survive, and only over the staged image.
  ghost predicate BeforePublication(j: Job, s: State) {
    && OldEntry(j, s)
    && NamesOf(j.m, s.names, false)
    && (NotStaged(j, s.image) || StagingMayReturn(j, s))
    && (Some(j.m) in s.names ==> StagingMayReturn(j, s))
    && StandsBefore(j.m, s.at, s.names, StagedHere(j, s.image), StagingUndone(j, s.image), StagingMayReturn(j, s))
  }

  // After it, the manifest is gone only when the old tree is.
  ghost predicate AfterPublication(j: Job, s: State)
    requires Sound(j)
  {
    && NewEntry(j, s)
    && NamesOf(j.m, s.names, true)
    && (StagedHere(j, s.image) || OldTreeGone(j, s.image))
    && OldOutOfReach(j, s)
    && (None in s.names ==> OldTreeGone(j, s.image))
    && StandsAfter(j.m, s.at, s.names, StagedHere(j, s.image), OldTreeGone(j, s.image))
  }

  ghost predicate OldOutOfReach(j: Job, s: State)
    requires Sound(j)
  {
    forall p :: p in OldPages(j) ==> OutOfReach(s, p)
  }

  ghost predicate OnCourse(j: Job, s: State)
    requires Sound(j)
  {
    BeforePublication(j, s) || AfterPublication(j, s)
  }

  // What looks the same from an image that looks right looks right.
  lemma LooksOn(j: Job, a: Image, b: Image, pages: seq<Page>, free: set<nat>)
    requires Looks(j, a, pages, free) && Looks(j, b, a.pages, Elements(a.free))
    ensures Looks(j, b, pages, free)
  {
    forall p | p in j.spared ensures LooksAt(b, pages, free, p) {
      assert LooksAt(a, pages, free, p) && LooksAt(b, a.pages, Elements(a.free), p);
    }
  }

  lemma LooksSame(j: Job, a: Image, b: Image, pages: seq<Page>, free: set<nat>)
    requires Looks(j, a, pages, free) && Looks(j, b, pages, free) && forall p :: p in j.spared ==> p < |pages|
    ensures SameOutcome(j, a, b)
  {
    forall p | p in j.spared
      ensures p < |a.pages| && p < |b.pages| && a.pages[p] == b.pages[p] && (p in a.free <==> p in b.free)
    {
      assert LooksAt(a, pages, free, p) && LooksAt(b, pages, free, p);
    }
  }

  // The old tree lies outside the claims, and staging left it alone.
  lemma OldTreeSurvives(j: Job)
    requires Sound(j)
    ensures forall p :: p in OldPages(j) ==>
      && p in j.spared && p < |j.start.image.pages| <= |j.staged.pages| && p !in j.m.claims
      && j.staged.pages[p] == j.start.image.pages[p] && p !in j.staged.free
    ensures j.m.oldRoot in OldPages(j)
  {
    var before := j.start.image;
    var t := RetiredTree(j);
    assert t in Subtrees(t);
    forall p | p in OldPages(j)
      ensures p < |before.pages| && j.staged.pages[p] == before.pages[p] && p !in j.staged.free && p !in j.m.claims
    {
      TreeFacts(before.pages, before.free, j.m.oldRoot, t, p);
      assert p in j.staged.free <==> p in Elements(j.staged.free);
      assert p in before.free <==> p in Elements(before.free);
    }
  }

  // Over an image that looks staged, the old tree is what it was.
  lemma OldTreeHere(j: Job, image: Image)
    requires Sound(j) && StagedHere(j, image)
    ensures IsOldTree(image.pages, image.free, j.m.oldRoot, RetiredTree(j))
    ensures forall t :: IsOldTree(image.pages, image.free, j.m.oldRoot, t) ==> t == RetiredTree(j)
  {
    var before, t := j.start.image, RetiredTree(j);
    OldTreeSurvives(j);
    forall p | p in NodePages(t) ensures p < |before.pages| && image.pages[p] == before.pages[p] && p !in image.free {
      assert p in OldPages(j);
      assert LooksAt(image, j.staged.pages, Elements(j.staged.free), p);
    }
    OldTreeFrame(before.pages, before.free, image.pages, image.free, j.m.oldRoot, t);
    forall u | IsOldTree(image.pages, image.free, j.m.oldRoot, u) ensures u == t {
      OldTreeShape(image.pages, image.free, j.m.oldRoot, t);
      OldTreeShape(image.pages, image.free, j.m.oldRoot, u);
      ShapeUnique(image.pages, t, u);
    }
  }

  // What staging gives: the staged state is safe and the claims are out of reach.
  lemma StagedState(j: Job) returns (s: State)
    requires Sound(j)
    ensures s == j.start.(image := j.staged, at := Staged(j.m)) && Inv(s) && StagedReady(s, j.m)
    ensures OldEntry(j, s) && StagedHere(j, j.staged) && StagingMayReturn(j, s)
    ensures forall c :: c in j.m.claims ==> c < |j.staged.pages| && c !in j.staged.free
    ensures j.m.stagedRoot in j.m.claims
    ensures forall p: nat :: Live(j.staged.pages, Roots(j.start.catalog), p) <==>
      Live(j.start.image.pages, Roots(j.start.catalog), p)
  {
    s := j.start.(image := j.staged, at := Staged(j.m));
    StageIsSafe(j.start, Stage(j.m, j.staged), s);
    var t :| IsLiveTree(j.staged.pages, j.staged.free, {}, j.m.stagedRoot, t) && NodePages(t) == Elements(j.m.claims);
    assert t in Subtrees(t);
    TreePagesInRange(j.staged.pages, j.staged.free, {}, j.m.stagedRoot, t);
    forall c | c in j.m.claims ensures c < |j.staged.pages| && c !in j.staged.free {
      assert c in Elements(j.m.claims);
    }
    assert j.m.stagedRoot in Elements(j.m.claims);
    ClaimsAreNotLive(j);
  }

  lemma ClaimsAreNotLive(j: Job)
    requires Sound(j)
    ensures forall p: nat :: Live(j.staged.pages, Roots(j.start.catalog), p) <==>
      Live(j.start.image.pages, Roots(j.start.catalog), p)
    ensures forall c :: c in j.m.claims ==> !Live(j.staged.pages, Roots(j.start.catalog), c)
  {
    var before, roots := j.start.image, Roots(j.start.catalog);
    var ts :| LiveTrees(before.pages, before.free, roots, ts);
    forall p: nat | Live(before.pages, roots, p)
      ensures p < |before.pages| && j.staged.pages[p] == before.pages[p] && p !in j.staged.free && p !in j.m.claims
    {
      LiveIsAllocated(before.pages, before.free, roots, p);
      assert p in j.staged.free <==> p in Elements(j.staged.free);
      assert p in before.free <==> p in Elements(before.free);
    }
    CatalogFrame(before.pages, before.free, j.staged.pages, j.staged.free, roots, ts);
  }

  // A safe change under the same catalog leaves the same pages in reach.
  lemma ReachStays(s: State, s': State)
    requires Inv(s) && SparesLivePages(s, s') && s'.catalog == s.catalog && |s.image.pages| <= |s'.image.pages|
    ensures forall p: nat :: OutOfReach(s', p) <==> OutOfReach(s, p)
  {
    var ts :| LiveTrees(s.image.pages, s.image.free, Roots(s.catalog), ts);
    CatalogFrame(s.image.pages, s.image.free, s'.image.pages, s'.image.free, Roots(s.catalog), ts);
  }

  // The manifest met before publication asks for the staged pages back.
  lemma ActionBefore(j: Job, s: State)
    requires Sound(j) && OldEntry(j, s)
    ensures ActionFor(j.m, s.catalog, |s.image.pages|) == ReclaimStaging
  {
  }

  // Either manifest met after publication asks for the old tree back.
  lemma ActionAfter(j: Job, s: State, x: Manifest)
    requires Sound(j) && NewEntry(j, s) && (x == j.m || x == Later(j))
    ensures ActionFor(x, s.catalog, |s.image.pages|) == KeepNewReclaimOld
  {
  }

  // With the old tree gone, repeating its reclaim finds it gone.
  lemma GoneIsRecognised(j: Job, image: Image)
    requires Sound(j) && OldTreeGone(j, image)
    ensures j.m.oldRoot < |image.pages| && AlreadyReclaimed(image, j.m.oldRoot)
  {
    OldTreeSurvives(j);
    assert LooksAt(image, PagesWithoutOld(j), Elements(j.staged.free) + (OldPages(j) - {0}), j.m.oldRoot);
  }

  // Returning the claims.
  lemma UndoingStaging(j: Job, before: Image, after: Image)
    requires Sound(j) && (StagedHere(j, before) || StagingUndone(j, before))
    requires Reclaimed(j.m, ReclaimStaging, before, after)
    ensures StagingUndone(j, after)
  {
    forall p | p in j.spared
      ensures LooksAt(after, j.staged.pages, Elements(j.staged.free) + Elements(j.m.claims), p)
    {
      assert LooksAt(before, j.staged.pages, Elements(j.staged.free), p)
        || LooksAt(before, j.staged.pages, Elements(j.staged.free) + Elements(j.m.claims), p);
      assert p in after.free <==> p in Elements(after.free);
      assert p in before.free <==> p in Elements(before.free);
    }
  }

  // Returning the old tree.
  lemma RemovingOldTree(j: Job, before: Image, after: Image)
    requires Sound(j) && (StagedHere(j, before) || OldTreeGone(j, before))
    requires TreeReclaimed(before, after, j.m.oldRoot)
    ensures OldTreeGone(j, after)
  {
    if OldTreeGone(j, before) {
      GoneIsRecognised(j, before);
    } else {
      OldTreeSurvives(j);
      OldTreeHere(j, before);
      assert LooksAt(before, j.staged.pages, Elements(j.staged.free), j.m.oldRoot);
      if AlreadyReclaimed(before, j.m.oldRoot) {
        RetiredIsAlone(j);
      } else {
        OldTreeRemoved(j, before, after);
      }
    }
  }

  // A root that already looks retired has nothing below it.
  lemma RetiredIsAlone(j: Job)
    requires Sound(j) && j.m.oldRoot == 0 && |j.staged.pages| > 0 && Retired(j.staged.pages[0])
    ensures OldPages(j) == {0}
    ensures forall image :: StagedHere(j, image) ==> OldTreeGone(j, image)
  {
    OldTreeSurvives(j);
    var t := RetiredTree(j);
    assert NodeOk(j.start.image.pages, j.start.image.free, 0, t);
    assert Subtrees(t) == {t};
    assert OldPages(j) - {0} == {};
    assert Elements(j.staged.free) + (OldPages(j) - {0}) == Elements(j.staged.free);
  }

  lemma OldTreeRemoved(j: Job, before: Image, after: Image)
    requires Sound(j) && StagedHere(j, before) && !AlreadyReclaimed(before, j.m.oldRoot)
    requires TreeReclaimed(before, after, j.m.oldRoot)
    ensures OldTreeGone(j, after)
  {
    OldTreeSurvives(j);
    OldTreeHere(j, before);
    assert LooksAt(before, j.staged.pages, Elements(j.staged.free), j.m.oldRoot);
    var free := Elements(j.staged.free) + (OldPages(j) - {0});
    forall p | p in j.spared ensures LooksAt(after, PagesWithoutOld(j), free, p) {
      assert LooksAt(before, j.staged.pages, Elements(j.staged.free), p);
      assert p in after.free <==> p in Elements(after.free);
      assert p in before.free <==> p in Elements(before.free);
    }
  }

  // Steps that change neither image nor catalog.
  predicate Quiet(e: Event) {
    !e.Stage? && !e.Publish? && !e.Reclaim? && !e.Work?
  }

  lemma QuietBefore(m: Manifest, s: State, e: Event, s': State, staged: bool, undone: bool, mayReturn: bool)
    requires Next(s, e, s') && Quiet(e) && NamesOf(m, s.names, false)
    requires StandsBefore(m, s.at, s.names, staged, undone, mayReturn) && (Some(m) in s.names ==> mayReturn)
    ensures s'.image == s.image && s'.catalog == s.catalog && NamesOf(m, s'.names, false)
    ensures StandsBefore(m, s'.at, s'.names, staged, undone, mayReturn) && (Some(m) in s'.names ==> mayReturn)
  {
    assert Visible(s) in s.names;
    if e.Crash? {
      assert s.names[e.survivor] in s.names;
    }
  }

  lemma QuietAfter(m: Manifest, s: State, e: Event, s': State, staged: bool, gone: bool)
    requires Next(s, e, s') && Quiet(e) && NamesOf(m, s.names, true)
    requires StandsAfter(m, s.at, s.names, staged, gone) && (None in s.names ==> gone)
    ensures s'.image == s.image && s'.catalog == s.catalog && NamesOf(m, s'.names, true)
    ensures StandsAfter(m, s'.at, s'.names, staged, gone) && (None in s'.names ==> gone)
  {
    assert Visible(s) in s.names;
    if e.Crash? {
      assert s.names[e.survivor] in s.names;
    }
  }

  lemma StageBefore(j: Job, s: State, e: Event, s': State)
    requires Sound(j) && JobStep(j, s, e, s') && e.Stage?
    ensures BeforePublication(j, s')
  {
    var staged := StagedState(j);
  }

  lemma ReclaimBefore(j: Job, s: State, e: Event, s': State)
    requires Sound(j) && BeforePublication(j, s) && Inv(s) && Next(s, e, s') && e.Reclaim?
    requires SparesLivePages(s, s')
    ensures BeforePublication(j, s')
  {
    ActionBefore(j, s);
    UndoingStaging(j, s.image, s'.image);
    ReachStays(s, s');
  }

  lemma ReclaimAfter(j: Job, s: State, e: Event, s': State)
    requires Sound(j) && AfterPublication(j, s) && Inv(s) && Next(s, e, s') && e.Reclaim?
    requires SparesLivePages(s, s')
    ensures AfterPublication(j, s')
  {
    ActionAfter(j, s, s.at.m);
    RemovingOldTree(j, s.image, s'.image);
    SamePages(s.image, s'.image, j.m.oldRoot);
    ReachStays(s, s');
  }

  lemma SamePages(before: Image, after: Image, root: nat)
    requires TreeReclaimed(before, after, root)
    ensures |before.pages| == |after.pages|
  {
  }

  lemma StepBefore(j: Job, s: State, e: Event, s': State)
    requires Sound(j) && BeforePublication(j, s) && Inv(s) && JobStep(j, s, e, s') && !e.Publish? && !e.Work?
    requires SparesLivePages(s, s')
    ensures BeforePublication(j, s')
  {
    if e.Stage? {
      StageBefore(j, s, e, s');
    } else if e.Reclaim? {
      ReclaimBefore(j, s, e, s');
    } else {
      QuietBefore(j.m, s, e, s', StagedHere(j, s.image), StagingUndone(j, s.image), StagingMayReturn(j, s));
      BeforeMoved(j, s, s'.names, s'.at);
    }
  }

  lemma BeforeMoved(j: Job, s: State, names: seq<Option<Manifest>>, at: Stand)
    requires Sound(j) && BeforePublication(j, s) && NamesOf(j.m, names, false)
    requires StandsBefore(j.m, at, names, StagedHere(j, s.image), StagingUndone(j, s.image), StagingMayReturn(j, s))
    requires Some(j.m) in names ==> StagingMayReturn(j, s)
    ensures BeforePublication(j, s.(names := names, at := at))
  {
    var s' := s.(names := names, at := at);
    assert StagingMayReturn(j, s') == StagingMayReturn(j, s);
  }

  // Publication detaches the old tree.
  lemma StepPublishes(j: Job, s: State, e: Event, s': State)
    requires Sound(j) && BeforePublication(j, s) && Inv(s) && Next(s, e, s') && e.Publish?
    ensures AfterPublication(j, s')
  {
    PublishedCatalog(s, j.m);
    OldTreeHere(j, s.image);
  }

  lemma StepAfter(j: Job, s: State, e: Event, s': State)
    requires Sound(j) && AfterPublication(j, s) && Inv(s) && JobStep(j, s, e, s') && !e.Work?
    requires SparesLivePages(s, s')
    ensures AfterPublication(j, s')
  {
    if e.Reclaim? {
      ReclaimAfter(j, s, e, s');
    } else {
      NotAgain(j, s, e, s');
      QuietAfter(j.m, s, e, s', StagedHere(j, s.image), OldTreeGone(j, s.image));
    }
  }

  lemma NotAgain(j: Job, s: State, e: Event, s': State)
    requires Sound(j) && AfterPublication(j, s) && JobStep(j, s, e, s')
    ensures !e.Stage? && !e.Publish?
  {
  }

  lemma WorkBefore(j: Job, s: State, s': State)
    requires Sound(j) && BeforePublication(j, s) && Spares(j, s, s') && s'.names == s.names && s'.at == s.at
    ensures BeforePublication(j, s')
  {
    LooksOnAll(j, s.image, s'.image);
  }

  lemma WorkAfter(j: Job, s: State, s': State)
    requires Sound(j) && AfterPublication(j, s) && Spares(j, s, s') && s'.names == s.names && s'.at == s.at
    ensures AfterPublication(j, s')
  {
    LooksOnAll(j, s.image, s'.image);
  }

  lemma WorkStays(s: State, e: Event, s': State)
    requires Next(s, e, s') && e.Work?
    ensures s'.names == s.names && s'.at == s.at
  {
  }

  lemma LooksOnAll(j: Job, a: Image, b: Image)
    requires Sound(j) && Looks(j, b, a.pages, Elements(a.free))
    ensures NotStaged(j, a) ==> NotStaged(j, b)
    ensures StagedHere(j, a) ==> StagedHere(j, b)
    ensures StagingUndone(j, a) ==> StagingUndone(j, b)
    ensures OldTreeGone(j, a) ==> OldTreeGone(j, b)
  {
    var free := Elements(j.staged.free);
    if NotStaged(j, a) { LooksOn(j, a, b, j.start.image.pages, Elements(j.start.image.free)); }
    if StagedHere(j, a) { LooksOn(j, a, b, j.staged.pages, free); }
    if StagingUndone(j, a) { LooksOn(j, a, b, j.staged.pages, free + Elements(j.m.claims)); }
    if OldTreeGone(j, a) { LooksOn(j, a, b, PagesWithoutOld(j), free + (OldPages(j) - {0})); }
  }

  // Interrupted anywhere, with any surviving name and any work elsewhere, the job
  // is in one of the two situations.
  lemma {:induction false} RunStaysOnCourse(j: Job, states: seq<State>, events: seq<Event>, i: nat)
    requires Sound(j) && IsJobRun(j, states, events) && i < |states|
    ensures OnCourse(j, states[i]) && Inv(states[i])
  {
    if i > 0 {
      RunStaysOnCourse(j, states, events, i - 1);
      JobRunStep(j, states, events, i);
      StepStaysOnCourse(j, states[i - 1], events[i - 1], states[i]);
    } else {
      StartIsOnCourse(j);
    }
  }

  lemma StartIsOnCourse(j: Job)
    requires Sound(j)
    ensures OnCourse(j, j.start) && Inv(j.start)
  {
  }

  lemma JobRunStep(j: Job, states: seq<State>, events: seq<Event>, i: nat)
    requires IsJobRun(j, states, events) && 0 < i < |states|
    ensures JobStep(j, states[i - 1], events[i - 1], states[i])
  {
    assert JobStepAt(j, states, events, i - 1);
  }

  lemma StepStaysOnCourse(j: Job, s: State, e: Event, s': State)
    requires Sound(j) && OnCourse(j, s) && Inv(s) && JobStep(j, s, e, s')
    ensures OnCourse(j, s') && Inv(s')
  {
    StepIsSafe(s, e, s');
    if BeforePublication(j, s) {
      if e.Publish? {
        StepPublishes(j, s, e, s');
      } else if e.Work? {
        WorkStays(s, e, s');
        WorkBefore(j, s, s');
      } else {
        StepBefore(j, s, e, s');
      }
    } else if e.Work? {
      WorkStays(s, e, s');
      WorkAfter(j, s, s');
    } else {
      StepAfter(j, s, e, s');
    }
  }

  // A visible manifest is not contradictory, passes the preflight, and asks for
  // a reclaim that can be carried out.
  ghost predicate Usable(s: State) {
    && s.names != []
    && match Visible(s)
       case None => true
       case Some(x) =>
         && ActionFor(x, s.catalog, |s.image.pages|) != Invalid
         && PagesAreSafe(x, s.image, s.catalog)
         && CanReclaim(x, ActionFor(x, s.catalog, |s.image.pages|), s.image)
  }

  lemma ManifestIsUsable(j: Job, s: State)
    requires Sound(j) && OnCourse(j, s) && Inv(s)
    ensures Usable(s)
  {
    if Visible(s).Some? {
      var x := Visible(s).value;
      assert Some(x) in s.names;
      if BeforePublication(j, s) {
        ActionBefore(j, s);
        ClaimsInRange(j, s.image);
      } else {
        ActionAfter(j, s, x);
        OldRootIsReclaimable(j, s);
      }
    }
  }

  lemma ClaimsInRange(j: Job, image: Image)
    requires Sound(j) && (StagedHere(j, image) || StagingUndone(j, image))
    ensures forall c :: c in j.m.claims ==> c < |image.pages|
  {
    var staged := StagedState(j);
  }

  lemma OldRootIsReclaimable(j: Job, s: State)
    requires Sound(j) && AfterPublication(j, s)
    ensures OldRootIsSafe(j.m.oldRoot, s.image, Roots(s.catalog))
    ensures AlreadyReclaimed(s.image, j.m.oldRoot) || HasOldTree(s.image.pages, s.image.free, j.m.oldRoot)
  {
    OldTreeSurvives(j);
    if OldTreeGone(j, s.image) {
      GoneIsRecognised(j, s.image);
    } else {
      OldTreeHere(j, s.image);
      OldTreeIsLiveTree(s.image.pages, s.image.free, j.m.oldRoot, RetiredTree(j));
    }
  }

  // Any two completed reclaims of the job end alike.
  lemma OneOutcome(j: Job, action: Action, a: Image, b: Image)
    requires Sound(j) && action != Invalid
    requires if action == ReclaimStaging then StagingUndone(j, a) else OldTreeGone(j, a)
    requires Reclaimed(j.m, action, j.staged, b)
    ensures SameOutcome(j, a, b)
  {
    if action == ReclaimStaging {
      UndoingStaging(j, j.staged, b);
      LooksSame(j, a, b, j.staged.pages, Elements(j.staged.free) + Elements(j.m.claims));
    } else {
      RemovingOldTree(j, j.staged, b);
      LooksSame(j, a, b, PagesWithoutOld(j), Elements(j.staged.free) + (OldPages(j) - {0}));
    }
  }

  // What a completed attempt on `s` has done.
  ghost predicate Finished(j: Job, s: State)
    requires Sound(j)
  {
    var action := ActionFor(j.m, s.catalog, |s.image.pages|);
    action != Invalid && if action == ReclaimStaging then StagingUndone(j, s.image) else OldTreeGone(j, s.image)
  }

  lemma RemovedIsFinished(j: Job, s: State)
    requires Sound(j) && OnCourse(j, s) && s.at.Removed?
    ensures Finished(j, s)
  {
    if BeforePublication(j, s) {
      RemovedBefore(j, s);
      FinishedBefore(j, s);
    } else {
      RemovedAfter(j, s);
      FinishedAfter(j, s);
    }
  }

  lemma RemovedBefore(j: Job, s: State)
    requires Sound(j) && BeforePublication(j, s) && s.at.Removed?
    ensures OldEntry(j, s) && StagingUndone(j, s.image)
  {
    StandsRemoved(j.m, s.at, s.names, StagedHere(j, s.image), StagingUndone(j, s.image), StagingMayReturn(j, s));
  }

  lemma StandsRemoved(m: Manifest, at: Stand, names: seq<Option<Manifest>>, staged: bool, undone: bool, may: bool)
    requires StandsBefore(m, at, names, staged, undone, may) && at.Removed?
    ensures undone
  {
  }

  lemma RemovedAfter(j: Job, s: State)
    requires Sound(j) && AfterPublication(j, s) && s.at.Removed?
    ensures NewEntry(j, s) && OldTreeGone(j, s.image)
  {
    StandsGone(j.m, s.at, s.names, StagedHere(j, s.image), OldTreeGone(j, s.image));
  }

  lemma StandsGone(m: Manifest, at: Stand, names: seq<Option<Manifest>>, staged: bool, gone: bool)
    requires StandsAfter(m, at, names, staged, gone) && at.Removed?
    ensures gone
  {
  }

  lemma FinishedAfter(j: Job, s: State)
    requires Sound(j) && NewEntry(j, s) && OldTreeGone(j, s.image)
    ensures Finished(j, s)
  {
    ActionAfter(j, s, j.m);
  }

  lemma FinishedBefore(j: Job, s: State)
    requires Sound(j) && OldEntry(j, s) && StagingUndone(j, s.image)
    ensures Finished(j, s)
  {
    ActionBefore(j, s);
  }

  // An attempt ran to its end: the manifest was removed, and possibly synced away.
  ghost predicate Completed(states: seq<State>, events: seq<Event>, i: nat)
    requires |states| == |events| + 1 && i < |states|
  {
    states[i].at.Removed? || (i > 0 && events[i - 1].Sync? && states[i].at == Open)
  }

  lemma SyncEndsRecovery(j: Job, s: State, s': State)
    requires JobStep(j, s, Event.Sync, s') && s'.at == Open
    ensures s.at.Removed? && s'.image == s.image && s'.catalog == s.catalog
  {
  }

  lemma CompletedIsFinished(j: Job, states: seq<State>, events: seq<Event>, i: nat)
    requires Sound(j) && IsJobRun(j, states, events) && i < |states| && Completed(states, events, i)
    ensures Finished(j, states[i])
  {
    if states[i].at.Removed? {
      RunStaysOnCourse(j, states, events, i);
      RemovedIsFinished(j, states[i]);
    } else {
      RunStaysOnCourse(j, states, events, i - 1);
      JobRunStep(j, states, events, i);
      SyncedIsFinished(j, states[i - 1], events[i - 1], states[i]);
    }
  }

  lemma SyncedIsFinished(j: Job, s: State, e: Event, s': State)
    requires Sound(j) && OnCourse(j, s) && JobStep(j, s, e, s') && e.Sync? && s'.at == Open
    ensures Finished(j, s')
  {
    SyncEndsRecovery(j, s, s');
    RemovedIsFinished(j, s);
  }

  // Recovery converges.  However often the migration and its recovery were cut
  // short before state `i`, and whatever was done elsewhere in between: a
  // surviving manifest can be acted on, and once an attempt has completed, the
  // table's root and the spared pages are those of a single uninterrupted attempt
  // on the staged image.
  lemma RecoveryConverges(j: Job, states: seq<State>, events: seq<Event>, i: nat, once: Image)
    requires Sound(j) && IsJobRun(j, states, events) && i < |states|
    requires Reclaimed(j.m, ActionFor(j.m, states[i].catalog, |states[i].image.pages|), j.staged, once)
    ensures OldEntry(j, states[i]) || NewEntry(j, states[i])
    ensures Usable(states[i])
    ensures Completed(states, events, i) ==> SameOutcome(j, states[i].image, once)
  {
    RunStaysOnCourse(j, states, events, i);
    ManifestIsUsable(j, states[i]);
    if Completed(states, events, i) {
      CompletedIsFinished(j, states, events, i);
      OneOutcome(j, ActionFor(j.m, states[i].catalog, |states[i].image.pages|), states[i].image, once);
    }
  }

  // And what that is: under the old entry every claim is free; under the new one every
  // page of the old tree is free, except that page zero is an empty rooted leaf.
  lemma CompletedIsClean(j: Job, states: seq<State>, events: seq<Event>, i: nat)
    requires Sound(j) && IsJobRun(j, states, events) && i < |states| && Completed(states, events, i)
    ensures OldEntry(j, states[i]) || NewEntry(j, states[i])
    ensures OldEntry(j, states[i]) ==> forall c :: c in j.m.claims ==> c in states[i].image.free
    ensures NewEntry(j, states[i]) ==> forall p :: p in OldPages(j) && p != 0 ==> p in states[i].image.free
    ensures NewEntry(j, states[i]) && 0 in OldPages(j) ==>
      && j.m.oldRoot == 0 && |states[i].image.pages| > 0
      && states[i].image.pages[0].kind == Leaf && states[i].image.pages[0].isRoot
      && states[i].image.pages[0].keys == [] && states[i].image.pages[0].parent == 0
      && states[i].image.pages[0].prev == 0 && states[i].image.pages[0].next == 0
  {
    var s := states[i];
    RunStaysOnCourse(j, states, events, i);
    CompletedIsFinished(j, states, events, i);
    if OldEntry(j, s) {
      ActionBefore(j, s);
      UndoneIsClean(j, s.image);
    } else {
      ActionAfter(j, s, j.m);
      GoneIsClean(j, s.image);
    }
  }

  lemma UndoneIsClean(j: Job, image: Image)
    requires Sound(j) && StagingUndone(j, image)
    ensures forall c :: c in j.m.claims ==> c in image.free
  {
    var staged := StagedState(j);
    forall c | c in j.m.claims ensures c in image.free {
      assert LooksAt(image, j.staged.pages, Elements(j.staged.free) + Elements(j.m.claims), c);
    }
  }

  lemma GoneIsClean(j: Job, image: Image)
    requires Sound(j) && OldTreeGone(j, image)
    ensures forall p :: p in OldPages(j) && p != 0 ==> p in image.free
    ensures 0 in OldPages(j) ==>
      && j.m.oldRoot == 0 && |image.pages| > 0
      && image.pages[0].kind == Leaf && image.pages[0].isRoot && image.pages[0].keys == []
      && image.pages[0].parent == image.pages[0].prev == image.pages[0].next == 0
  {
    OldTreeSurvives(j);
    var free := Elements(j.staged.free) + (OldPages(j) - {0});
    forall p | p in OldPages(j) ensures LooksAt(image, PagesWithoutOld(j), free, p) {
    }
    if 0 in OldPages(j) {
      assert LooksAt(image, PagesWithoutOld(j), free, 0);
      var t := RetiredTree(j);
      var s :| s in Subtrees(t) && s.page == 0;
      if s != t {
        NonRootNonZero(j.start.image.pages, j.start.image.free, j.m.oldRoot, t, s);
      }
    }
  }

  // Without other work the file is no longer than staging made it.
  lemma {:induction false} NoWorkNoGrowth(j: Job, states: seq<State>, events: seq<Event>, i: nat)
    requires Sound(j) && IsJobRun(j, states, events) && i < |states| && forall k :: 0 <= k < i ==> !events[k].Work?
    ensures |states[i].image.pages| <= |j.staged.pages|
  {
    if i > 0 {
      NoWorkNoGrowth(j, states, events, i - 1);
      JobRunStep(j, states, events, i);
      StepNoGrowth(j, states[i - 1], events[i - 1], states[i]);
    }
  }

  lemma StepNoGrowth(j: Job, s: State, e: Event, s': State)
    requires JobStep(j, s, e, s') && !e.Work? && |s.image.pages| <= |j.staged.pages|
    ensures |s'.image.pages| <= |j.staged.pages|
  {
    if e.Reclaim? {
      ReclaimKeepsLength(s.at.m, ActionFor(s.at.m, s.catalog, |s.image.pages|), s.image, s'.image);
    }
  }

  lemma ReclaimKeepsLength(m: Manifest, action: Action, before: Image, after: Image)
    requires Reclaimed(m, action, before, after)
    ensures |after.pages| == |before.pages|
  {
  }

  // Without other work a completed recovery leaves exactly the file and the free
  // pages of a single uninterrupted attempt.
  lemma QuietRecoveryConverges(j: Job, states: seq<State>, events: seq<Event>, i: nat, once: Image)
    requires Sound(j) && IsJobRun(j, states, events) && i < |states| && forall k :: 0 <= k < i ==> !events[k].Work?
    requires forall p: nat :: p < |j.staged.pages| ==> p in j.spared
    requires Reclaimed(j.m, ActionFor(j.m, states[i].catalog, |states[i].image.pages|), j.staged, once)
    requires Completed(states, events, i)
    ensures states[i].image.pages == once.pages && Elements(states[i].image.free) == Elements(once.free)
  {
    RecoveryConverges(j, states, events, i, once);
    RunStaysOnCourse(j, states, events, i);
    NoWorkNoGrowth(j, states, events, i);
    CompletedIsFinished(j, states, events, i);
    var staged := StagedState(j);
    WholeFile(j, states[i].image, once);
  }

  lemma WholeFile(j: Job, a: Image, b: Image)
    requires SameOutcome(j, a, b) && (forall p: nat :: p < |a.pages| || p < |b.pages| ==> p in j.spared)
    requires FreeListOk(a) && FreeListOk(b)
    ensures a.pages == b.pages && Elements(a.free) == Elements(b.free)
  {
    assert |a.pages| < |b.pages| ==> |a.pages| in j.spared;
    assert |b.pages| < |a.pages| ==> |b.pages| in j.spared;
    forall p: nat ensures p in Elements(a.free) <==> p in Elements(b.free) {
      assert p in a.free || p in b.free ==> p in j.spared;
    }
  }

  // What one call of the recovery executor leaves behind is a run of the machine.
  lemma AttemptIsRun(s: State, m: Manifest, after: Image, names': seq<Option<Manifest>>, ok: bool)
    returns (states: seq<State>, events: seq<Event>)
    requires Inv(s) && s.at == Closed && Visible(s) == Some(m) && PagesAreSafe(m, s.image, s.catalog)
    requires AttemptOutcome(m, s.catalog, s.image, s.names, after, names', ok)
    ensures IsRun(states, events) && states[0] == s
    ensures states[|states| - 1] == State(after, s.catalog, names', if ok then Open else Closed)
    ensures forall e :: e in events ==> !e.Work? && !e.Stage?
  {
    var s1 := s.(at := Checked(m));
    var s2 := State(after, s.catalog, s.names, ReclaimDone(m));
    var s3 := State(after, s.catalog, s.names + [None], Removed(m));
    var last := State(after, s.catalog, names', if ok then Open else Closed);
    states, events := [s], [];
    states, events := Extend(states, events, Preflight, s1);
    if after == s.image && names' == s.names && !ok {
      states, events := Extend(states, events, Fail, last);
      return;
    }
    states, events := Extend(states, events, Event.Reclaim(after), s2);
    if !ok && names' == s.names {
      states, events := Extend(states, events, Fail, last);
      return;
    }
    states, events := Extend(states, events, Event.Remove, s3);
    states, events := Extend(states, events, if ok then Event.Sync else Fail, last);
  }

  lemma Extend(states: seq<State>, events: seq<Event>, e: Event, s: State)
    returns (states': seq<State>, events': seq<Event>)
    requires IsRun(states, events) && Next(states[|states| - 1], e, s)
    requires !e.Work? && !e.Stage? && forall e :: e in events ==> !e.Work? && !e.Stage?
    ensures IsRun(states', events') && states'[0] == states[0] && states'[|states'| - 1] == s
    ensures forall e :: e in events' ==> !e.Work? && !e.Stage?
  {
    states', events' := states + [s], events + [e];
    forall i | 0 <= i < |events'| ensures Next(states'[i], events'[i], states'[i + 1]) {
      if i < |events| {
        assert Next(states[i], events[i], states[i + 1]);
      }
    }
  }
}
