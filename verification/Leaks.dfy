/** What an interrupted migration can lose: a crash between the durable staging of
    the pages and the first surviving manifest leaves them allocated, out of reach
    and unknown to every later recovery
    (src/compact_v2_staging_durable.h:25-139, src/compact_v2_migration_manifest.h:383-497,
    src/diagnostics.c:539-639).  Exactly when that is so, for how long, and what the
    page-ownership check says of it. */
module Leaks {
  import opened Pages
  import opened Trees
  import opened OldTree
  import opened LiveGuard
  import opened Manifest
  import opened Pager
  import opened Recovery
  import opened Safety
  import opened Migration
  import opened Convergence
  import PageOwnership

  // The claims are in use, out of reach, and no name a crash could leave speaks of them.
  ghost predicate Leaked(j: Job, s: State) {
    && (forall c :: c in j.m.claims ==> c < |s.image.pages| && c !in s.image.free && OutOfReach(s, c))
    && forall n :: n in s.names ==> n == None
  }

  // Staged, not published, and without any manifest.
  ghost predicate StagedUnnamed(j: Job, s: State) {
    && OldEntry(j, s) && StagedHere(j, s.image)
    && forall n :: n in s.names ==> n == None
  }

  lemma StagedIsInUse(j: Job, image: Image)
    requires Sound(j) && StagedHere(j, image)
    ensures forall c :: c in j.m.claims ==> c < |image.pages| && c !in image.free
  {
    var staged := StagedState(j);
    forall c | c in j.m.claims ensures c < |image.pages| && c !in image.free {
      assert LooksAt(image, j.staged.pages, Elements(j.staged.free), c);
    }
  }

  // Before staging, and after it was undone, no claim is in use.
  lemma OtherwiseFree(j: Job, image: Image, c: u32)
    requires Sound(j) && c in j.m.claims && (NotStaged(j, image) || StagingUndone(j, image))
    ensures c >= |image.pages| || c in image.free
  {
    var staged := StagedState(j);
    if NotStaged(j, image) {
      assert LooksAt(image, j.start.image.pages, Elements(j.start.image.free), c);
    } else {
      assert LooksAt(image, j.staged.pages, Elements(j.staged.free) + Elements(j.m.claims), c);
      assert c in Elements(j.m.claims);
    }
  }

  lemma NewRootIsLive(j: Job, s: State)
    requires Sound(j) && NewEntry(j, s)
    ensures j.m.stagedRoot in j.m.claims && !OutOfReach(s, j.m.stagedRoot)
  {
    var staged := StagedState(j);
    var i := LookupIndex(s.catalog, j.m.tableId);
    assert Roots(s.catalog)[i] == j.m.stagedRoot;
    assert Reaches(s.image.pages, Roots(s.catalog)[i], j.m.stagedRoot, 0);
  }

  // In every state of every run, the pages are lost if and only if they are
  // staged, the catalog entry is the old one and no name of the manifest can survive.
  lemma LeakIff(j: Job, states: seq<State>, events: seq<Event>, i: nat)
    requires Sound(j) && IsJobRun(j, states, events) && i < |states|
    ensures Leaked(j, states[i]) <==> StagedUnnamed(j, states[i])
  {
    RunStaysOnCourse(j, states, events, i);
    LeakIffOnCourse(j, states[i]);
  }

  lemma LeakIffOnCourse(j: Job, s: State)
    requires Sound(j) && OnCourse(j, s)
    ensures Leaked(j, s) <==> StagedUnnamed(j, s)
  {
    if BeforePublication(j, s) {
      if StagedHere(j, s.image) {
        StagedIsInUse(j, s.image);
        NotBoth(j, s.image);
      } else {
        OtherwiseFree(j, s.image, j.m.claims[0]);
      }
    } else {
      NewRootIsLive(j, s);
    }
  }

  lemma NotBoth(j: Job, image: Image)
    requires Sound(j) && StagedHere(j, image)
    ensures !NotStaged(j, image)
  {
    var c := j.m.claims[0];
    StagedIsInUse(j, image);
    if NotStaged(j, image) {
      OtherwiseFree(j, image, c);
    }
  }

  // Once the process that lost them is gone, or has given up, nothing in the job
  // finds the pages again.
  lemma LeakStays(j: Job, s: State, e: Event, s': State)
    requires Sound(j) && OnCourse(j, s) && Inv(s) && JobStep(j, s, e, s')
    requires Leaked(j, s) && (s.at == Open || s.at == Closed)
    ensures Leaked(j, s') && (s'.at == Open || s'.at == Closed)
  {
    LeakIffOnCourse(j, s);
    StepStaysOnCourse(j, s, e, s');
    StagedIsNotStart(j, s);
    if e.Work? {
      WorkStays(s, e, s');
      LooksOnAll(j, s.image, s'.image);
    } else {
      UnnamedMoves(s, e, s');
    }
    LeakIffOnCourse(j, s');
  }

  // Without a manifest there is nothing to do but crash and open.
  lemma UnnamedMoves(s: State, e: Event, s': State)
    requires Next(s, e, s') && !e.Work? && !e.Stage? && s.names != []
    requires (s.at == Open || s.at == Closed) && forall n :: n in s.names ==> n == None
    ensures s'.image == s.image && s'.catalog == s.catalog && (s'.at == Open || s'.at == Closed)
    ensures forall n :: n in s'.names ==> n == None
  {
    assert Visible(s) in s.names;
    if e.Crash? {
      assert s.names[e.survivor] in s.names;
    }
  }

  lemma StagedIsNotStart(j: Job, s: State)
    requires Sound(j) && StagedHere(j, s.image)
    ensures s != j.start
  {
    NotBoth(j, s.image);
    assert NotStaged(j, j.start.image);
  }

  // It happens to every job: staged, crashed before the manifest, and opened again.
  lemma EveryJobCanLeak(j: Job) returns (states: seq<State>, events: seq<Event>)
    requires Sound(j)
    ensures IsJobRun(j, states, events)
    ensures events == [Stage(j.m, j.staged), Crash(0), OpenWithoutManifest] && |states| == 4
    ensures states[3] == State(j.staged, j.start.catalog, [None], Open) && Leaked(j, states[3])
  {
    var staged := StagedState(j);
    var crashed := staged.(at := Closed);
    var open := staged.(at := Open);
    CrashAndOpen(j, staged);
    states := [j.start, staged, crashed, open];
    events := [Stage(j.m, j.staged), Crash(0), OpenWithoutManifest];
    LeakIff(j, states, events, 3);
  }

  lemma CrashAndOpen(j: Job, s: State)
    requires s.names == [None]
    ensures JobStep(j, s, Crash(0), s.(at := Closed))
    ensures JobStep(j, s.(at := Closed), OpenWithoutManifest, s.(at := Open))
  {
  }

  // The page-ownership check when every page can be pinned.
  function Database(image: Image): PageOwnership.Db {
    PageOwnership.Db(image.pages, image.free, {})
  }

  lemma {:induction false} PathIsReach(image: Image, p: nat, q: nat, n: nat)
    requires PageOwnership.Path(Database(image), p, q, n)
    ensures Reaches(image.pages, p, q, n)
    decreases n
  {
    if p != q {
      var e :| e in image.pages[p].Edges() && PageOwnership.Path(Database(image), e, q, n - 1);
      PathIsReach(image, e, q, n - 1);
    }
  }

  lemma {:induction false} ReachIsPath(image: Image, taken: set<nat>, root: nat, t: Tree, p: nat, q: nat, n: nat)
    requires IsLiveTree(image.pages, image.free, taken, root, t) && p in NodePages(t)
    requires Reaches(image.pages, p, q, n)
    ensures PageOwnership.Path(Database(image), p, q, n)
    decreases n
  {
    LiveTreeFacts(image.pages, image.free, taken, root, t, p);
    if p != q {
      var e :| e in image.pages[p].Edges() && Reaches(image.pages, e, q, n - 1);
      ReachIsPath(image, taken, root, t, e, q, n - 1);
    }
  }

  // Over an intact catalog the check reaches the live pages.
  lemma ReachableIsLive(image: Image, roots: seq<nat>, p: nat)
    requires CatalogIntact(image.pages, image.free, roots)
    ensures PageOwnership.ReachableFrom(Database(image), roots, p) <==> Live(image.pages, roots, p)
  {
    var db := Database(image);
    if PageOwnership.ReachableFrom(db, roots, p) {
      var r :| r in roots && PageOwnership.Reachable(db, r, p);
      var n: nat :| PageOwnership.Path(db, r, p, n);
      PathIsReach(image, r, p, n);
      var i :| 0 <= i < |roots| && roots[i] == r;
    }
    if Live(image.pages, roots, p) {
      var i, n :| 0 <= i < |roots| && Reaches(image.pages, roots[i], p, n);
      var ts :| LiveTrees(image.pages, image.free, roots, ts);
      assert LiveAt(image.pages, image.free, roots, ts, i);
      assert ts[i] in Subtrees(ts[i]);
      ReachIsPath(image, PagesOf(ts, i), roots[i], ts[i], roots[i], p, n);
      assert PageOwnership.Reachable(db, roots[i], p);
    }
  }

  ghost function Orphans(image: Image, catalog: seq<Entry>): set<nat> {
    PageOwnership.OrphanPages(Database(image), Roots(catalog))
  }

  lemma OrphansAre(image: Image, catalog: seq<Entry>, p: nat)
    requires SoundCatalog(image, catalog)
    ensures p in Orphans(image, catalog) <==>
      p < |image.pages| && p !in image.free && !Live(image.pages, Roots(catalog), p)
  {
    ReachableIsLive(image, Roots(catalog), p);
  }

  // Lost pages are orphans to the check.
  lemma LeakedAreOrphans(j: Job, s: State)
    requires Inv(s) && Leaked(j, s)
    ensures forall c :: c in j.m.claims ==> c in Orphans(s.image, s.catalog)
  {
    forall c | c in j.m.claims ensures c in Orphans(s.image, s.catalog) {
      OrphansAre(s.image, s.catalog, c);
    }
  }

  // Staging adds exactly the claims to the orphans the check would report.
  lemma StagingAddsOrphans(j: Job)
    requires Sound(j)
    ensures Orphans(j.staged, j.start.catalog) == Orphans(j.start.image, j.start.catalog) + Elements(j.m.claims)
    ensures Orphans(j.start.image, j.start.catalog) !! Elements(j.m.claims)
  {
    var s := StagedState(j);
    forall p: nat
      ensures p in Orphans(j.staged, j.start.catalog) <==>
        p in Orphans(j.start.image, j.start.catalog) || p in Elements(j.m.claims)
      ensures !(p in Orphans(j.start.image, j.start.catalog) && p in Elements(j.m.claims))
    {
      OrphansAre(j.staged, j.start.catalog, p);
      OrphansAre(j.start.image, j.start.catalog, p);
      OrphanOfStaging(j, p);
    }
  }

  lemma OrphanOfStaging(j: Job, p: nat)
    requires Sound(j)
    ensures p in Elements(j.m.claims) ==>
      && p < |j.staged.pages| && p !in j.staged.free && !Live(j.staged.pages, Roots(j.start.catalog), p)
      && (p >= |j.start.image.pages| || p in j.start.image.free)
    ensures p !in Elements(j.m.claims) ==>
      (p < |j.staged.pages| && p !in j.staged.free <==> p < |j.start.image.pages| && p !in j.start.image.free)
  {
    var s := StagedState(j);
    assert p in j.staged.free <==> p in Elements(j.staged.free);
    assert p in j.start.image.free <==> p in Elements(j.start.image.free);
    assert p in j.m.claims <==> p in Elements(j.m.claims);
    assert |j.start.image.pages| <= p < |j.staged.pages| ==> p in j.m.claims;
    assert p in j.start.image.free ==> p < |j.start.image.pages|;
  }
}
