/** What the preflight guarantees about a recovery that follows it: the two tree
    walkers agree, so nothing a catalog root can reach is freed or overwritten. */
module Safety {
  import opened Pages
  import opened Trees
  import opened OldTree
  import opened LiveGuard
  import opened Manifest
  import opened Pager
  import opened PagerReclaim
  import opened OwnershipCollect
  import opened Recovery

  // The ownership walk is the stricter of the two.
  lemma OldTreeIsLiveTree(pages: seq<Page>, free: seq<nat>, root: nat, t: Tree)
    requires IsOldTree(pages, free, root, t)
    ensures IsLiveTree(pages, free, {}, root, t)
  {
    forall s | s in Subtrees(t) ensures LiveNodeOk(pages, free, {}, root, s) {
      assert NodeOk(pages, free, root, s);
      SubtreesTransitive(t, s);
      KidsDistinct(pages, free, root, s);
      forall k | 0 <= k < |s.kids|
        ensures s.kids[k].page != root && s.kids[k].page < |pages| && pages[s.kids[k].page].parent == s.page
      {
        assert KidOk(pages, root, s, k);
      }
    }
  }

  // Preflight and reclaim see the same page set below one root.
  lemma WalkersAgree(pages: seq<Page>, free: seq<nat>, taken: set<nat>, root: nat, old': Tree, live: Tree)
    requires IsOldTree(pages, free, root, old') && IsLiveTree(pages, free, taken, root, live)
    ensures old' == live
  {
    OldTreeShape(pages, free, root, old');
    LiveTreeShape(pages, free, taken, root, live);
    ShapeUnique(pages, old', live);
  }

  lemma LiveTreeTaken(pages: seq<Page>, free: seq<nat>, taken: set<nat>, taken': set<nat>, root: nat, t: Tree)
    requires IsLiveTree(pages, free, taken, root, t) && NodePages(t) !! taken'
    ensures IsLiveTree(pages, free, taken', root, t)
  {
    forall s | s in Subtrees(t) ensures LiveNodeOk(pages, free, taken', root, s) {
      assert LiveNodeOk(pages, free, taken, root, s);
    }
  }

  lemma {:induction false} TreePagesInRange(pages: seq<Page>, free: seq<nat>, taken: set<nat>, root: nat, t: Tree)
    requires IsLiveTree(pages, free, taken, root, t)
    ensures forall p :: p in NodePages(t) ==> p < |pages| && p !in free && p !in taken
  {
    forall p | p in NodePages(t) ensures p < |pages| && p !in free && p !in taken {
      LiveTreeFacts(pages, free, taken, root, t, p);
    }
  }

  // A tree survives any change outside its own pages.
  lemma LiveTreeFrame(pages: seq<Page>, free: seq<nat>, pages': seq<Page>, free': seq<nat>, taken: set<nat>, root: nat,
                      t: Tree)
    requires IsLiveTree(pages, free, taken, root, t) && |pages| <= |pages'|
    requires forall p :: p in NodePages(t) ==> p < |pages| && pages'[p] == pages[p] && p !in free'
    ensures IsLiveTree(pages', free', taken, root, t)
  {
    forall s | s in Subtrees(t) ensures LiveNodeOk(pages', free', taken, root, s) {
      assert LiveNodeOk(pages, free, taken, root, s);
      assert s.page in NodePages(t);
      forall k | 0 <= k < |s.kids| ensures s.kids[k].page in NodePages(t) {
        KidIsSubtree(t, s, k);
      }
    }
  }

  lemma KidOkFrame(pages: seq<Page>, pages': seq<Page>, root: nat, t: Tree, s: Tree, k: nat)
    requires s in Subtrees(t) && KidOk(pages, root, s, k) && |pages| <= |pages'|
    requires forall p :: p in NodePages(t) ==> p < |pages| && pages'[p] == pages[p]
    ensures KidOk(pages', root, s, k)
  {
    assert s.page in NodePages(t);
    KidIsSubtree(t, s, k);
    SubtreesTransitive(t, s.kids[k]);
    KeysFrame(pages, pages', s.kids[k], NodePages(t));
    if k > 0 {
      KidIsSubtree(t, s, k - 1);
      SubtreesTransitive(t, s.kids[k - 1]);
      KeysFrame(pages, pages', s.kids[k - 1], NodePages(t));
    }
  }

  lemma NodeOkFrame(pages: seq<Page>, free: seq<nat>, pages': seq<Page>, free': seq<nat>, root: nat, t: Tree, s: Tree)
    requires s in Subtrees(t) && NodeOk(pages, free, root, s) && |pages| <= |pages'|
    requires forall p :: p in NodePages(t) ==> p < |pages| && pages'[p] == pages[p] && p !in free'
    ensures NodeOk(pages', free', root, s)
  {
    assert s.page in NodePages(t);
    if pages[s.page].kind.Internal? {
      forall k | 0 <= k < |s.kids| ensures KidOk(pages', root, s, k) {
        assert KidOk(pages, root, s, k);
        KidOkFrame(pages, pages', root, t, s, k);
      }
    }
  }

  lemma OldTreeFrame(pages: seq<Page>, free: seq<nat>, pages': seq<Page>, free': seq<nat>, root: nat, t: Tree)
    requires IsOldTree(pages, free, root, t) && |pages| <= |pages'|
    requires forall p :: p in NodePages(t) ==> p < |pages| && pages'[p] == pages[p] && p !in free'
    ensures IsOldTree(pages', free', root, t)
  {
    forall s | s in Subtrees(t) ensures NodeOk(pages', free', root, s) {
      NodeOkFrame(pages, free, pages', free', root, t, s);
    }
    forall i | 0 <= i < |LeavesOf(t)| ensures LinkedAt(pages', LeavesOf(t), i) {
      assert LinkedAt(pages, LeavesOf(t), i);
      LeavesAreSubtrees(t, LeavesOf(t)[i]);
    }
  }

  lemma {:induction false} KeysFrame(pages: seq<Page>, pages': seq<Page>, t: Tree, all: set<nat>)
    requires |pages| <= |pages'| && forall s :: s in Subtrees(t) ==> s.page in all
    requires forall p :: p in all ==> p < |pages| && pages'[p] == pages[p]
    ensures MinKey(pages', t) == MinKey(pages, t) && MaxKey(pages', t) == MaxKey(pages, t)
    decreases t
  {
    assert t in Subtrees(t);
    if t.kids != [] {
      KidIsSubtree(t, t, 0);
      KidIsSubtree(t, t, |t.kids| - 1);
      SubtreesTransitive(t, t.kids[0]);
      SubtreesTransitive(t, t.kids[|t.kids| - 1]);
      KeysFrame(pages, pages', t.kids[0], all);
      KeysFrame(pages, pages', t.kids[|t.kids| - 1], all);
    }
  }

  // All catalog trees survive a change that spares live pages.
  lemma CatalogFrame(pages: seq<Page>, free: seq<nat>, pages': seq<Page>, free': seq<nat>, roots: seq<nat>,
                     ts: seq<Tree>)
    requires LiveTrees(pages, free, roots, ts) && |pages| <= |pages'|
    requires forall p: nat :: Live(pages, roots, p) ==> p < |pages| && pages'[p] == pages[p] && p !in free'
    ensures LiveTrees(pages', free', roots, ts)
    ensures forall p: nat :: Live(pages', roots, p) <==> Live(pages, roots, p)
  {
    forall i | 0 <= i < |roots| ensures LiveAt(pages', free', roots, ts, i) {
      assert LiveAt(pages, free, roots, ts, i);
      forall p | p in NodePages(ts[i]) ensures Live(pages, roots, p) {
        PagesOfIn(ts, |ts|, p);
        TreesAreLive(pages, free, roots, ts, p);
      }
      LiveTreeFrame(pages, free, pages', free', PagesOf(ts, i), roots[i], ts[i]);
    }
    forall p ensures Live(pages', roots, p) <==> Live(pages, roots, p) {
      TreesAreLive(pages, free, roots, ts, p);
      TreesAreLive(pages', free', roots, ts, p);
    }
  }

  lemma LiveIsAllocated(pages: seq<Page>, free: seq<nat>, roots: seq<nat>, p: nat)
    requires CatalogIntact(pages, free, roots) && Live(pages, roots, p)
    ensures p < |pages| && p !in free
  {
    var ts :| LiveTrees(pages, free, roots, ts);
    TreesAreLive(pages, free, roots, ts, p);
    PagesOfIn(ts, |ts|, p);
    var k :| 0 <= k < |ts| && p in NodePages(ts[k]);
    assert LiveAt(pages, free, roots, ts, k);
    TreePagesInRange(pages, free, PagesOf(ts, k), roots[k], ts[k]);
  }

  // After a passed preflight, a completed reclaim spares every live page: none
  // is freed, none is overwritten, and the catalog trees are still all there.
  lemma SafeReclaim(m: Manifest, catalog: seq<Entry>, before: Image, after: Image)
    requires PagesAreSafe(m, before, catalog)
    requires Reclaimed(m, ActionFor(m, catalog, |before.pages|), before, after)
    ensures |after.pages| == |before.pages|
    ensures forall p: nat :: Live(before.pages, Roots(catalog), p) ==>
      p < |before.pages| && after.pages[p] == before.pages[p] && p !in after.free
    ensures CatalogIntact(after.pages, after.free, Roots(catalog))
    ensures FreeListOk(before) ==> FreeListOk(after)
  {
    var roots := Roots(catalog);
    forall p: nat | Live(before.pages, roots, p)
      ensures p < |before.pages| && after.pages[p] == before.pages[p] && p !in after.free
    {
      LiveIsAllocated(before.pages, before.free, roots, p);
      assert p in after.free <==> p in Elements(after.free);
      if ActionFor(m, catalog, |before.pages|) == KeepNewReclaimOld && !AlreadyReclaimed(before, m.oldRoot) {
        var t :| IsOldTree(before.pages, before.free, m.oldRoot, t)
          && Elements(after.free) == Elements(before.free) + (NodePages(t) - {0});
        var u :| IsLiveTree(before.pages, before.free, {}, m.oldRoot, u)
          && forall q :: q in NodePages(u) ==> !Live(before.pages, roots, q);
        WalkersAgree(before.pages, before.free, {}, m.oldRoot, t, u);
      } else {
        assert p in Elements(before.free) <==> p in before.free;
        assert p in Elements(m.claims) ==> p in m.claims;
      }
    }
    var ts :| LiveTrees(before.pages, before.free, roots, ts);
    CatalogFrame(before.pages, before.free, after.pages, after.free, roots, ts);
  }
}
