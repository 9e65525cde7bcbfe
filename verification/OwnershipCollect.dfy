/** The complete ownership walk over an old fixed-V1 tree
    (src/fixed_v1_tree_reclaim.h:81-361). */
module OwnershipCollect {
  import opened Pages
  import opened Trees
  import opened LevelOrder
  import opened OldTree
  import opened OwnershipWalk
  import opened OwnershipRanges
  import opened OwnershipChain
  import opened Pager

  lemma LeavesInQueue(pages: seq<Page>, free: seq<nat>, root: nat, t: Tree, q: seq<nat>)
    requires SubtreeOk(pages, free, root, t) && NodePages(t) == Elements(q)
    ensures forall x :: x in LeavesOf(t) <==> x in LeafPages(pages, q)
  {
    forall x ensures x in LeavesOf(t) <==> x in LeafPages(pages, q) {
      LeavesAreSubtrees(t, x);
      if x in LeavesOf(t) {
        var s :| s in Subtrees(t) && s.kids == [] && s.page == x;
        assert NodeOk(pages, free, root, s) && x in NodePages(t);
      }
      if x in LeafPages(pages, q) {
        assert x in Elements(q) && x in NodePages(t);
        var s :| s in Subtrees(t) && s.page == x;
        assert NodeOk(pages, free, root, s) && s.kids == [];
      }
    }
  }

  // After the second phase the leaves are known well enough for the third.
  lemma KnowLeaves(pages: seq<Page>, free: seq<nat>, root: nat, marks: seq<Slot>, slots: seq<Slot>, q: seq<nat>,
                   st: seq<nat>)
    requires Walked(pages, free, root, marks, q, st) && SameLinks(marks, slots)
    requires RangesOk(pages, free, root, slots, q, st)
    requires forall j :: 0 <= j < |q| ==> q[j] < |slots| && slots[q[j]].resolved
    requires SubtreeOk(pages, free, root, SubTree(pages, q, st, 0))
    ensures LeavesKnown(pages, slots, q, LeavesOf(SubTree(pages, q, st, 0)))
    ensures LeavesOf(SubTree(pages, q, st, 0)) != [] && ZeroAlone(LeavesOf(SubTree(pages, q, st, 0)))
    ensures 0 in LeavesOf(SubTree(pages, q, st, 0)) ==> root == 0
    ensures LeafPages(pages, q) != {}
  {
    var t := SubTree(pages, q, st, 0);
    var leaves := LeavesOf(t);
    LeavesSpan(pages, free, root, t);
    QueueIsTheTree(pages, q, st);
    forall j | 0 <= j < |q|
      ensures slots[q[j]].kind == pages[q[j]].kind
      ensures pages[q[j]].kind.Leaf? ==>
        && slots[q[j]].prev == pages[q[j]].prev && slots[q[j]].next == pages[q[j]].next
        && slots[q[j]].lo == pages[q[j]].FirstKey() && slots[q[j]].hi == pages[q[j]].LastKey()
    {
      assert Settled(pages, free, root, marks, q, st, j) && RangeOk(pages, free, root, slots, q, st, j);
      if pages[q[j]].kind.Leaf? {
        assert SubTree(pages, q, st, j).kids == [];
      }
    }
    LeavesInQueue(pages, free, root, t, q);
    assert leaves[0] in LeafPages(pages, q);
    if 0 in leaves {
      var j :| 0 <= j < |q| && q[j] == 0;
      assert j == 0;
      assert Settled(pages, free, root, marks, q, st, 0);
      assert t.kids == [];
    }
  }

  // The pages a tree at `root` would consist of.
  lemma OwnedSet(pages: seq<Page>, free: seq<nat>, root: nat) returns (owned: set<nat>)
    requires HasOldTree(pages, free, root)
    ensures root in owned && root < |pages|
    ensures forall x :: x in owned ==> PageFacts(pages, free, root, owned, x)
  {
    var t :| IsOldTree(pages, free, root, t);
    assert t in Subtrees(t) && NodeOk(pages, free, root, t);
    owned := NodePages(t);
    forall x | x in owned ensures PageFacts(pages, free, root, owned, x) {
      TreeFacts(pages, free, root, t, x);
    }
  }

  lemma OnlyTree(pages: seq<Page>, free: seq<nat>, root: nat, t: Tree, q: seq<nat>)
    requires t.page == root && Shape(pages, t)
    ensures forall s :: IsOldTree(pages, free, root, s) ==> s == t
  {
    forall s | IsOldTree(pages, free, root, s) ensures s == t {
      OldTreeShape(pages, free, root, s);
      ShapeUnique(pages, s, t);
    }
  }

  // The three phases.
  method WalkTree(pages: seq<Page>, free: seq<nat>, root: nat) returns (ok: bool, owned: seq<nat>)
    requires root < |pages| <= INVALID_PAGE_NUM
    ensures ok <==> HasOldTree(pages, free, root)
    ensures ok ==> owned != [] && owned[0] == root && Distinct(owned)
    ensures ok ==> forall t :: IsOldTree(pages, free, root, t) ==>
      multiset(owned) == PageBag(t) && Elements(owned) == NodePages(t)
    ensures !ok ==> owned == []
  {
    owned := [];
    ghost var has, candidates := HasOldTree(pages, free, root), {};
    if has {
      candidates := OwnedSet(pages, free, root);
    }
    var queue, slots, count, leafCount;
    ghost var st;
    ok, queue, slots, count, leafCount, st := Enqueue(pages, free, root, has, candidates);
    if !ok {
      return;
    }
    ghost var q, marks := queue[..count], slots[..];
    TraversedIsWalked(pages, free, root, marks, q, st);
    QueueIsTheTree(pages, q, st);
    ghost var t := SubTree(pages, q, st, 0);
    OnlyTree(pages, free, root, t, q);
    ok := ResolveRanges(pages, queue, slots, count, leafCount, free, root, q, st);
    if !ok {
      return;
    }
    KnowLeaves(pages, free, root, marks, slots[..], q, st);
    ok := CheckChain(root, queue, slots, count, leafCount, pages, q, LeavesOf(t));
    if ok {
      assert IsOldTree(pages, free, root, t);
      owned := queue[..count];
    }
  }

  // The walk accepts exactly the roots of well-formed trees, and then its queue
  // lists each page of the tree once.
  method CollectOwnership(pager: Pager, root: nat, allowPageZeroRoot: bool) returns (ok: bool, owned: seq<nat>)
    requires pager.Valid()
    ensures ok <==>
      && pager.inTransaction
      && (root == 0 ==> allowPageZeroRoot)
      && |pager.free| <= |pager.pages|
      && HasOldTree(pager.pages, pager.free, root)
    ensures ok ==> owned != [] && owned[0] == root && Distinct(owned)
    ensures ok ==> forall t :: IsOldTree(pager.pages, pager.free, root, t) ==>
      multiset(owned) == PageBag(t) && Elements(owned) == NodePages(t)
    ensures !ok ==> owned == []
  {
    if HasOldTree(pager.pages, pager.free, root) {
      ghost var t :| IsOldTree(pager.pages, pager.free, root, t);
      assert t in Subtrees(t) && NodeOk(pager.pages, pager.free, root, t);
    }
    if !pager.inTransaction || root == INVALID_PAGE_NUM || (root == 0 && !allowPageZeroRoot)
       || |pager.free| > |pager.pages| || root >= |pager.pages| || root in pager.free {
      return false, [];
    }
    ok, owned := WalkTree(pager.pages, pager.free, root);
  }

  lemma OldTreeShape(pages: seq<Page>, free: seq<nat>, root: nat, t: Tree)
    requires IsOldTree(pages, free, root, t)
    ensures Shape(pages, t)
  {
    forall s | s in Subtrees(t) ensures NodeMatches(pages, s) {
      assert NodeOk(pages, free, root, s);
    }
  }

  // The pages met by following `next` from page `p`, at most `n` of them.
  function Follow(pages: seq<Page>, p: nat, n: nat): seq<nat>
    decreases n
  {
    if n == 0 || p >= |pages| then []
    else if pages[p].next == 0 then [p]
    else [p] + Follow(pages, pages[p].next, n - 1)
  }

  lemma {:induction false} FollowChained(pages: seq<Page>, leaves: seq<nat>, i: nat, n: nat)
    requires Chained(pages, leaves) && i < |leaves| <= i + n
    requires forall k :: 1 <= k < |leaves| ==> leaves[k] != 0
    ensures Follow(pages, leaves[i], n) == leaves[i..]
    decreases |leaves| - i
  {
    assert LinkedAt(pages, leaves, i);
    if i + 1 < |leaves| {
      FollowChained(pages, leaves, i + 1, n - 1);
      assert leaves[i..] == [leaves[i]] + leaves[i + 1..];
    } else {
      assert leaves[i..] == [leaves[i]];
    }
  }

  // A sibling scan of an accepted tree meets every leaf once, left to right,
  // and no key is followed by a smaller one.
  lemma SiblingScanIsInOrder(pages: seq<Page>, free: seq<nat>, root: nat, t: Tree, n: nat)
    requires IsOldTree(pages, free, root, t) && |LeavesOf(t)| <= n
    ensures LeavesOf(t) != [] && Follow(pages, LeavesOf(t)[0], n) == LeavesOf(t)
    ensures forall i, j :: 0 <= i < j < |LeavesOf(t)| ==>
      LeavesOf(t)[i] < |pages| && LeavesOf(t)[j] < |pages|
      && pages[LeavesOf(t)[i]].LastKey() < pages[LeavesOf(t)[j]].FirstKey()
  {
    var leaves := LeavesOf(t);
    LeavesSpan(pages, free, root, t);
    forall k | 1 <= k < |leaves| ensures leaves[k] != 0 {
      assert LinkedAt(pages, leaves, k - 1) && LinkedAt(pages, leaves, k);
      LeavesAreSubtrees(t, leaves[k]);
      var s :| s in Subtrees(t) && s.kids == [] && s.page == leaves[k];
      if s == t {
        assert leaves == [t.page];
      } else {
        NonRootNonZero(pages, free, root, t, s);
      }
    }
    FollowChained(pages, leaves, 0, n);
    assert leaves[0..] == leaves;
  }

  lemma {:induction false} NonRootNonZero(pages: seq<Page>, free: seq<nat>, root: nat, t: Tree, s: Tree)
    requires SubtreeOk(pages, free, root, t) && s in Subtrees(t) && s != t
    ensures s.page != 0 && s.page != root
    decreases t
  {
    assert NodeOk(pages, free, root, t);
    var k :| 0 <= k < |t.kids| && s in Subtrees(t.kids[k]);
    assert KidOk(pages, root, t, k);
    if s != t.kids[k] {
      KidIsSubtree(t, t, k);
      SubtreesTransitive(t, t.kids[k]);
      NonRootNonZero(pages, free, root, t.kids[k], s);
    }
  }
}
