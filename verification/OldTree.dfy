/** What it means for a page to be the root of a well-formed fixed-V1 tree: the
    reference definition the recovery walk (src/fixed_v1_tree_reclaim.h:81-361)
    is compared with. */
module OldTree {
  import opened Pages
  import opened Trees

  ghost function MinKey(pages: seq<Page>, t: Tree): nat {
    if t.kids != [] then MinKey(pages, t.kids[0])
    else if t.page < |pages| then pages[t.page].FirstKey()
    else 0
  }

  ghost function MaxKey(pages: seq<Page>, t: Tree): nat {
    if t.kids != [] then MaxKey(pages, t.kids[|t.kids| - 1])
    else if t.page < |pages| then pages[t.page].LastKey()
    else 0
  }

  // The header of the root, and of everybody else.
  predicate HeaderOk(p: Page, isRoot: bool) {
    && !p.kind.Unknown?
    && (if isRoot then p.isRoot && p.parent == 0 else !p.isRoot)
  }

  predicate LeafOk(p: Page, isRoot: bool) {
    && |p.keys| <= LEAF_NODE_MAX_CELLS
    && (p.keys == [] ==> isRoot)
    && Increasing(p.keys)
  }

  // A kid carries the right parent, lies above the kid to its left, and the
  // separator next to it is the largest key below it.
  ghost predicate KidOk(pages: seq<Page>, root: nat, t: Tree, k: nat) {
    && k < |t.kids| && t.page < |pages|
    && t.kids[k].page != 0 && t.kids[k].page != root && t.kids[k].page < |pages|
    && pages[t.kids[k].page].parent == t.page
    && (k < |pages[t.page].cells| ==> pages[t.page].cells[k].key == MaxKey(pages, t.kids[k]))
    && (k > 0 ==> MaxKey(pages, t.kids[k - 1]) < MinKey(pages, t.kids[k]))
  }

  ghost predicate NodeOk(pages: seq<Page>, free: seq<nat>, root: nat, t: Tree) {
    && NodeMatches(pages, t)
    && t.page !in free
    && HeaderOk(pages[t.page], t.page == root)
    && (pages[t.page].kind.Leaf? ==> LeafOk(pages[t.page], t.page == root))
    && (pages[t.page].kind.Internal? ==>
          && 1 <= |pages[t.page].cells| <= INTERNAL_NODE_MAX_KEYS
          && forall k :: 0 <= k < |t.kids| ==> KidOk(pages, root, t, k))
  }

  // Sibling links of the leaves, left to right; 0 marks either end.
  predicate LinkedAt(pages: seq<Page>, leaves: seq<nat>, i: nat)
    requires i < |leaves|
  {
    && leaves[i] < |pages|
    && pages[leaves[i]].prev == (if i == 0 then 0 else leaves[i - 1])
    && pages[leaves[i]].next == (if i + 1 == |leaves| then 0 else leaves[i + 1])
  }

  predicate Chained(pages: seq<Page>, leaves: seq<nat>) {
    forall i :: 0 <= i < |leaves| ==> LinkedAt(pages, leaves, i)
  }

  lemma LinksInRange(pages: seq<Page>, leaves: seq<nat>, i: nat)
    requires Chained(pages, leaves) && i < |leaves|
    ensures leaves[i] < |pages| && pages[leaves[i]].prev < |pages| && pages[leaves[i]].next < |pages|
  {
    assert LinkedAt(pages, leaves, i);
    assert i > 0 ==> LinkedAt(pages, leaves, i - 1);
    assert i + 1 < |leaves| ==> LinkedAt(pages, leaves, i + 1);
  }

  ghost predicate IsOldTree(pages: seq<Page>, free: seq<nat>, root: nat, t: Tree) {
    && t.page == root
    && (forall s :: s in Subtrees(t) ==> NodeOk(pages, free, root, s))
    && Chained(pages, LeavesOf(t))
  }

  ghost predicate HasOldTree(pages: seq<Page>, free: seq<nat>, root: nat) {
    exists t :: IsOldTree(pages, free, root, t)
  }

  lemma {:induction false} MinLeMax(pages: seq<Page>, free: seq<nat>, root: nat, t: Tree)
    requires t.page != root
    requires forall s :: s in Subtrees(t) ==> NodeOk(pages, free, root, s)
    ensures MinKey(pages, t) <= MaxKey(pages, t)
    decreases t
  {
    assert NodeOk(pages, free, root, t);
    if t.kids != [] {
      KidsSpan(pages, free, root, t, 0, |t.kids| - 1);
    }
  }

  lemma KidsAreOk(pages: seq<Page>, free: seq<nat>, root: nat, t: Tree, k: nat)
    requires k < |t.kids| && forall s :: s in Subtrees(t) ==> NodeOk(pages, free, root, s)
    ensures KidOk(pages, root, t, k)
    ensures forall s :: s in Subtrees(t.kids[k]) ==> NodeOk(pages, free, root, s)
  {
    assert NodeOk(pages, free, root, t) && pages[t.page].kind.Internal?;
    KidIsSubtree(t, t, k);
    SubtreesTransitive(t, t.kids[k]);
  }

  lemma {:induction false} KidsSpan(pages: seq<Page>, free: seq<nat>, root: nat, t: Tree, i: nat, j: nat)
    requires i <= j < |t.kids|
    requires forall s :: s in Subtrees(t) ==> NodeOk(pages, free, root, s)
    ensures MinKey(pages, t.kids[i]) <= MaxKey(pages, t.kids[j])
    ensures i < j ==> MaxKey(pages, t.kids[i]) < MinKey(pages, t.kids[j])
    decreases t, j
  {
    assert NodeOk(pages, free, root, t);
    KidsAreOk(pages, free, root, t, j);
    MinLeMax(pages, free, root, t.kids[j]);
    if i < j {
      KidsSpan(pages, free, root, t, i, j - 1);
      KidsSpan(pages, free, root, t, j - 1, j - 1);
    }
  }

  lemma KidsDistinct(pages: seq<Page>, free: seq<nat>, root: nat, t: Tree)
    requires t.page < |pages|
    requires forall s :: s in Subtrees(t) ==> NodeOk(pages, free, root, s)
    ensures Distinct(pages[t.page].Edges())
  {
    assert NodeOk(pages, free, root, t);
    var e := pages[t.page].Edges();
    forall i, j | 0 <= i < j < |e| ensures e[i] != e[j] {
      assert t.kids[i].page == e[i] && t.kids[j].page == e[j];
      KidsSpan(pages, free, root, t, i, j);
      KidsSpan(pages, free, root, t, j, j);
      KidsSpan(pages, free, root, t, i, i);
      KidIsSubtree(t, t, i);
      KidIsSubtree(t, t, j);
      SubtreesTransitive(t, t.kids[i]);
      SubtreesTransitive(t, t.kids[j]);
      if e[i] == e[j] {
        ShapeUnique(pages, t.kids[i], t.kids[j]);
        assert false;
      }
    }
  }

  // Everything the tree promises about one of its pages.
  ghost predicate PageFacts(pages: seq<Page>, free: seq<nat>, root: nat, owned: set<nat>, p: nat) {
    && p < |pages| && p !in free
    && HeaderOk(pages[p], p == root)
    && (pages[p].kind.Leaf? ==>
          && LeafOk(pages[p], p == root)
          && pages[p].prev < |pages| && pages[p].next < |pages|)
    && (pages[p].kind.Internal? ==>
          && 1 <= |pages[p].cells| <= INTERNAL_NODE_MAX_KEYS
          && Increasing(pages[p].Separators())
          && Distinct(pages[p].Edges()))
    && (forall e :: e in pages[p].Edges() ==>
          e in owned && e != 0 && e != root && e < |pages| && pages[e].parent == p)
  }

  lemma TreeFacts(pages: seq<Page>, free: seq<nat>, root: nat, t: Tree, p: nat)
    requires IsOldTree(pages, free, root, t) && p in NodePages(t)
    ensures PageFacts(pages, free, root, NodePages(t), p)
  {
    var s :| s in Subtrees(t) && s.page == p;
    assert NodeOk(pages, free, root, s);
    SubtreesTransitive(t, s);
    EdgeFacts(pages, free, root, t, s);
    if pages[p].kind.Leaf? {
      LeavesAreSubtrees(t, p);
      var leaves := LeavesOf(t);
      var i :| 0 <= i < |leaves| && leaves[i] == p;
      LinksInRange(pages, leaves, i);
    } else {
      SeparatorsRise(pages, free, root, s);
    }
  }

  lemma EdgeFacts(pages: seq<Page>, free: seq<nat>, root: nat, t: Tree, s: Tree)
    requires s in Subtrees(t) && forall s' :: s' in Subtrees(s) ==> NodeOk(pages, free, root, s')
    ensures s.page < |pages| && Distinct(pages[s.page].Edges())
    ensures forall e :: e in pages[s.page].Edges() ==>
      e in NodePages(t) && e != 0 && e != root && e < |pages| && pages[e].parent == s.page
  {
    assert NodeOk(pages, free, root, s);
    KidsDistinct(pages, free, root, s);
    forall k | 0 <= k < |s.kids| ensures s.kids[k].page in NodePages(t) && KidOk(pages, root, s, k) {
      KidIsSubtree(t, s, k);
    }
  }

  lemma SeparatorsRise(pages: seq<Page>, free: seq<nat>, root: nat, s: Tree)
    requires s.page < |pages| && pages[s.page].kind.Internal?
    requires forall s' :: s' in Subtrees(s) ==> NodeOk(pages, free, root, s')
    ensures Increasing(pages[s.page].Separators())
  {
    assert NodeOk(pages, free, root, s);
    var keys := pages[s.page].Separators();
    forall i, j | 0 <= i < j < |keys| ensures keys[i] < keys[j] {
      KidsSpan(pages, free, root, s, i, j);
      KidsSpan(pages, free, root, s, j, j);
      assert KidOk(pages, root, s, i) && KidOk(pages, root, s, j);
    }
  }

  // The leaves of a tree, or of its kids from `from` on, cover increasing key
  // ranges between the smallest and the largest key.
  ghost predicate Spans(pages: seq<Page>, leaves: seq<nat>, lo: nat, hi: nat) {
    && leaves != []
    && (forall i :: 0 <= i < |leaves| ==> leaves[i] < |pages|)
    && pages[leaves[0]].FirstKey() == lo && pages[leaves[|leaves| - 1]].LastKey() == hi
    && (forall i :: 0 <= i < |leaves| ==> lo <= pages[leaves[i]].FirstKey() <= pages[leaves[i]].LastKey() <= hi)
    && (forall i, j :: 0 <= i < j < |leaves| ==> pages[leaves[i]].LastKey() < pages[leaves[j]].FirstKey())
  }

  lemma {:induction false} LeavesSpan(pages: seq<Page>, free: seq<nat>, root: nat, t: Tree)
    requires forall s :: s in Subtrees(t) ==> NodeOk(pages, free, root, s)
    ensures Spans(pages, LeavesOf(t), MinKey(pages, t), MaxKey(pages, t))
    decreases t, |t.kids| + 1
  {
    assert NodeOk(pages, free, root, t);
    if t.kids != [] {
      KidLeavesSpan(pages, free, root, t, 0);
      assert t.kids[0..] == t.kids;
    }
  }

  lemma {:induction false} KidLeavesSpan(pages: seq<Page>, free: seq<nat>, root: nat, t: Tree, from: nat)
    requires from < |t.kids|
    requires forall s :: s in Subtrees(t) ==> NodeOk(pages, free, root, s)
    ensures Spans(pages, ForestLeaves(t.kids[from..]), MinKey(pages, t.kids[from]), MaxKey(pages, t.kids[|t.kids| - 1]))
    decreases t, |t.kids| - from
  {
    assert NodeOk(pages, free, root, t);
    KidIsSubtree(t, t, from);
    SubtreesTransitive(t, t.kids[from]);
    LeavesSpan(pages, free, root, t.kids[from]);
    var head, rest := LeavesOf(t.kids[from]), ForestLeaves(t.kids[from + 1..]);
    assert t.kids[from..][1..] == t.kids[from + 1..];
    if from + 1 < |t.kids| {
      KidLeavesSpan(pages, free, root, t, from + 1);
      KidsSpan(pages, free, root, t, from, from + 1);
      SpansConcat(pages, head, rest, MinKey(pages, t.kids[from]), MaxKey(pages, t.kids[from]),
                  MinKey(pages, t.kids[from + 1]), MaxKey(pages, t.kids[|t.kids| - 1]));
    } else {
      assert head + rest == head;
    }
  }

  lemma SpansConcat(pages: seq<Page>, a: seq<nat>, b: seq<nat>, lo: nat, mid: nat, mid': nat, hi: nat)
    requires Spans(pages, a, lo, mid) && Spans(pages, b, mid', hi) && mid < mid'
    ensures Spans(pages, a + b, lo, hi)
  {
  }
}
