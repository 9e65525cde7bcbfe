/** What the hierarchy check leaves open (src/compact_v2_staging_hierarchy.h:168-308):
    it compares the largest keys of neighbouring subtrees only, so subtrees may
    interleave.  Exactly when an accepted hierarchy keeps the leaves in chain order,
    and a smallest one that does not. */
module StagingDisorder {
  import opened Pages
  import opened Trees
  import opened SlottedLeaves
  import opened LeafChains
  import opened StagingGeometry
  import opened StagingTree
  import opened StagingSound
  import opened StagingLayout
  import opened StagingOrder

  // Leaves by their place in the chain.
  ghost predicate Rising(nums: seq<nat>, leaves: seq<nat>) {
    forall i, j :: 0 <= i < j < |leaves| ==> Find(nums, leaves[i]) < Find(nums, leaves[j])
  }

  lemma RisingConcat(nums: seq<nat>, a: seq<nat>, b: seq<nat>)
    requires a != [] && b != []
    ensures Rising(nums, a + b) <==>
      Rising(nums, a) && Rising(nums, b) && Find(nums, a[|a| - 1]) < Find(nums, b[0])
  {
    var c := a + b;
    assert forall i :: 0 <= i < |a| ==> c[i] == a[i];
    assert forall i :: 0 <= i < |b| ==> c[|a| + i] == b[i];
    if Rising(nums, c) {
      assert c[|a| - 1] == a[|a| - 1] && c[|a|] == b[0];
      forall i, j | 0 <= i < j < |b| ensures Find(nums, b[i]) < Find(nums, b[j]) {
        assert c[|a| + i] == b[i] && c[|a| + j] == b[j];
      }
    }
  }

  lemma {:induction false} SomeLeaf(t: Tree)
    ensures LeavesOf(t) != []
    decreases t
  {
    if t.kids != [] {
      SomeLeaf(t.kids[0]);
    }
  }

  // The leaves of `a` come before those of `b`.
  ghost predicate Ascend(nums: seq<nat>, a: Tree, b: Tree) {
    var left, right := LeavesOf(a), LeavesOf(b);
    left != [] && right != [] && Find(nums, left[|left| - 1]) < Find(nums, right[0])
  }

  ghost predicate KidsAscend(nums: seq<nat>, f: seq<Tree>) {
    forall k :: 0 < k < |f| ==> Ascend(nums, f[k - 1], f[k])
  }

  ghost predicate EachRises(nums: seq<nat>, f: seq<Tree>) {
    forall k :: 0 <= k < |f| ==> Rising(nums, LeavesOf(f[k]))
  }

  lemma ForestParts(nums: seq<nat>, f: seq<Tree>)
    requires |f| > 1
    ensures EachRises(nums, f) <==> Rising(nums, LeavesOf(f[0])) && EachRises(nums, f[1..])
    ensures KidsAscend(nums, f) <==> Ascend(nums, f[0], f[1]) && KidsAscend(nums, f[1..])
  {
    var g := f[1..];
    if Rising(nums, LeavesOf(f[0])) && EachRises(nums, g) {
      forall k | 0 <= k < |f| ensures Rising(nums, LeavesOf(f[k])) {
        assert k > 0 ==> g[k - 1] == f[k];
      }
    }
    if Ascend(nums, f[0], f[1]) && KidsAscend(nums, g) {
      forall k | 0 < k < |f| ensures Ascend(nums, f[k - 1], f[k]) {
        assert k > 1 ==> g[k - 2] == f[k - 1] && g[k - 1] == f[k];
      }
    }
    if EachRises(nums, f) {
      forall k | 0 <= k < |g| ensures Rising(nums, LeavesOf(g[k])) {
        assert g[k] == f[k + 1];
      }
    }
    if KidsAscend(nums, f) {
      forall k | 0 < k < |g| ensures Ascend(nums, g[k - 1], g[k]) {
        assert g[k] == f[k + 1] && g[k - 1] == f[k];
        assert Ascend(nums, f[k + 1 - 1], f[k + 1]);
      }
    }
  }

  lemma {:induction false} ForestRises(nums: seq<nat>, f: seq<Tree>)
    requires f != []
    ensures ForestLeaves(f) != [] && LeavesOf(f[0]) != [] && ForestLeaves(f)[0] == LeavesOf(f[0])[0]
    ensures Rising(nums, ForestLeaves(f)) <==> EachRises(nums, f) && KidsAscend(nums, f)
    decreases |f|
  {
    SomeLeaf(f[0]);
    if |f| == 1 {
      assert f[1..] == [];
      assert ForestLeaves(f) == LeavesOf(f[0]);
    } else {
      ForestRises(nums, f[1..]);
      RisingConcat(nums, LeavesOf(f[0]), ForestLeaves(f[1..]));
      ForestParts(nums, f);
    }
  }

  ghost predicate AllAscend(nums: seq<nat>, t: Tree) {
    forall u :: u in Subtrees(t) ==> KidsAscend(nums, u.kids)
  }

  lemma AllAscendParts(nums: seq<nat>, t: Tree)
    ensures AllAscend(nums, t) <==>
      KidsAscend(nums, t.kids) && forall k :: 0 <= k < |t.kids| ==> AllAscend(nums, t.kids[k])
  {
    assert t in Subtrees(t);
    if AllAscend(nums, t) {
      forall k | 0 <= k < |t.kids| ensures AllAscend(nums, t.kids[k]) {
        KidIsSubtree(t, t, k);
        SubtreesTransitive(t, t.kids[k]);
      }
    }
    if KidsAscend(nums, t.kids) && forall k :: 0 <= k < |t.kids| ==> AllAscend(nums, t.kids[k]) {
      forall u | u in Subtrees(t) ensures KidsAscend(nums, u.kids) {
        if u != t {
          var k :| 0 <= k < |t.kids| && u in Subtrees(t.kids[k]);
        }
      }
    }
  }

  // The leaves rise if and only if they do from child to child everywhere.
  lemma {:induction false} TreeRises(nums: seq<nat>, t: Tree)
    ensures Rising(nums, LeavesOf(t)) <==> AllAscend(nums, t)
    decreases t
  {
    AllAscendParts(nums, t);
    if t.kids != [] {
      ForestRises(nums, t.kids);
      forall k | 0 <= k < |t.kids| ensures Rising(nums, LeavesOf(t.kids[k])) <==> AllAscend(nums, t.kids[k]) {
        TreeRises(nums, t.kids[k]);
      }
    }
  }

  // The outermost leaves below a node.

  ghost function FirstLeaf(s: Staging, id: nat): (leaf: nat)
    requires Good(s) && id < |s.nums|
    ensures leaf < s.LeafCount()
    decreases |s.nums| - s.LeafCount() - Rank(s, id)
  {
    if id < s.LeafCount() then id
    else
      KidFacts(s, id, 0);
      FirstLeaf(s, KidId(s, id, 0))
  }

  ghost function LastLeaf(s: Staging, id: nat): (leaf: nat)
    requires Good(s) && id < |s.nums|
    ensures leaf < s.LeafCount()
    decreases |s.nums| - s.LeafCount() - Rank(s, id)
  {
    if id < s.LeafCount() then id
    else
      KidFacts(s, id, |s.images[id].cells|);
      LastLeaf(s, KidId(s, id, |s.images[id].cells|))
  }

  lemma KidTree(s: Staging, id: nat, k: nat)
    requires Good(s) && s.LeafCount() <= id < |s.nums| && k <= |s.images[id].cells|
    ensures KidGood(s, id, k)
    ensures var t := TreeAt(s, id); |t.kids| == |s.images[id].cells| + 1 && t.kids[k] == TreeAt(s, KidId(s, id, k))
  {
    KidFacts(s, id, k);
  }

  lemma {:induction false} LastOfForest(f: seq<Tree>)
    requires f != []
    ensures ForestLeaves(f) != [] && LeavesOf(f[|f| - 1]) != []
    ensures ForestLeaves(f)[|ForestLeaves(f)| - 1] == LeavesOf(f[|f| - 1])[|LeavesOf(f[|f| - 1])| - 1]
    decreases |f|
  {
    SomeLeaf(f[|f| - 1]);
    if |f| == 1 {
      assert f[1..] == [];
    } else {
      LastOfForest(f[1..]);
    }
  }

  ghost predicate EndsAre(leaves: seq<nat>, first: nat, last: nat) {
    leaves != [] && leaves[0] == first && leaves[|leaves| - 1] == last
  }

  lemma EndsOfTree(nums: seq<nat>, t: Tree, n: nat, first: nat, mid: nat, mid': nat, last: nat)
    requires |t.kids| == n + 1
    requires EndsAre(LeavesOf(t.kids[0]), first, mid) && EndsAre(LeavesOf(t.kids[n]), mid', last)
    ensures EndsAre(LeavesOf(t), first, last)
  {
    ForestRises(nums, t.kids);
    LastOfForest(t.kids);
  }

  lemma {:induction false} LeafEnds(s: Staging, id: nat)
    requires Good(s) && id < |s.nums|
    ensures EndsAre(LeavesOf(TreeAt(s, id)), s.nums[FirstLeaf(s, id)], s.nums[LastLeaf(s, id)])
    decreases |s.nums| - s.LeafCount() - Rank(s, id)
  {
    if id >= s.LeafCount() {
      var n := |s.images[id].cells|;
      KidTree(s, id, 0);
      KidTree(s, id, n);
      var a, b := KidId(s, id, 0), KidId(s, id, n);
      LeafEnds(s, a);
      LeafEnds(s, b);
      EndsOfTree(s.nums, TreeAt(s, id), n, s.nums[FirstLeaf(s, a)], s.nums[LastLeaf(s, a)],
                 s.nums[FirstLeaf(s, b)], s.nums[LastLeaf(s, b)]);
    }
  }

  // The largest key the check finds below a node is the last key of its last leaf.
  lemma {:induction false} MaxIsLast(s: Staging, id: nat, depth: nat)
    requires Good(s) && id < |s.nums| && SubtreeMax(s, s.nums[id], depth).Max?
    ensures s.images[LastLeaf(s, id)].keys != []
    ensures SubtreeMax(s, s.nums[id], depth) == Max(s.images[LastLeaf(s, id)].LastKey())
    decreases |s.nums| - s.LeafCount() - Rank(s, id)
  {
    Numbered(s, id);
    if id >= s.LeafCount() {
      var n := |s.images[id].cells|;
      KidFacts(s, id, n);
      MaxIsLast(s, KidId(s, id, n), depth + 1);
    }
  }

  // Separator `k - 1` is the last key below child `k - 1`.
  lemma SeparatorIsLast(s: Staging, id: nat, k: nat)
    requires Good(s) && s.LeafCount() <= id < |s.nums| && k <= |s.images[id].cells|
    ensures KidGood(s, id, k) && s.images[LastLeaf(s, KidId(s, id, k))].keys != []
    ensures k < |s.images[id].cells| ==>
      s.images[id].cells[k].key == s.images[LastLeaf(s, KidId(s, id, k))].LastKey()
    ensures k > 0 ==>
      s.images[id].cells[k - 1].key < s.images[LastLeaf(s, KidId(s, id, k))].LastKey()
  {
    KidFacts(s, id, k);
    assert NodeAccepted(s, id);
    assert ChildAccepted(s, s.nums[id], s.images[id], k);
    MaxIsLast(s, KidId(s, id, k), 0);
  }

  // Every leaf holds a row, and keys tell leaves apart by their place.
  lemma LeafHasKeys(s: Staging, i: nat)
    requires Good(s) && i < s.LeafCount()
    ensures s.images[i] == s.chain.leaves[i] && s.images[i].keys != [] && Increasing(s.images[i].keys)
  {
    RootIsInternal(s);
    ChildOnce(s, i);
    var c := s.images[ParentId(s, i)].Children();
    var k :| 0 <= k < |c| && c[k] == s.nums[i];
    SeparatorIsLast(s, ParentId(s, i), k);
    Numbered(s, i);
    assert s.images[i] == s.images[..s.LeafCount()][i];
    assert LeafInChain(s.chain.leaves, s.chain.numbers, i);
  }

  lemma KeysTellPlace(s: Staging, i: nat, j: nat)
    requires Good(s) && i < s.LeafCount() && j < s.LeafCount()
    ensures s.images[i].LastKey() < s.images[j].FirstKey() <==> i < j
    ensures s.images[i].LastKey() < s.images[j].LastKey() <==> i < j
  {
    LeafHasKeys(s, i);
    LeafHasKeys(s, j);
    FirstIsLeast(s.images[i].keys, 0);
    FirstIsLeast(s.images[j].keys, 0);
    if i < j {
      LeavesInOrder(s.chain.leaves, s.chain.numbers, i, j);
    } else if j < i {
      LeavesInOrder(s.chain.leaves, s.chain.numbers, j, i);
    }
  }

  // The first row below child `k` lies above the separator before it.
  ghost predicate Separated(s: Staging, id: nat, k: nat)
    requires Good(s) && s.LeafCount() <= id < |s.nums| && 0 < k <= |s.images[id].cells|
  {
    && KidGood(s, id, k)
    && s.images[id].cells[k - 1].key < s.images[FirstLeaf(s, KidId(s, id, k))].FirstKey()
  }

  ghost predicate AllSeparated(s: Staging)
    requires Good(s)
  {
    forall id, k :: s.LeafCount() <= id < |s.nums| && 0 < k <= |s.images[id].cells| ==> Separated(s, id, k)
  }

  lemma SeparatedByPlace(s: Staging, id: nat, k: nat)
    requires Good(s) && s.LeafCount() <= id < |s.nums| && 0 < k <= |s.images[id].cells|
    ensures KidGood(s, id, k - 1) && KidGood(s, id, k)
    ensures Separated(s, id, k) <==> LastLeaf(s, KidId(s, id, k - 1)) < FirstLeaf(s, KidId(s, id, k))
  {
    KidFacts(s, id, k);
    SeparatorIsLast(s, id, k - 1);
    KeysTellPlace(s, LastLeaf(s, KidId(s, id, k - 1)), FirstLeaf(s, KidId(s, id, k)));
  }

  lemma AscendByPlace(s: Staging, a: nat, b: nat)
    requires Good(s) && a < |s.nums| && b < |s.nums|
    ensures Ascend(s.nums, TreeAt(s, a), TreeAt(s, b)) <==> LastLeaf(s, a) < FirstLeaf(s, b)
  {
    LeafEnds(s, a);
    LeafEnds(s, b);
    Numbered(s, LastLeaf(s, a));
    Numbered(s, FirstLeaf(s, b));
  }

  lemma SeparatedMeans(s: Staging, id: nat, k: nat)
    requires Good(s) && s.LeafCount() <= id < |s.nums| && 0 < k <= |s.images[id].cells|
    ensures |TreeAt(s, id).kids| == |s.images[id].cells| + 1
    ensures Separated(s, id, k) <==> Ascend(s.nums, TreeAt(s, id).kids[k - 1], TreeAt(s, id).kids[k])
  {
    SeparatedByPlace(s, id, k);
    KidTree(s, id, k - 1);
    KidTree(s, id, k);
    var left, right := TreeAt(s, id).kids[k - 1], TreeAt(s, id).kids[k];
    AscendOfTrees(s, KidId(s, id, k - 1), KidId(s, id, k), left, right);
  }

  lemma AscendOfTrees(s: Staging, a: nat, b: nat, left: Tree, right: Tree)
    requires Good(s) && a < |s.nums| && b < |s.nums| && left == TreeAt(s, a) && right == TreeAt(s, b)
    ensures Ascend(s.nums, left, right) <==> LastLeaf(s, a) < FirstLeaf(s, b)
  {
    AscendByPlace(s, a, b);
  }

  // Walking down from the root meets the leaves in chain order.
  ghost predicate LeavesKeepOrder(s: Staging)
    requires Good(s)
  {
    s.rootId < |s.nums| && LeavesOf(TreeAt(s, s.rootId)) == s.nums[..s.LeafCount()]
  }

  lemma EveryNodeIsBelow(s: Staging, x: nat)
    requires Good(s) && x < |s.nums|
    ensures s.rootId < |s.nums| && TreeAt(s, x) in Subtrees(TreeAt(s, s.rootId))
  {
    AcceptedIsATree(s);
    assert s.nums[x] in multiset(s.nums);
    var u := HolderOfPage(TreeAt(s, s.rootId), s.nums[x]);
    var y := NodesOfTree(s, s.rootId, u);
    SamePage(s, x, y);
  }

  lemma LeavesAre(s: Staging, x: nat)
    requires Good(s)
    ensures s.rootId < |s.nums| && (x in LeavesOf(TreeAt(s, s.rootId)) <==> x in s.nums[..s.LeafCount()])
  {
    RootIsInternal(s);
    var t := TreeAt(s, s.rootId);
    LeavesAreSubtrees(t, x);
    if x in LeavesOf(t) {
      var u :| u in Subtrees(t) && u.kids == [] && u.page == x;
      var y := NodesOfTree(s, s.rootId, u);
      assert s.nums[..s.LeafCount()][y] == x;
    }
    if x in s.nums[..s.LeafCount()] {
      var y :| 0 <= y < s.LeafCount() && s.nums[..s.LeafCount()][y] == x;
      EveryNodeIsBelow(s, y);
    }
  }

  lemma OrderIsRising(s: Staging)
    requires Good(s)
    ensures s.rootId < |s.nums| && (LeavesKeepOrder(s) <==> Rising(s.nums, LeavesOf(TreeAt(s, s.rootId))))
  {
    RootIsInternal(s);
    var leaves, chain := LeavesOf(TreeAt(s, s.rootId)), s.nums[..s.LeafCount()];
    forall i | 0 <= i < |chain| ensures Find(s.nums, chain[i]) == i {
      Numbered(s, i);
    }
    if Rising(s.nums, leaves) {
      forall x ensures x in leaves <==> x in chain {
        LeavesAre(s, x);
      }
      SortedUnique(leaves, chain, (x, y) => Find(s.nums, x) < Find(s.nums, y));
    }
  }

  // An accepted hierarchy keeps the leaves in chain order if and only if in every
  // internal page the first row below each further child lies above the separator
  // before it.
  lemma OrderIff(s: Staging)
    requires Good(s)
    ensures LeavesKeepOrder(s) <==> AllSeparated(s)
  {
    OrderIsRising(s);
    var t := TreeAt(s, s.rootId);
    TreeRises(s.nums, t);
    if AllAscend(s.nums, t) {
      forall id, k | s.LeafCount() <= id < |s.nums| && 0 < k <= |s.images[id].cells| ensures Separated(s, id, k) {
        EveryNodeIsBelow(s, id);
        SeparatedMeans(s, id, k);
      }
    }
    if AllSeparated(s) {
      forall u | u in Subtrees(t) ensures KidsAscend(s.nums, u.kids) {
        var x := NodesOfTree(s, s.rootId, u);
        NodeKidsAscend(s, x);
      }
    }
  }

  lemma NodeKidsAscend(s: Staging, x: nat)
    requires Good(s) && AllSeparated(s) && x < |s.nums|
    ensures KidsAscend(s.nums, TreeAt(s, x).kids)
  {
    if x >= s.LeafCount() {
      KidTree(s, x, 0);
      forall k | 0 < k < |TreeAt(s, x).kids| ensures Ascend(s.nums, TreeAt(s, x).kids[k - 1], TreeAt(s, x).kids[k]) {
        SeparatedMeans(s, x, k);
        assert Separated(s, x, k);
      }
    }
  }

  // With a single internal page the check does keep the order.
  lemma SmallKeepsOrder(s: Staging)
    requires Good(s) && s.LeafCount() <= FANOUT
    ensures LeavesKeepOrder(s)
  {
    RootIsInternal(s);
    assert Parents(s.LeafCount(), FANOUT) == 1;
    assert InternalPages(s.LeafCount(), FANOUT) == 1 + InternalPages(1, FANOUT) == 1;
    forall id, k | s.LeafCount() <= id < |s.nums| && 0 < k <= |s.images[id].cells| ensures Separated(s, id, k) {
      assert id == s.rootId;
      SeparatedByPlace(s, id, k);
      SeparatorIsLast(s, id, k - 1);
      SeparatorIsLast(s, id, k);
      KeysTellPlace(s, KidId(s, id, k - 1), KidId(s, id, k));
    }
    OrderIff(s);
  }

  // Order and lookup.

  lemma {:induction false} DescentIsBelow(s: Staging, x: nat, key: nat)
    requires Good(s) && x < |s.nums|
    ensures Under(s, Descend(s, x, key), x)
    decreases |s.nums| - s.LeafCount() - Rank(s, x)
  {
    if x >= s.LeafCount() {
      var k := Route(s.images[x], key, 0);
      KidFacts(s, x, k);
      DescentIsBelow(s, KidId(s, x, k), key);
      BelowKidIsBelow(s, x, k, Descend(s, x, key));
    }
  }

  lemma {:induction false} FirstLeafIsBelow(s: Staging, x: nat)
    requires Good(s) && x < |s.nums|
    ensures Under(s, FirstLeaf(s, x), x)
    decreases |s.nums| - s.LeafCount() - Rank(s, x)
  {
    if x >= s.LeafCount() {
      KidFacts(s, x, 0);
      FirstLeafIsBelow(s, KidId(s, x, 0));
      BelowKidIsBelow(s, x, 0, FirstLeaf(s, x));
    }
  }

  lemma BelowKidIsBelow(s: Staging, x: nat, k: nat, y: nat)
    requires Good(s) && s.LeafCount() <= x < |s.nums| && k <= |s.images[x].cells| && y < |s.nums|
    requires KidGood(s, x, k) && Under(s, y, KidId(s, x, k))
    ensures Under(s, y, x)
  {
    AncestorStep(s, y, Rank(s, y) - Rank(s, KidId(s, x, k)));
  }

  // A descent that ends below `id` passes through `id`.
  lemma {:induction false} PassesThrough(s: Staging, x: nat, id: nat, key: nat)
    requires Good(s) && x < |s.nums| && id < |s.nums| && Rank(s, x) <= Rank(s, id)
    requires Under(s, Descend(s, x, key), id)
    ensures Descend(s, id, key) == Descend(s, x, key)
    decreases |s.nums| - s.LeafCount() - Rank(s, x)
  {
    DescentIsBelow(s, x, key);
    if x >= s.LeafCount() && Rank(s, x) < Rank(s, id) {
      var k := Route(s.images[x], key, 0);
      KidFacts(s, x, k);
      PassesThrough(s, KidId(s, x, k), id, key);
    }
  }

  // A key not above the separator before child `k` is not looked for there.
  lemma DescentStaysLeft(s: Staging, id: nat, k: nat, key: nat)
    requires Good(s) && s.LeafCount() <= id < |s.nums| && 0 < k <= |s.images[id].cells|
    requires key <= s.images[id].cells[k - 1].key
    ensures KidGood(s, id, k) && !Under(s, Descend(s, id, key), KidId(s, id, k))
  {
    var j := Route(s.images[id], key, 0);
    KidFacts(s, id, j);
    KidFacts(s, id, k);
    DescentIsBelow(s, KidId(s, id, j), key);
    ChildrenDiffer(s, id, j, k);
  }

  // Where child `k` is not separated, its first row is looked for further left.
  lemma FirstRowIsLost(s: Staging, id: nat, k: nat) returns (i: nat)
    requires Good(s) && s.LeafCount() <= id < |s.nums| && 0 < k <= |s.images[id].cells| && !Separated(s, id, k)
    ensures i < s.LeafCount() && s.rootId < |s.nums|
    ensures s.images[i].FirstKey() in s.images[i].keys && Descend(s, s.rootId, s.images[i].FirstKey()) != i
  {
    RootIsInternal(s);
    KidFacts(s, id, k);
    i := FirstLeaf(s, KidId(s, id, k));
    var key := s.images[i].FirstKey();
    LeafHasKeys(s, i);
    FirstLeafIsBelow(s, KidId(s, id, k));
    BelowKidIsBelow(s, id, k, i);
    DescentStaysLeft(s, id, k, key);
    if Descend(s, s.rootId, key) == i {
      Numbered(s, s.rootId);
      PassesThrough(s, s.rootId, id, key);
    }
  }

  lemma SubtreeRises(s: Staging, id: nat)
    requires Good(s) && AllSeparated(s) && id < |s.nums|
    ensures Rising(s.nums, LeavesOf(TreeAt(s, id)))
  {
    var t := TreeAt(s, id);
    forall u | u in Subtrees(t) ensures KidsAscend(s.nums, u.kids) {
      var x := NodesOfTree(s, id, u);
      NodeKidsAscend(s, x);
    }
    TreeRises(s.nums, t);
  }

  lemma RisingBetween(nums: seq<nat>, leaves: seq<nat>, first: nat, last: nat, x: nat)
    requires Rising(nums, leaves) && EndsAre(leaves, first, last) && x in leaves
    ensures Find(nums, first) <= Find(nums, x) <= Find(nums, last)
  {
  }

  lemma BetweenTheEnds(s: Staging, id: nat, i: nat)
    requires Good(s) && AllSeparated(s) && id < |s.nums| && i < s.LeafCount() && s.nums[i] in LeavesOf(TreeAt(s, id))
    ensures FirstLeaf(s, id) <= i <= LastLeaf(s, id)
  {
    SubtreeRises(s, id);
    LeafEnds(s, id);
    RisingBetween(s.nums, LeavesOf(TreeAt(s, id)), s.nums[FirstLeaf(s, id)], s.nums[LastLeaf(s, id)], s.nums[i]);
    Numbered(s, i);
    Numbered(s, FirstLeaf(s, id));
    Numbered(s, LastLeaf(s, id));
  }

  lemma {:induction false} LeafOfSomeKid(f: seq<Tree>, x: nat) returns (k: nat)
    requires x in ForestLeaves(f)
    ensures k < |f| && x in LeavesOf(f[k])
    decreases |f|
  {
    if x in LeavesOf(f[0]) {
      k := 0;
    } else {
      var j := LeafOfSomeKid(f[1..], x);
      k := j + 1;
    }
  }

  lemma KeyInLeaf(s: Staging, i: nat, key: nat)
    requires Good(s) && i < s.LeafCount() && key in s.images[i].keys
    ensures s.images[i].FirstKey() <= key <= s.images[i].LastKey()
  {
    LeafHasKeys(s, i);
    var m :| 0 <= m < |s.images[i].keys| && s.images[i].keys[m] == key;
    FirstIsLeast(s.images[i].keys, m);
  }

  // The keys of a leaf below child `k` lie between the separators around it.
  lemma KeysBetweenSeparators(s: Staging, id: nat, k: nat, i: nat, key: nat)
    requires Good(s) && AllSeparated(s) && s.LeafCount() <= id < |s.nums| && k <= |s.images[id].cells|
    requires i < s.LeafCount()
    requires KidGood(s, id, k) && s.nums[i] in LeavesOf(TreeAt(s, KidId(s, id, k))) && key in s.images[i].keys
    ensures k < |s.images[id].cells| ==> key <= s.images[id].cells[k].key
    ensures k > 0 ==> s.images[id].cells[k - 1].key < key
  {
    var kid := KidId(s, id, k);
    BetweenTheEnds(s, kid, i);
    SeparatorIsLast(s, id, k);
    KeyInLeaf(s, i, key);
    KeysTellPlace(s, LastLeaf(s, kid), i);
    FirstKeysTellPlace(s, FirstLeaf(s, kid), i);
    assert k > 0 ==> Separated(s, id, k);
  }

  // In a separated page the descent takes the child that leads to the leaf.
  lemma RouteToLeaf(s: Staging, id: nat, k: nat, i: nat, key: nat)
    requires Good(s) && AllSeparated(s) && s.LeafCount() <= id < |s.nums| && k <= |s.images[id].cells|
    requires i < s.LeafCount()
    requires KidGood(s, id, k) && s.nums[i] in LeavesOf(TreeAt(s, KidId(s, id, k))) && key in s.images[i].keys
    ensures Route(s.images[id], key, 0) == k
  {
    KeysBetweenSeparators(s, id, k, i, key);
    NodeKind(s, id);
    RouteIs(s.images[id], k, key);
  }

  lemma RouteIs(p: Page, k: nat, key: nat)
    requires Increasing(p.Separators()) && k <= |p.cells|
    requires (k < |p.cells| ==> key <= p.cells[k].key) && (k > 0 ==> p.cells[k - 1].key < key)
    ensures Route(p, key, 0) == k
  {
    forall i | 0 <= i < k ensures p.cells[i].key < key {
      assert p.Separators()[i] <= p.Separators()[k - 1];
    }
  }

  lemma FirstKeysTellPlace(s: Staging, i: nat, j: nat)
    requires Good(s) && i <= j < s.LeafCount()
    ensures s.images[i].FirstKey() <= s.images[j].FirstKey()
  {
    KeysTellPlace(s, i, j);
    LeafHasKeys(s, i);
    FirstIsLeast(s.images[i].keys, 0);
  }

  lemma {:induction false} DescentFinds(s: Staging, id: nat, i: nat, key: nat)
    requires Good(s) && AllSeparated(s) && id < |s.nums| && i < s.LeafCount()
    requires s.nums[i] in LeavesOf(TreeAt(s, id)) && key in s.images[i].keys
    ensures Descend(s, id, key) == i
    decreases |s.nums| - s.LeafCount() - Rank(s, id)
  {
    if id < s.LeafCount() {
      SamePage(s, id, i);
    } else {
      KidTree(s, id, 0);
      var k := LeafOfSomeKid(TreeAt(s, id).kids, s.nums[i]);
      KidTree(s, id, k);
      RouteToLeaf(s, id, k, i, key);
      DescentFinds(s, KidId(s, id, k), i, key);
    }
  }

  // Every stored row is found by descending from the root.
  ghost predicate EveryRowIsFound(s: Staging)
    requires Good(s)
  {
    && s.rootId < |s.nums|
    && forall i, key :: 0 <= i < s.LeafCount() && key in s.images[i].keys ==> Descend(s, s.rootId, key) == i
  }

  // Every row of an accepted hierarchy is found if and only if the leaves are in chain order.
  lemma LookupIff(s: Staging)
    requires Good(s)
    ensures EveryRowIsFound(s) <==> LeavesKeepOrder(s)
  {
    RootIsInternal(s);
    OrderIff(s);
    if AllSeparated(s) {
      forall i, key | 0 <= i < s.LeafCount() && key in s.images[i].keys ensures Descend(s, s.rootId, key) == i {
        assert s.nums[..s.LeafCount()][i] == s.nums[i];
        LeavesAre(s, s.nums[i]);
        DescentFinds(s, s.rootId, i, key);
      }
    }
    if EveryRowIsFound(s) {
      forall id, k | s.LeafCount() <= id < |s.nums| && 0 < k <= |s.images[id].cells| ensures Separated(s, id, k) {
        if !Separated(s, id, k) {
          var i := FirstRowIsLost(s, id, k);
        }
      }
    }
  }

  lemma LostRow(s: Staging, i: nat, key: nat)
    requires Good(s) && i < s.LeafCount() && key in s.images[i].keys
    requires s.rootId < |s.nums| && Descend(s, s.rootId, key) != i
    ensures !LeavesKeepOrder(s)
  {
    LookupIff(s);
  }

  // A hierarchy of 511 leaves with one row each: leaf `i` holds row `i + 1` on page
  // `i + 1`, and one of the two lower internal pages takes leaves 1 to 255, the
  // other one leaf 0 and the rest.

  function TwistedLeaf(i: nat): Page {
    Page(Leaf, false, if 1 <= i <= 255 then 512 else 513, [], 0, [i + 1], i, if i == 510 then 0 else i + 2,
         Inserted(EMPTY, i + 1, [0]))
  }

  lemma TwistedLeafIsSlotted(i: nat)
    ensures SlottedOk(TwistedLeaf(i))
  {
    FirstRow(Record(i + 1, [0]));
  }

  function TwistedNode(id: nat): Page {
    if id <= 510 then TwistedLeaf(id)
    else if id == 511 then
      Page(Internal, false, 514, seq(254, k requires 0 <= k < 254 => Cell(k + 2, k + 2)), 256, [], 0, 0)
    else if id == 512 then
      Page(Internal, false, 514,
           seq(255, k requires 0 <= k < 255 => if k == 0 then Cell(1, 1) else Cell(k + 256, k + 256)), 511, [], 0, 0)
    else Page(Internal, true, 0, [Cell(512, 256)], 513, [], 0, 0)
  }

  function TwistedNumbers(n: nat): (nums: seq<nat>)
    ensures |nums| == n && forall i :: 0 <= i < n ==> nums[i] == i + 1
  {
    seq(n, i requires 0 <= i < n => i + 1)
  }

  function TwistedNodes(n: nat): (nodes: seq<Page>)
    ensures |nodes| == n && forall i :: 0 <= i < n ==> nodes[i] == TwistedNode(i)
  {
    seq(n, i requires 0 <= i < n => TwistedNode(i))
  }

  function Twisted(): Staging {
    var leaves := TwistedNodes(511);
    Staging(Chain(leaves, TwistedNumbers(511), RowCount(leaves, 511), 511, true),
            TwistedNumbers(514), TwistedNodes(514), 2, 514, 513)
  }

  lemma TwistedIsShaped()
    ensures Twisted().Shaped() && ChainOk(Twisted().chain) && NumbersOk(Twisted().nums)
    ensures NumbersValid(Twisted().nums, 511) && NumbersOk(Twisted().nums[..511])
  {
    var s := Twisted();
    assert s.nums[..511] == s.chain.numbers;
    assert s.images[..511] == s.chain.leaves;
    forall i | 0 <= i < 511 ensures LeafInChain(s.chain.leaves, s.chain.numbers, i) {
      assert s.chain.leaves[i] == TwistedLeaf(i);
      TwistedLeafIsSlotted(i);
      assert i > 0 ==> s.chain.leaves[i - 1] == TwistedLeaf(i - 1);
    }
    assert s.chain.leaves[510] == TwistedLeaf(510);
  }

  lemma TwistedCounts()
    ensures Parents(511, FANOUT) == 2 && Parents(2, FANOUT) == 1
    ensures InternalPages(511, FANOUT) == 3 && Levels(511, FANOUT) == 2
  {
    assert InternalPages(2, FANOUT) == 1 + InternalPages(1, FANOUT);
    assert Levels(2, FANOUT) == 1 + Levels(1, FANOUT);
  }

  lemma TwistedFind(id: nat)
    requires id < 514
    ensures Find(Twisted().nums, id + 1) == id
  {
    TwistedIsShaped();
    FindIs(Twisted().nums, id);
  }

  lemma TwistedChildren()
    ensures TwistedNode(511).Children() == TwistedNumbers(514)[1..256]
    ensures TwistedNode(512).Children() == [1] + TwistedNumbers(514)[256..511]
    ensures TwistedNode(513).Children() == TwistedNumbers(514)[511..513]
  {
  }

  lemma TwistedInboundSum(num: nat)
    requires num > 0
    ensures InboundCount(Twisted(), num) == multiset(TwistedNode(511).Children())[num]
      + multiset(TwistedNode(512).Children())[num] + multiset(TwistedNode(513).Children())[num]
  {
    var s := Twisted();
    InboundUnfolds(s, TwistedNode(511), num, 1);
    InboundUnfolds(s, TwistedNode(512), num, 2);
    InboundUnfolds(s, TwistedNode(513), num, 3);
  }

  lemma TwistedInbound(id: nat)
    requires id < 514
    ensures InboundCount(Twisted(), id + 1) == if id == 513 then 0 else 1
  {
    var nums := TwistedNumbers(514);
    TwistedIsShaped();
    TwistedInboundSum(id + 1);
    TwistedChildren();
    StretchCount(nums, 1, 256, id);
    StretchCount(nums, 256, 511, id);
    StretchCount(nums, 511, 513, id);
    assert multiset([1] + nums[256..511])[id + 1] == (if id == 0 then 1 else 0) + multiset(nums[256..511])[id + 1];
  }

  lemma TwistedClimbs(id: nat)
    requires id < 514
    ensures ReachesRoot(Twisted(), id + 1)
  {
    var s := Twisted();
    TwistedFind(id);
    TwistedFind(511);
    TwistedFind(512);
    assert Climbs(s, 514, 2);
    assert Climbs(s, 512, 3) && Climbs(s, 513, 3);
  }

  lemma TwistedMax(id: nat)
    requires id < 513
    ensures SubtreeMax(Twisted(), id + 1, 0) == Max(TwistedTop(id))
  {
    var s := Twisted();
    if id <= 510 {
      TwistedLeafMax(id, 0);
    } else {
      TwistedFind(id);
      NodeMax(s, TwistedNode(id), id, id + 1);
      TwistedLeafMax(if id == 511 then 255 else 510, 1);
    }
  }

  lemma TwistedLeafMax(id: nat, depth: nat)
    requires id <= 510 && depth <= 4
    ensures SubtreeMax(Twisted(), id + 1, depth) == Max(id + 1)
  {
    TwistedFind(id);
    LeafMax(Twisted(), TwistedLeaf(id), id, id + 1, depth);
  }

  lemma LeafMax(s: Staging, p: Page, id: nat, num: nat, depth: nat)
    requires |s.images| == |s.nums| && depth <= s.InternalCount() + 1
    requires Find(s.nums, num) == id < |s.nums| && id < s.LeafCount() && p == s.images[id] && p.keys != []
    ensures SubtreeMax(s, num, depth) == Max(p.LastKey())
  {
  }

  lemma NodeMax(s: Staging, p: Page, id: nat, num: nat)
    requires |s.images| == |s.nums|
    requires s.LeafCount() <= Find(s.nums, num) == id < |s.nums| && p == s.images[id]
    requires p.kind.Internal? && 0 < |p.cells| <= INTERNAL_NODE_MAX_KEYS
    ensures SubtreeMax(s, num, 0) == SubtreeMax(s, p.right, 1)
  {
  }

  lemma TwistedChild(id: nat, k: nat)
    requires 511 <= id <= 513 && k <= |TwistedNode(id).cells|
    ensures ChildAccepted(Twisted(), id + 1, TwistedNode(id), k)
  {
    TwistedKid(id, k);
    var p, kid := TwistedNode(id), TwistedNode(id).Child(k) - 1;
    TwistedFind(kid);
    TwistedMax(kid);
    TwistedSeparators(id, k, kid);
    ChildFrom(Twisted(), id + 1, p, k, kid, TwistedTop(kid));
  }

  // The largest key the validator computes for a node.
  function TwistedTop(id: nat): nat {
    if id <= 510 then id + 1 else if id == 511 then 256 else 511
  }

  lemma TwistedSeparators(id: nat, k: nat, kid: nat)
    requires 511 <= id <= 513 && k <= |TwistedNode(id).cells|
    requires kid == if id == 511 then k + 1 else if id == 513 then k + 511 else if k == 0 then 0 else k + 255
    ensures k < |TwistedNode(id).cells| ==> TwistedNode(id).cells[k].key == TwistedTop(kid)
    ensures k > 0 ==> TwistedNode(id).cells[k - 1].key < TwistedTop(kid)
  {
  }

  lemma ChildFrom(s: Staging, num: nat, p: Page, k: nat, id: nat, top: nat)
    requires |s.images| == |s.nums| && k <= |p.cells|
    requires Find(s.nums, p.Child(k)) == id < |s.nums| && p.Child(k) != num && s.images[id].parent == num
    requires SubtreeMax(s, p.Child(k), 0) == Max(top)
    requires (k < |p.cells| ==> p.cells[k].key == top) && (k > 0 ==> p.cells[k - 1].key < top)
    ensures ChildAccepted(s, num, p, k)
  {
  }

  // Which child it is, and that it points back.
  lemma TwistedKid(id: nat, k: nat)
    requires 511 <= id <= 513 && k <= |TwistedNode(id).cells|
    ensures TwistedNode(id).Child(k)
         == if id == 511 then k + 2 else if id == 513 then k + 512 else if k == 0 then 1 else k + 256
    ensures TwistedNode(TwistedNode(id).Child(k) - 1).parent == id + 1
  {
  }

  lemma TwistedLeafAccepted(id: nat)
    requires id < 511
    ensures LeafAccepted(Twisted(), id)
  {
    TwistedInbound(id);
    TwistedClimbs(id);
  }

  lemma TwistedHeader(id: nat)
    requires 511 <= id < 514
    ensures HeaderAccepted(Twisted(), id)
  {
    TwistedInbound(id);
    TwistedClimbs(id);
    HeaderFrom(Twisted(), TwistedNode(id), id, id + 1);
  }

  lemma HeaderFrom(s: Staging, p: Page, id: nat, num: nat)
    requires s.LeafCount() <= id < |s.nums| == |s.images| && p == s.images[id] && num == s.nums[id]
    requires p.kind.Internal? && 1 <= |p.cells| <= INTERNAL_NODE_MAX_KEYS
    requires p.isRoot == (num == s.root) && (num == s.root <==> p.parent == 0)
    requires InboundCount(s, num) == if num == s.root then 0 else 1
    requires if num == s.root then id == s.rootId else ReachesRoot(s, num)
    ensures HeaderAccepted(s, id)
  {
  }

  lemma TwistedChildrenAccepted(num: nat, p: Page)
    requires 512 <= num < 515 && p == TwistedNode(num - 1)
    ensures ChildrenAccepted(Twisted(), num, p)
  {
    forall k | 0 <= k <= |p.cells| ensures ChildAccepted(Twisted(), num, p, k) {
      TwistedChild(num - 1, k);
    }
  }

  lemma TwistedNodeAccepted(id: nat)
    requires 511 <= id < 514
    ensures NodeAccepted(Twisted(), id)
  {
    TwistedHeader(id);
    TwistedChildrenAccepted(id + 1, TwistedNode(id));
  }

  lemma TwistedIsGood()
    ensures Good(Twisted())
  {
    var s := Twisted();
    TwistedIsShaped();
    TwistedCounts();
    forall id | 0 <= id < 511 ensures LeafAccepted(s, id) {
      TwistedLeafAccepted(id);
    }
    forall id | 511 <= id < 514 ensures NodeAccepted(s, id) {
      TwistedNodeAccepted(id);
    }
    assert s.nums[513] == s.root;
  }

  lemma TwistedDescent()
    requires Good(Twisted())
    ensures Descend(Twisted(), 513, 1) == 1
  {
    var s := Twisted();
    TwistedFind(511);
    TwistedFind(1);
    assert Route(s.images[513], 1, 0) == 0 && Route(s.images[511], 1, 0) == 0;
    assert KidId(s, 513, 0) == 511 && KidId(s, 511, 0) == 1;
  }

  // The check accepts it, but the tree does not keep the order of the chain, and
  // the row of the first leaf is looked for in the second.
  lemma TwistedIsAccepted()
    ensures Good(Twisted()) && !LeavesKeepOrder(Twisted())
    ensures 1 in Twisted().images[0].keys && Descend(Twisted(), Twisted().rootId, 1) == 1
  {
    TwistedIsGood();
    TwistedDescent();
    assert Twisted().images[0] == TwistedLeaf(0);
    LostRow(Twisted(), 0, 1);
  }
}
