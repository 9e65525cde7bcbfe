/** What the bottom-up builder lays out, and why the hierarchy check accepts it
    (src/compact_v2_staging_hierarchy.h:207-442).  The children of internal page
    `j` are the nodes from `cs[j]` up to `cs[j + 1]`; children come before their
    parents and the root comes last. */
module StagingLayout {
  import opened Pages
  import opened LeafChains
  import opened StagingGeometry
  import opened StagingTree
  import opened StagingSound

  // Child `k` of internal page `j`; `tops` holds the largest key below each node.
  ghost predicate KidPlaced(nodes: seq<Page>, nums: seq<nat>, tops: seq<nat>, cs: seq<nat>, leafCount: nat, j: nat,
                            k: nat) {
    && j < |cs| && leafCount + j < |nodes| == |nums| && cs[j] + k < |nodes| && cs[j] + k < |tops|
    && k <= |nodes[leafCount + j].cells|
    && nodes[leafCount + j].Child(k) == nums[cs[j] + k]
    && nodes[cs[j] + k].parent == nums[leafCount + j] && !nodes[cs[j] + k].isRoot
    && (k < |nodes[leafCount + j].cells| ==> nodes[leafCount + j].cells[k].key == tops[cs[j] + k])
    && (k > 0 ==> tops[cs[j] + k - 1] < tops[cs[j] + k])
  }

  ghost predicate Placed(nodes: seq<Page>, nums: seq<nat>, tops: seq<nat>, cs: seq<nat>, leafCount: nat, j: nat) {
    && j + 1 < |cs|
    && leafCount + j < |nodes| == |nums| && leafCount + j < |tops|
    && cs[j] + 2 <= cs[j + 1] <= leafCount + j && cs[j + 1] <= cs[j] + FANOUT
    && nodes[leafCount + j].kind.Internal?
    && |nodes[leafCount + j].cells| == cs[j + 1] - cs[j] - 1
    && tops[leafCount + j] == tops[cs[j + 1] - 1]
    && forall k :: 0 <= k < cs[j + 1] - cs[j] ==> KidPlaced(nodes, nums, tops, cs, leafCount, j, k)
  }

  ghost predicate LeafTop(nodes: seq<Page>, tops: seq<nat>, i: nat) {
    i < |nodes| && i < |tops| && nodes[i].keys != [] && tops[i] == nodes[i].LastKey()
  }

  // Everything but the marking of the root.
  ghost predicate Wired(nodes: seq<Page>, nums: seq<nat>, tops: seq<nat>, cs: seq<nat>, leafCount: nat, count: nat) {
    && |nodes| == |nums| && leafCount + count <= |tops| && leafCount + count <= |nodes|
    && |cs| == count + 1 && cs[0] == 0
    && (forall i :: 0 <= i < leafCount ==> LeafTop(nodes, tops, i))
    && (forall j :: 0 <= j < count ==> Placed(nodes, nums, tops, cs, leafCount, j))
  }

  ghost predicate Laid(s: Staging, tops: seq<nat>, cs: seq<nat>) {
    && s.Shaped() && ChainOk(s.chain) && NumbersOk(s.nums)
    && 2 <= s.LeafCount() <= UINT32_MAX
    && |s.nums| == s.LeafCount() + InternalPages(s.LeafCount(), FANOUT)
    && s.levels == Levels(s.LeafCount(), FANOUT)
    && |s.nums| > s.LeafCount()
    && Wired(s.images, s.nums, tops, cs, s.LeafCount(), |s.nums| - s.LeafCount())
    && cs[|cs| - 1] == |s.nums| - 1
    && s.rootId == |s.nums| - 1 && s.root == s.nums[s.rootId]
    && s.images[s.rootId].isRoot && s.images[s.rootId].parent == 0
  }

  // The internal page whose children include node `id`.
  lemma {:induction false} Owner(s: Staging, tops: seq<nat>, cs: seq<nat>, id: nat, from: nat) returns (j: nat)
    requires Laid(s, tops, cs) && from < |cs| && cs[from] <= id < |s.nums| - 1
    ensures from <= j < |s.nums| - s.LeafCount() && cs[j] <= id < cs[j + 1] <= s.LeafCount() + j
    ensures KidPlaced(s.images, s.nums, tops, cs, s.LeafCount(), j, id - cs[j])
    decreases |cs| - from
  {
    assert Placed(s.images, s.nums, tops, cs, s.LeafCount(), from);
    if id < cs[from + 1] {
      j := from;
    } else {
      j := Owner(s, tops, cs, id, from + 1);
    }
  }

  lemma Distinctness(nums: seq<nat>, i: nat, j: nat)
    requires NumbersOk(nums) && i < |nums| && j < |nums|
    ensures nums[i] == nums[j] <==> i == j
    ensures nums[i] != 0
  {
    assert nums[i] in nums;
  }

  // A stretch of distinct numbers names node `id` if it covers it.
  lemma {:induction false} StretchCount(nums: seq<nat>, a: nat, b: nat, id: nat)
    requires NumbersOk(nums) && a <= b <= |nums| && id < |nums|
    ensures multiset(nums[a..b])[nums[id]] == if a <= id < b then 1 else 0
    decreases b - a
  {
    if a < b {
      StretchCount(nums, a, b - 1, id);
      assert nums[a..b] == nums[a..b - 1] + [nums[b - 1]];
      Distinctness(nums, b - 1, id);
    } else {
      assert nums[a..b] == [];
    }
  }

  lemma ChildrenAre(s: Staging, tops: seq<nat>, cs: seq<nat>, j: nat)
    requires Laid(s, tops, cs) && j < |s.nums| - s.LeafCount()
    ensures cs[j] < cs[j + 1] <= |s.nums|
    ensures s.images[s.LeafCount() + j].Children() == s.nums[cs[j]..cs[j + 1]]
  {
    assert Placed(s.images, s.nums, tops, cs, s.LeafCount(), j);
    var c := s.images[s.LeafCount() + j].Children();
    forall k | 0 <= k < |c| ensures c[k] == s.nums[cs[j]..cs[j + 1]][k] {
      assert KidPlaced(s.images, s.nums, tops, cs, s.LeafCount(), j, k);
    }
  }

  lemma InboundStep(s: Staging, tops: seq<nat>, cs: seq<nat>, num: nat, n: nat)
    requires Laid(s, tops, cs) && 0 < n <= |s.nums| - s.LeafCount()
    ensures cs[n - 1] < cs[n] <= |s.nums|
    ensures Inbound(s, num, n) == Inbound(s, num, n - 1) + multiset(s.nums[cs[n - 1]..cs[n]])[num]
  {
    var j := n - 1;
    ChildrenAre(s, tops, cs, j);
    assert Placed(s.images, s.nums, tops, cs, s.LeafCount(), j);
    InboundUnfolds(s, s.images[s.LeafCount() + j], num, n);
  }

  lemma InboundUnfolds(s: Staging, p: Page, num: nat, n: nat)
    requires |s.images| == |s.nums| && 0 < n && s.LeafCount() + n <= |s.nums|
    requires p == s.images[s.LeafCount() + (n - 1)] && p.kind.Internal? && |p.cells| <= INTERNAL_NODE_MAX_KEYS
    ensures Inbound(s, num, n) == Inbound(s, num, n - 1) + multiset(p.Children())[num]
  {
  }

  // Every node before the first unclaimed child is named exactly once.
  lemma {:induction false} InboundIs(s: Staging, tops: seq<nat>, cs: seq<nat>, id: nat, n: nat)
    requires Laid(s, tops, cs) && id < |s.nums| && n <= |s.nums| - s.LeafCount()
    ensures Inbound(s, s.nums[id], n) == if id < cs[n] then 1 else 0
  {
    if n > 0 {
      InboundIs(s, tops, cs, id, n - 1);
      InboundStep(s, tops, cs, s.nums[id], n);
      StretchCount(s.nums, cs[n - 1], cs[n], id);
    }
  }

  // Hops down to a leaf are bounded by the internal pages before a node.
  function Height(s: Staging, id: nat): nat {
    if id < s.LeafCount() then 0 else id - s.LeafCount() + 1
  }

  lemma {:induction false} MaxIs(s: Staging, tops: seq<nat>, cs: seq<nat>, id: nat, depth: nat)
    requires Laid(s, tops, cs) && id < |s.nums|
    requires depth + Height(s, id) <= |s.nums| - s.LeafCount() + 1
    ensures SubtreeMax(s, s.nums[id], depth) == Max(tops[id])
    decreases id
  {
    FindIs(s.nums, id);
    if id < s.LeafCount() {
      assert LeafTop(s.images, tops, id);
    } else {
      var j := id - s.LeafCount();
      assert Placed(s.images, s.nums, tops, cs, s.LeafCount(), j);
      assert KidPlaced(s.images, s.nums, tops, cs, s.LeafCount(), j, cs[j + 1] - cs[j] - 1);
      MaxIs(s, tops, cs, cs[j + 1] - 1, depth + 1);
    }
  }

  lemma {:induction false} ClimbsUp(s: Staging, tops: seq<nat>, cs: seq<nat>, id: nat, tries: nat)
    requires Laid(s, tops, cs) && id < |s.nums|
    requires tries + Height(s, id) > |s.nums| - s.LeafCount()
    ensures Climbs(s, s.nums[id], tries)
    decreases |s.nums| - id
  {
    if id < s.rootId {
      var j := Owner(s, tops, cs, id, 0);
      FindIs(s.nums, id);
      Distinctness(s.nums, id, s.LeafCount() + j);
      ClimbsUp(s, tops, cs, s.LeafCount() + j, tries - 1);
    }
  }

  lemma HeaderPasses(s: Staging, tops: seq<nat>, cs: seq<nat>, id: nat)
    requires Laid(s, tops, cs) && s.LeafCount() <= id < |s.nums|
    ensures HeaderAccepted(s, id)
  {
    assert Placed(s.images, s.nums, tops, cs, s.LeafCount(), id - s.LeafCount());
    InboundIs(s, tops, cs, id, |s.nums| - s.LeafCount());
    Distinctness(s.nums, id, s.rootId);
    if id != s.rootId {
      var j := Owner(s, tops, cs, id, 0);
      Distinctness(s.nums, s.LeafCount() + j, id);
      ClimbsUp(s, tops, cs, id, |s.nums| - s.LeafCount() + 1);
    }
  }

  lemma ChildPasses(s: Staging, tops: seq<nat>, cs: seq<nat>, id: nat, k: nat)
    requires Laid(s, tops, cs) && s.LeafCount() <= id < |s.nums| && k <= |s.images[id].cells|
    ensures ChildAccepted(s, s.nums[id], s.images[id], k)
  {
    var j := id - s.LeafCount();
    assert Placed(s.images, s.nums, tops, cs, s.LeafCount(), j);
    assert KidPlaced(s.images, s.nums, tops, cs, s.LeafCount(), j, k);
    assert k > 0 ==> KidPlaced(s.images, s.nums, tops, cs, s.LeafCount(), j, k - 1);
    FindIs(s.nums, cs[j] + k);
    Distinctness(s.nums, cs[j] + k, id);
    MaxIs(s, tops, cs, cs[j] + k, 0);
  }

  lemma LeafPasses(s: Staging, tops: seq<nat>, cs: seq<nat>, id: nat)
    requires Laid(s, tops, cs) && id < s.LeafCount()
    ensures LeafAccepted(s, id)
  {
    InboundIs(s, tops, cs, id, |s.nums| - s.LeafCount());
    var j := Owner(s, tops, cs, id, 0);
    Distinctness(s.nums, s.LeafCount() + j, id);
    Distinctness(s.nums, id, id);
    Distinctness(s.nums, s.rootId, s.rootId);
    ClimbsUp(s, tops, cs, id, |s.nums| - s.LeafCount() + 1);
    assert s.images[..s.LeafCount()][id] == s.images[id];
    assert LeafInChain(s.chain.leaves, s.chain.numbers, id);
  }

  // The builder's layout passes every check of the validator.
  lemma LaidIsAccepted(s: Staging, tops: seq<nat>, cs: seq<nat>)
    requires Laid(s, tops, cs)
    ensures Good(s)
  {
    Distinctness(s.nums, s.rootId, s.rootId);
    forall i | s.LeafCount() <= i < |s.nums| ensures NumberFresh(s.nums, i) {
      Distinctness(s.nums, i, i);
    }
    forall i | 0 <= i < |s.nums[..s.LeafCount()]| ensures s.nums[..s.LeafCount()][i] != 0 {
      Distinctness(s.nums, i, i);
    }
    forall id | s.LeafCount() <= id < |s.nums| ensures NodeAccepted(s, id) {
      HeaderPasses(s, tops, cs, id);
      forall k | 0 <= k <= |s.images[id].cells| ensures ChildAccepted(s, s.nums[id], s.images[id], k) {
        ChildPasses(s, tops, cs, id, k);
      }
    }
    forall id | 0 <= id < s.LeafCount() ensures LeafAccepted(s, id) {
      LeafPasses(s, tops, cs, id);
    }
  }
}
