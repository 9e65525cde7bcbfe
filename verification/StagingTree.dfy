/** A staged hierarchy and the checks that accept it
    (src/compact_v2_staging_hierarchy.h:88-308).  Nodes are numbered with the
    leaves first, then the internal pages in the order they were built. */
module StagingTree {
  import opened Pages
  import opened LeafChains
  import opened StagingGeometry

  datatype Staging = Staging(chain: Chain, nums: seq<nat>, images: seq<Page>, levels: nat, root: nat, rootId: nat) {
    function LeafCount(): nat { |chain.leaves| }

    function InternalCount(): int { |nums| - |chain.leaves| }

    // The nodes carry the chain's leaves under the chain's numbers.
    ghost predicate Shaped() {
      && |chain.leaves| <= |nums| == |images|
      && |chain.leaves| <= |chain.numbers|
      && nums[..|chain.leaves|] == chain.numbers[..|chain.leaves|]
      && images[..|chain.leaves|] == chain.leaves
    }
  }

  // The node carrying page number `num`, or |nums|; zero names no page.
  function Find(nums: seq<nat>, num: nat): (id: nat)
    ensures id <= |nums|
    ensures id < |nums| ==> nums[id] == num && num != 0
    ensures forall k :: 0 <= k < id && num != 0 ==> nums[k] != num
  {
    if num == 0 then |nums| else FindFrom(nums, num, 0)
  }

  function FindFrom(nums: seq<nat>, num: nat, i: nat): (id: nat)
    requires i <= |nums|
    ensures i <= id <= |nums|
    ensures id < |nums| ==> nums[id] == num
    ensures forall k :: i <= k < id ==> nums[k] != num
    decreases |nums| - i
  {
    if i == |nums| || nums[i] == num then i else FindFrom(nums, num, i + 1)
  }

  lemma FindIs(nums: seq<nat>, id: nat)
    requires id < |nums| && NumbersOk(nums)
    ensures Find(nums, nums[id]) == id
  {
    var found := Find(nums, nums[id]);
    assert nums[id] in nums;
  }

  method FindPage(nums: seq<nat>, leafCount: nat, num: nat) returns (id: nat, isLeaf: bool)
    requires leafCount <= |nums|
    ensures id == Find(nums, num)
    ensures isLeaf == (id < leafCount)
  {
    if num == 0 {
      return |nums|, |nums| < leafCount;
    }
    id := 0;
    while id < |nums|
      invariant 0 <= id <= |nums| && FindFrom(nums, num, 0) == FindFrom(nums, num, id)
    {
      if nums[id] == num {
        break;
      }
      id := id + 1;
    }
    isLeaf := id < leafCount;
  }

  // New page numbers are nonzero and meet neither the leaves nor each other.
  predicate NumberFresh(nums: seq<nat>, i: nat)
    requires i < |nums|
  {
    nums[i] != 0 && nums[i] !in nums[..i]
  }

  ghost predicate NumbersValid(nums: seq<nat>, leafCount: nat) {
    leafCount < |nums| && forall i :: leafCount <= i < |nums| ==> NumberFresh(nums, i)
  }

  lemma ValidNumbersAreDistinct(nums: seq<nat>, leafCount: nat)
    requires NumbersValid(nums, leafCount) && NumbersOk(nums[..leafCount])
    ensures NumbersOk(nums)
  {
    var leaves := nums[..leafCount];
    forall i, j | 0 <= i < j < |nums| ensures nums[i] != nums[j] {
      if j < leafCount {
        assert leaves[i] != leaves[j];
      } else {
        assert NumberFresh(nums, j) && nums[i] in nums[..j];
      }
    }
    forall i | 0 <= i < |nums| ensures nums[i] != 0 {
      if i < leafCount {
        assert leaves[i] in leaves;
      } else {
        assert NumberFresh(nums, i);
      }
    }
  }

  method PageNumbersValid(leafNums: seq<nat>, nodeNums: seq<nat>, required: nat) returns (ok: bool)
    requires required <= |nodeNums|
    ensures ok <==> NumbersValid(leafNums + nodeNums[..required], |leafNums|)
  {
    if required == 0 {
      return false;
    }
    ghost var nums := leafNums + nodeNums[..required];
    var i := 0;
    while i < required
      invariant 0 <= i <= required
      invariant forall k :: |leafNums| <= k < |leafNums| + i ==> NumberFresh(nums, k)
    {
      var num := nodeNums[i];
      assert num == nums[|leafNums| + i];
      assert nums[..|leafNums| + i] == leafNums + nodeNums[..i];
      if num == 0 || num in leafNums || num in nodeNums[..i] {
        assert !NumberFresh(nums, |leafNums| + i);
        return false;
      }
      i := i + 1;
    }
    return true;
  }

  datatype MaxKey = NoMax | Max(key: nat)

  // Following right children to a leaf, at most |internal pages| + 1 deep.
  function SubtreeMax(s: Staging, num: nat, depth: nat): MaxKey
    requires |s.images| == |s.nums|
    decreases s.InternalCount() + 2 - depth
  {
    if depth > s.InternalCount() + 1 then NoMax
    else
      var id := Find(s.nums, num);
      if id == |s.nums| then NoMax
      else if id < s.LeafCount() then
        if s.images[id].keys == [] then NoMax else Max(s.images[id].LastKey())
      else if !s.images[id].kind.Internal? || !(0 < |s.images[id].cells| <= INTERNAL_NODE_MAX_KEYS) then NoMax
      else SubtreeMax(s, s.images[id].right, depth + 1)
  }

  // How often the first `n` internal pages name `num` as a child.
  function Inbound(s: Staging, num: nat, n: nat): nat
    requires |s.images| == |s.nums| && s.LeafCount() + n <= |s.nums|
  {
    if n == 0 then 0
    else
      var p := s.images[s.LeafCount() + n - 1];
      Inbound(s, num, n - 1) +
      if p.kind.Internal? && |p.cells| <= INTERNAL_NODE_MAX_KEYS then multiset(p.Children())[num] else 0
  }

  function InboundCount(s: Staging, num: nat): nat
    requires |s.images| == |s.nums| && s.LeafCount() <= |s.nums|
  {
    if num == 0 then 0 else Inbound(s, num, |s.nums| - s.LeafCount())
  }

  method CountChildren(p: Page, num: nat) returns (count: nat)
    ensures count == multiset(p.Children())[num]
  {
    count := 0;
    var children := p.Children();
    var child := 0;
    while child < |p.cells|
      invariant 0 <= child <= |p.cells|
      invariant count == multiset(children[..child])[num]
    {
      assert children[..child + 1] == children[..child] + [children[child]];
      if p.cells[child].child == num {
        count := count + 1;
      }
      child := child + 1;
    }
    assert children == children[..child] + [p.right];
    if p.right == num {
      count := count + 1;
    }
  }

  method CountInbound(s: Staging, num: nat) returns (inbound: nat)
    requires |s.images| == |s.nums| && s.LeafCount() <= |s.nums|
    ensures inbound == InboundCount(s, num)
  {
    inbound := 0;
    if num == 0 {
      return;
    }
    var i := 0;
    while i < |s.nums| - s.LeafCount()
      invariant 0 <= i <= |s.nums| - s.LeafCount()
      invariant inbound == Inbound(s, num, i)
    {
      var node := s.images[s.LeafCount() + i];
      if node.kind.Internal? && |node.cells| <= INTERNAL_NODE_MAX_KEYS {
        var count := CountChildren(node, num);
        inbound := inbound + count;
      }
      i := i + 1;
    }
  }

  // Parent links lead from `num` to the root in fewer than `tries` hops.
  predicate Climbs(s: Staging, num: nat, tries: nat)
    requires |s.images| == |s.nums|
    decreases tries
  {
    tries > 0 &&
    (num == s.root ||
     var id := Find(s.nums, num);
     && id < |s.nums| && s.images[id].parent != 0 && s.images[id].parent != num
     && Climbs(s, s.images[id].parent, tries - 1))
  }

  predicate ReachesRoot(s: Staging, num: nat)
    requires |s.images| == |s.nums| && s.LeafCount() <= |s.nums|
  {
    num != 0 && s.root != 0 && Climbs(s, num, |s.nums| - s.LeafCount() + 1)
  }

  method CheckReachesRoot(s: Staging, num: nat) returns (ok: bool)
    requires |s.images| == |s.nums| && s.LeafCount() <= |s.nums|
    ensures ok <==> ReachesRoot(s, num)
  {
    if num == 0 || s.root == 0 {
      return false;
    }
    var current := num;
    var count := |s.nums| - s.LeafCount();
    var depth := 0;
    while depth <= count
      invariant 0 <= depth <= count + 1
      invariant Climbs(s, num, count + 1) == Climbs(s, current, count + 1 - depth)
    {
      if current == s.root {
        return true;
      }
      var id, isLeaf := FindPage(s.nums, s.LeafCount(), current);
      if id == |s.nums| {
        return false;
      }
      var parent := s.images[id].parent;
      if parent == 0 || parent == current {
        return false;
      }
      current := parent;
      depth := depth + 1;
    }
    return false;
  }

  // Child `k` of the page `p` numbered `num` points back, and its largest key
  // is the separator next to it and lies above the separator before it.
  predicate ChildAccepted(s: Staging, num: nat, p: Page, k: nat)
    requires |s.images| == |s.nums| && k <= |p.cells|
  {
    var id, max := Find(s.nums, p.Child(k)), SubtreeMax(s, p.Child(k), 0);
    && id < |s.nums| && p.Child(k) != num
    && s.images[id].parent == num
    && max.Max?
    && (k < |p.cells| ==> p.cells[k].key == max.key)
    && (k > 0 ==> p.cells[k - 1].key < max.key)
  }

  ghost predicate ChildrenAccepted(s: Staging, num: nat, p: Page)
    requires |s.images| == |s.nums|
  {
    forall k :: 0 <= k <= |p.cells| ==> ChildAccepted(s, num, p, k)
  }

  predicate HeaderAccepted(s: Staging, id: nat)
    requires s.LeafCount() <= id < |s.nums| == |s.images|
  {
    var p, num := s.images[id], s.nums[id];
    && p.kind.Internal? && 1 <= |p.cells| <= INTERNAL_NODE_MAX_KEYS
    && p.isRoot == (num == s.root)
    && (if num == s.root then p.parent == 0 && id == s.rootId && InboundCount(s, num) == 0
        else p.parent != 0 && InboundCount(s, num) == 1 && ReachesRoot(s, num))
  }

  ghost predicate NodeAccepted(s: Staging, id: nat)
    requires s.LeafCount() <= id < |s.nums| == |s.images|
  {
    HeaderAccepted(s, id) && ChildrenAccepted(s, s.nums[id], s.images[id])
  }

  predicate LeafAccepted(s: Staging, id: nat)
    requires id < s.LeafCount() <= |s.nums| == |s.images|
  {
    var p, num := s.images[id], s.nums[id];
    && p.kind.Leaf? && !p.isRoot && p.parent != 0
    && InboundCount(s, num) == 1 && ReachesRoot(s, num)
  }

  ghost predicate Accepted(s: Staging) {
    && s.Shaped() && ChainOk(s.chain)
    && 2 <= s.LeafCount() <= UINT32_MAX
    && s.root != 0
    && |s.nums| == s.LeafCount() + InternalPages(s.LeafCount(), FANOUT)
    && s.levels == Levels(s.LeafCount(), FANOUT)
    && NumbersValid(s.nums, s.LeafCount())
    && (forall id :: s.LeafCount() <= id < |s.nums| ==> NodeAccepted(s, id))
    && (exists id :: s.LeafCount() <= id < |s.nums| && s.nums[id] == s.root)
    && (forall id :: 0 <= id < s.LeafCount() ==> LeafAccepted(s, id))
  }

  method CheckChildren(s: Staging, num: nat, p: Page) returns (ok: bool)
    requires |s.images| == |s.nums|
    requires 1 <= |p.cells|
    ensures ok <==> ChildrenAccepted(s, num, p)
  {
    var previousSeparator := 0;
    var child := 0;
    while child <= |p.cells|
      invariant 0 <= child <= |p.cells| + 1
      invariant forall k :: 0 <= k < child ==> ChildAccepted(s, num, p, k)
      invariant 0 < child <= |p.cells| ==> previousSeparator == p.cells[child - 1].key
    {
      var page := p.Child(child);
      var id, isLeaf := FindPage(s.nums, 0, page);
      var max := SubtreeMax(s, page, 0);
      if id == |s.nums| || page == num || s.images[id].parent != num || max.NoMax?
         || (child < |p.cells| && p.cells[child].key != max.key)
         || (child > 0 && max.key <= previousSeparator) {
        assert !ChildAccepted(s, num, p, child);
        return false;
      }
      previousSeparator := max.key;
      child := child + 1;
    }
    return true;
  }

  method CheckHeader(s: Staging, id: nat) returns (ok: bool)
    requires s.LeafCount() <= id < |s.nums| == |s.images|
    ensures ok <==> HeaderAccepted(s, id)
  {
    var node, num := s.images[id], s.nums[id];
    if !node.kind.Internal? || |node.cells| == 0 || |node.cells| > INTERNAL_NODE_MAX_KEYS
       || node.isRoot != (num == s.root) {
      return false;
    }
    var inbound := CountInbound(s, num);
    if num == s.root {
      return node.parent == 0 && id == s.rootId && inbound == 0;
    }
    if node.parent == 0 || inbound != 1 {
      return false;
    }
    ok := CheckReachesRoot(s, num);
  }

  method CheckNodes(s: Staging) returns (ok: bool)
    requires s.LeafCount() < |s.nums| == |s.images| && NumbersValid(s.nums, s.LeafCount())
    ensures ok <==>
      && (forall id :: s.LeafCount() <= id < |s.nums| ==> NodeAccepted(s, id))
      && (exists id :: s.LeafCount() <= id < |s.nums| && s.nums[id] == s.root)
  {
    var foundRoot := false;
    var id := s.LeafCount();
    while id < |s.nums|
      invariant s.LeafCount() <= id <= |s.nums|
      invariant forall k :: s.LeafCount() <= k < id ==> NodeAccepted(s, k)
      invariant foundRoot <==> exists k :: s.LeafCount() <= k < id && s.nums[k] == s.root
    {
      ok := CheckHeader(s, id);
      if !ok {
        assert !NodeAccepted(s, id);
        return;
      }
      if s.nums[id] == s.root {
        assert NumberFresh(s.nums, id);
        foundRoot := true;
      }
      ok := CheckChildren(s, s.nums[id], s.images[id]);
      if !ok {
        assert !NodeAccepted(s, id);
        return;
      }
      id := id + 1;
    }
    return foundRoot;
  }

  method CheckLeaves(s: Staging) returns (ok: bool)
    requires s.LeafCount() <= |s.nums| == |s.images|
    ensures ok <==> forall id :: 0 <= id < s.LeafCount() ==> LeafAccepted(s, id)
  {
    var i := 0;
    while i < s.LeafCount()
      invariant 0 <= i <= s.LeafCount()
      invariant forall k :: 0 <= k < i ==> LeafAccepted(s, k)
    {
      var leaf, num := s.images[i], s.nums[i];
      var inbound := CountInbound(s, num);
      ok := CheckReachesRoot(s, num);
      if !leaf.kind.Leaf? || leaf.isRoot || leaf.parent == 0 || inbound != 1 || !ok {
        assert !LeafAccepted(s, i);
        return false;
      }
      i := i + 1;
    }
    return true;
  }

  method Validate(s: Staging) returns (ok: bool)
    requires s.Shaped() && s.LeafCount() <= UINT32_MAX
    ensures ok <==> Accepted(s)
  {
    ok := ValidateChain(s.chain);
    if !ok || s.LeafCount() < 2 || |s.nums| == s.LeafCount() || s.root == 0 {
      return false;
    }
    var sized, expectedInternal, expectedLevels := RequiredInternalPages(s.LeafCount());
    if !sized || |s.nums| - s.LeafCount() != expectedInternal || s.levels != expectedLevels {
      return false;
    }
    var leafNums := s.nums[..s.LeafCount()];
    var nodeNums := s.nums[s.LeafCount()..];
    assert s.nums == leafNums + nodeNums[..expectedInternal];
    ok := PageNumbersValid(leafNums, nodeNums, expectedInternal);
    if !ok {
      return;
    }
    ok := CheckNodes(s);
    if ok {
      ok := CheckLeaves(s);
    }
  }
}
