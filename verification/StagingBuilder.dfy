/** The whole build: preflight, leaf descriptors, all levels, the root mark and
    the final self-check (src/compact_v2_staging_hierarchy.h:310-442). */
module StagingBuilder {
  import opened Pages
  import opened LeafChains
  import opened StagingGeometry
  import opened StagingTree
  import opened StagingSound
  import opened StagingLayout
  import opened StagingBuild

  // `marks[t]` is the first node of level `t`; the children of a level are the level below.
  ghost predicate Levelled(marks: seq<nat>, cs: seq<nat>, leafCount: nat) {
    && marks != [] && marks[0] == 0
    && (|marks| > 1 ==> marks[1] == leafCount)
    && forall t :: 1 <= t < |marks| ==> MarkOk(marks, cs, leafCount, t)
  }

  ghost predicate MarkOk(marks: seq<nat>, cs: seq<nat>, leafCount: nat, t: nat) {
    1 <= t < |marks| && leafCount <= marks[t] && marks[t] - leafCount < |cs| && cs[marks[t] - leafCount] == marks[t - 1]
  }

  // A finished level is the next one to work on.
  ghost predicate Standing(nodes: seq<Page>, refs: seq<NodeRef>, nums: seq<nat>, tops: seq<nat>, cs: seq<nat>,
                           marks: seq<nat>, leafCount: nat, base: nat, n: nat, idx: nat) {
    && n >= 1 && base + n == leafCount + idx == |tops|
    && Wired(nodes, nums, tops, cs, leafCount, idx)
    && cs[idx] == base && Sorted(tops, base, base + n)
    && RefsAre(refs, nums, tops, leafCount, base, n)
    && Levelled(marks, cs, leafCount) && marks[|marks| - 1] == base
  }

  lemma StartLevel(nodes: seq<Page>, refs: seq<NodeRef>, next: seq<NodeRef>, nums: seq<nat>, tops: seq<nat>,
                   cs: seq<nat>, marks: seq<nat>, leafCount: nat, base: nat, n: nat, idx: nat)
    requires Standing(nodes, refs, nums, tops, cs, marks, leafCount, base, n, idx) && n >= 2
    requires |nums| >= leafCount + idx
    ensures Progress(nodes, refs, next, nums, tops, cs, leafCount, base, n, idx, 0)
  {
  }

  lemma EndLevel(nodes: seq<Page>, refs: seq<NodeRef>, next: seq<NodeRef>, nums: seq<nat>, tops: seq<nat>, cs: seq<nat>,
                 marks: seq<nat>, cs0: seq<nat>, leafCount: nat, base: nat, n: nat, idx: nat)
    requires n >= 2 && Progress(nodes, refs, next, nums, tops, cs, leafCount, base, n, idx, Parents(n, FANOUT))
    requires Levelled(marks, cs0, leafCount) && marks[|marks| - 1] == base && |cs0| == idx + 1 && cs0[idx] == base
    requires cs0 <= cs
    requires |marks| == 1 ==> idx == 0 && base == 0
    ensures Standing(nodes, next, nums, tops, cs, marks + [base + n], leafCount, base + n, Parents(n, FANOUT),
        idx + Parents(n, FANOUT))
  {
    ParentsShrink(n, FANOUT);
    OffsetTotal(n, Parents(n, FANOUT));
    var marks' := marks + [base + n];
    forall t | 1 <= t < |marks'| ensures MarkOk(marks', cs, leafCount, t) {
      if t < |marks| {
        assert MarkOk(marks, cs0, leafCount, t);
      }
    }
  }

  lemma LeafTopsRise(leaves: seq<Page>, numbers: seq<nat>, tops: seq<nat>)
    requires LeavesOk(leaves, numbers) && leaves[0].keys != []
    requires |tops| == |leaves| && forall i :: 0 <= i < |leaves| ==> tops[i] == leaves[i].LastKey()
    ensures forall i :: 0 <= i < |leaves| ==> LeafTop(leaves, tops, i)
    ensures Sorted(tops, 0, |leaves|)
  {
    forall i | 0 <= i < |leaves| ensures LeafTop(leaves, tops, i) {
      assert LeafInChain(leaves, numbers, i);
    }
    forall i, j | 0 <= i < j < |leaves| ensures Lower(tops, i, j) {
      assert LeafTop(leaves, tops, i) && LeafTop(leaves, tops, j) && LeafInChain(leaves, numbers, j);
      LeavesInOrder(leaves, numbers, i, j);
      FirstIsLeast(leaves[j].keys, |leaves[j].keys| - 1);
    }
  }

  // The descriptors of the leaves; an empty first leaf has no largest key.
  method DescribeLeaves(leafImages: array<Page>, numbers: seq<nat>, leafCount: nat, current: array<NodeRef>,
                        ghost nums: seq<nat>)
    returns (ok: bool, ghost tops: seq<nat>)
    requires 1 <= leafCount <= leafImages.Length && leafCount == current.Length
    requires LeavesOk(leafImages[..leafCount], numbers) && leafCount <= |nums|
    requires nums[..leafCount] == numbers[..leafCount]
    modifies current
    ensures ok <==> leafImages[0].keys != []
    ensures ok ==> |tops| == leafCount && RefsAre(current[..], nums, tops, leafCount, 0, leafCount)
    ensures ok ==> Sorted(tops, 0, leafCount)
    ensures ok ==> forall i :: 0 <= i < leafCount ==> LeafTop(leafImages[..leafCount], tops, i)
  {
    ghost var leaves := leafImages[..leafCount];
    tops := seq(leafCount, i requires 0 <= i < leafCount => leaves[i].LastKey());
    if leaves[0].keys != [] {
      LeafTopsRise(leaves, numbers, tops);
    }
    ok := false;
    var previousMax := 0;
    var i := 0;
    while i < leafCount
      invariant 0 <= i <= leafCount
      invariant i > 0 ==> leaves[0].keys != [] && previousMax == tops[i - 1]
      invariant RefsAre(current[..], nums, tops, leafCount, 0, i)
    {
      assert LeafInChain(leaves, numbers, i) && leaves[i] == leafImages[i];
      if |leafImages[i].keys| == 0 {
        return;
      }
      var maxKey := leafImages[i].LastKey();
      assert leaves[0].keys != [] && i > 0 ==> Lower(tops, i - 1, i);
      if i > 0 && maxKey <= previousMax {
        return;
      }
      assert nums[..leafCount][i] == numbers[..leafCount][i];
      ghost var refs := current[..];
      current[i] := NodeRef(numbers[i], maxKey, true, i);
      forall k | 0 <= k < i ensures RefAt(current[..], nums, tops, leafCount, 0, k) {
        assert RefAt(refs, nums, tops, leafCount, 0, k);
      }
      previousMax := maxKey;
      i := i + 1;
    }
    ok := true;
  }

  method ClearInternal(images: array<Page>, required: nat)
    requires required <= images.Length
    modifies images
  {
    for i := 0 to required {
      images[i] := Page(Internal, false, 0, [], 0, [], 0, 0);
    }
  }

  // From one finished level to the next.
  method NextLevel(leafImages: array<Page>, images: array<Page>, leafCount: nat, required: nat, numbers: seq<nat>,
                   current: array<NodeRef>, next: array<NodeRef>, currentCount: nat, first: nat,
                   ghost nums: seq<nat>, ghost tops0: seq<nat>, ghost cs0: seq<nat>, ghost marks: seq<nat>,
                   ghost base: nat)
    returns (ok: bool, parentCount: nat, ghost tops: seq<nat>, ghost cs: seq<nat>)
    requires leafCount <= leafImages.Length && required <= images.Length && leafImages != images
    requires current != next && 2 <= currentCount <= current.Length == next.Length
    requires required <= |numbers| && |nums| == leafCount + required && nums[leafCount..] == numbers[..required]
    requires Standing(Nodes(leafImages, images, leafCount, required), current[..], nums, tops0, cs0, marks, leafCount,
        base, currentCount, first)
    requires first + Parents(currentCount, FANOUT) <= required && (|marks| == 1 ==> first == 0 && base == 0)
    modifies leafImages, images, next
    ensures ok && parentCount == Parents(currentCount, FANOUT)
    ensures Standing(Nodes(leafImages, images, leafCount, required), next[..], nums, tops, cs,
        marks + [base + currentCount],
                     leafCount, base + currentCount, parentCount, first + parentCount)
    ensures LeavesKept(old(Nodes(leafImages, images, leafCount, required)),
        Nodes(leafImages, images, leafCount, required), leafCount)
  {
    StartLevel(Nodes(leafImages, images, leafCount, required), current[..], next[..], nums, tops0, cs0, marks,
        leafCount, base, currentCount, first);
    ok, parentCount, tops, cs := BuildLevel(leafImages, images, leafCount, required, numbers, current, next,
        currentCount, first,
                                            nums, tops0, cs0, base);
    EndLevel(Nodes(leafImages, images, leafCount, required), current[..], next[..], nums, tops, cs, marks, cs0,
             leafCount, base, currentCount, first);
  }

  // All levels, bottom-up; again the failure exits are dead.
  method BuildLevels(leafImages: array<Page>, images: array<Page>, leafCount: nat, required: nat, requiredLevels: nat,
                     numbers: seq<nat>,
                     leafRefs: array<NodeRef>, spare: array<NodeRef>, ghost nums: seq<nat>, ghost leafTops: seq<nat>)
    returns (ok: bool, rootNum: nat, rootIndex: nat, ghost tops: seq<nat>, ghost cs: seq<nat>, ghost marks: seq<nat>)
    requires leafCount <= leafImages.Length && required <= images.Length && leafImages != images
    requires leafRefs != spare && 2 <= leafCount == leafRefs.Length == spare.Length
    requires required == InternalPages(leafCount, FANOUT) <= |numbers| && requiredLevels == Levels(leafCount, FANOUT)
    requires |nums| == leafCount + required && nums[leafCount..] == numbers[..required]
    requires Standing(Nodes(leafImages, images, leafCount, required), leafRefs[..], nums, leafTops, [0], [0],
        leafCount, 0, leafCount, 0)
    modifies leafImages, images, leafRefs, spare
    ensures ok && rootIndex == required - 1 && rootNum == nums[leafCount + required - 1]
    ensures Wired(Nodes(leafImages, images, leafCount, required), nums, tops, cs, leafCount, required)
    ensures |tops| == leafCount + required && cs[required] == leafCount + required - 1
    ensures Levelled(marks, cs, leafCount) && |marks| == requiredLevels + 1
    ensures marks[requiredLevels] == leafCount + required - 1
    ensures LeavesKept(old(Nodes(leafImages, images, leafCount, required)),
        Nodes(leafImages, images, leafCount, required), leafCount)
  {
    ok, rootNum, rootIndex, tops, cs, marks := false, 0, 0, leafTops, [0], [0];
    ghost var start, base: nat := Nodes(leafImages, images, leafCount, required), 0;
    assert forall i :: 0 <= i < leafCount ==> LeafKept(start, start, i);
    var current, next := leafRefs, spare;
    var currentCount, internalIndex: nat, builtLevels: nat := leafCount, 0, 0;
    while currentCount > 1
      invariant {current, next} == {leafRefs, spare} && current != next
      invariant 1 <= currentCount <= leafCount
      invariant Standing(Nodes(leafImages, images, leafCount, required), current[..], nums, tops, cs, marks, leafCount,
          base, currentCount, internalIndex)
      invariant internalIndex + InternalPages(currentCount, FANOUT) == required
      invariant builtLevels + Levels(currentCount, FANOUT) == requiredLevels
      invariant |marks| == builtLevels + 1 && (builtLevels == 0 <==> internalIndex == 0)
      invariant internalIndex == 0 ==> base == 0
      invariant LeavesKept(start, Nodes(leafImages, images, leafCount, required), leafCount)
      decreases currentCount
    {
      ghost var nodes := Nodes(leafImages, images, leafCount, required);
      var parentCount;
      ParentsShrink(currentCount, FANOUT);
      ok, parentCount, tops, cs := NextLevel(leafImages, images, leafCount, required, numbers, current, next,
          currentCount, internalIndex,
                                             nums, tops, cs, marks, base);
      if !ok {
        return;
      }
      KeptTwice(start, nodes, Nodes(leafImages, images, leafCount, required), leafCount);
      marks, base := marks + [base + currentCount], base + currentCount;
      internalIndex := internalIndex + parentCount;
      current, next := next, current;
      currentCount := parentCount;
      builtLevels := builtLevels + 1;
    }
    assert RefAt(current[..], nums, tops, leafCount, base, 0);
    ok := internalIndex == required && builtLevels == requiredLevels && currentCount == 1 && !current[0].isLeaf;
    rootNum, rootIndex := current[0].pageNum, current[0].index;
  }

  // What the builder produces: the layout and its division into levels.
  ghost predicate Built(s: Staging, tops: seq<nat>, cs: seq<nat>, marks: seq<nat>) {
    && Laid(s, tops, cs)
    && Levelled(marks, cs, s.LeafCount())
    && |marks| == s.levels + 1 && marks[s.levels] == s.rootId
  }

  // The inputs the builder accepts.
  ghost predicate Buildable(c: Chain, numbers: seq<nat>) {
    && ChainOk(c)
    && 2 <= |c.leaves|
    && c.leaves[0].keys != []
    && InternalPages(|c.leaves|, FANOUT) <= |numbers|
    && NumbersValid(c.numbers[..|c.leaves|] + numbers[..InternalPages(|c.leaves|, FANOUT)], |c.leaves|)
  }

  lemma KeptChain(c: Chain, leaves: seq<Page>)
    requires ChainOk(c) && |leaves| == |c.leaves| && LeavesKept(c.leaves, leaves, |leaves|)
    ensures ChainOk(c.(leaves := leaves))
  {
    forall i | 0 <= i < |leaves| ensures LeafInChain(leaves, c.numbers, i) {
      assert LeafInChain(c.leaves, c.numbers, i) && LeafKept(c.leaves, leaves, i);
      assert i > 0 ==> LeafKept(c.leaves, leaves, i - 1);
    }
    forall i | 0 <= i < |leaves| ensures |c.leaves[i].keys| == |leaves[i].keys| {
      assert LeafKept(c.leaves, leaves, i);
    }
    SameRowCount(c.leaves, leaves, |leaves|);
    assert LeafKept(c.leaves, leaves, |leaves| - 1);
  }

  lemma MarkRoot(nodes: seq<Page>, nums: seq<nat>, tops: seq<nat>, cs: seq<nat>, leafCount: nat, count: nat)
    requires Wired(nodes, nums, tops, cs, leafCount, count) && count > 0
    requires |nodes| == |tops| == leafCount + count && cs[count] == leafCount + count - 1
    ensures
      var root := leafCount + count - 1;
      Wired(nodes[root := nodes[root].(isRoot := true, parent := 0)], nums, tops, cs, leafCount, count)
  {
    var root := leafCount + count - 1;
    var nodes' := nodes[root := nodes[root].(isRoot := true, parent := 0)];
    forall j | 0 <= j < count ensures Placed(nodes', nums, tops, cs, leafCount, j) {
      assert Placed(nodes, nums, tops, cs, leafCount, j);
      StartsIncrease(nodes, nums, tops, cs, leafCount, count, j + 1, count);
      forall k | 0 <= k < cs[j + 1] - cs[j] ensures KidPlaced(nodes', nums, tops, cs, leafCount, j, k) {
        assert KidPlaced(nodes, nums, tops, cs, leafCount, j, k);
      }
    }
    forall i | 0 <= i < leafCount ensures LeafTop(nodes', tops, i) {
      assert LeafTop(nodes, tops, i);
    }
  }

  // Builds the hierarchy over `chain` exactly when the inputs allow it, and
  // touches nothing otherwise.
  method Build(chain: LeafChain, images: array<Page>, numbers: seq<nat>)
    returns (ok: bool, h: Staging, ghost tops: seq<nat>, ghost cs: seq<nat>, ghost marks: seq<nat>)
    requires chain.pageCount <= chain.images.Length == |chain.numbers| && chain.pageCount <= UINT32_MAX
    requires NumbersOk(chain.numbers)
    requires images != chain.images && images.Length == |numbers|
    modifies chain.images, images
    ensures ok <==> Buildable(old(chain.View()), numbers)
    ensures ok ==> Built(h, tops, cs, marks) && Good(h)
    ensures ok ==> h.chain == chain.View()
    ensures ok ==> LeavesKept(old(chain.View()).leaves, chain.View().leaves, chain.pageCount)
    ensures ok ==>
      var required := InternalPages(chain.pageCount, FANOUT);
      && required <= |numbers|
      && h.nums == chain.numbers[..chain.pageCount] + numbers[..required]
      && h.images == chain.images[..chain.pageCount] + images[..required]
    ensures !ok ==> chain.images[..] == old(chain.images[..]) && images[..] == old(images[..])
  {
    ok, tops, cs, marks := false, [], [], [];
    h := Staging(chain.View(), [], [], 0, 0, 0);
    var leafCount := chain.pageCount;
    var valid := ValidateChain(chain.View());
    if !valid || leafCount < 2 {
      return;
    }
    var sized, required, requiredLevels := RequiredInternalPages(leafCount);
    if !sized || required > images.Length {
      return;
    }
    var numbersValid := PageNumbersValid(chain.numbers[..leafCount], numbers, required);
    if !numbersValid {
      return;
    }
    var current := new NodeRef[leafCount](_ => NodeRef(0, 0, false, 0));
    var next := new NodeRef[leafCount](_ => NodeRef(0, 0, false, 0));
    ghost var nums := chain.numbers[..leafCount] + numbers[..required];
    var described;
    described, tops := DescribeLeaves(chain.images, chain.numbers, leafCount, current, nums);
    if !described {
      return;
    }
    ok, h, tops, cs, marks := BuildDescribed(chain, images, numbers, leafCount, required, requiredLevels, current,
        next, nums, tops);
  }

  // The part of the build that writes.
  method BuildDescribed(chain: LeafChain, images: array<Page>, numbers: seq<nat>, leafCount: nat, required: nat,
                        requiredLevels: nat,
                        current: array<NodeRef>, next: array<NodeRef>, ghost nums: seq<nat>, ghost leafTops: seq<nat>)
    returns (ok: bool, h: Staging, ghost tops: seq<nat>, ghost cs: seq<nat>, ghost marks: seq<nat>)
    requires 2 <= leafCount == chain.pageCount <= chain.images.Length == |chain.numbers|
    requires chain.pageCount <= UINT32_MAX
    requires NumbersOk(chain.numbers) && ChainOk(chain.View())
    requires images != chain.images && required <= images.Length == |numbers|
    requires required == InternalPages(leafCount, FANOUT) && requiredLevels == Levels(leafCount, FANOUT)
    requires nums == chain.numbers[..leafCount] + numbers[..required] && NumbersValid(nums, leafCount)
    requires current != next && leafCount == current.Length == next.Length
    requires |leafTops| == leafCount && RefsAre(current[..], nums, leafTops, leafCount, 0, leafCount)
    requires Sorted(leafTops, 0, leafCount)
    requires forall i :: 0 <= i < leafCount ==> LeafTop(chain.images[..leafCount], leafTops, i)
    modifies chain.images, images, current, next
    ensures ok && Built(h, tops, cs, marks) && Good(h)
    ensures h.chain == chain.View()
    ensures LeavesKept(old(chain.View()).leaves, chain.View().leaves, leafCount)
    ensures h.nums == nums && h.images == chain.images[..leafCount] + images[..required]
  {
    ghost var before := chain.View();
    ClearInternal(images, required);
    ghost var nodes := Nodes(chain.images, images, leafCount, required);
    assert chain.images[..leafCount] == before.leaves;
    forall i | 0 <= i < leafCount ensures LeafTop(nodes, leafTops, i) {
      assert LeafTop(before.leaves, leafTops, i);
    }
    var rootNum, rootIndex;
    ok, rootNum, rootIndex, tops, cs, marks :=
      BuildLevels(chain.images, images, leafCount, required, requiredLevels, numbers, current, next, nums, leafTops);
    ghost var unmarked := Nodes(chain.images, images, leafCount, required);
    images[rootIndex] := images[rootIndex].(isRoot := true, parent := 0);
    assert Nodes(chain.images, images, leafCount, required) ==
      unmarked[leafCount + rootIndex := unmarked[leafCount + rootIndex].(isRoot := true, parent := 0)];
    MarkRoot(unmarked, nums, tops, cs, leafCount, required);
    LeavesOfNodes(before.leaves, nodes, unmarked, chain.images[..leafCount], leafCount);
    KeptChain(before, chain.images[..leafCount]);
    h := Staging(chain.View(), chain.numbers[..leafCount] + numbers[..required],
        chain.images[..leafCount] + images[..required],
                 requiredLevels, rootNum, leafCount + rootIndex);
    FinishedIsLaid(h, tops, cs);
    LaidIsAccepted(h, tops, cs);
    ok := Validate(h);
  }

  lemma LeavesOfNodes(before: seq<Page>, nodes: seq<Page>, nodes': seq<Page>, after: seq<Page>, leafCount: nat)
    requires LeavesKept(nodes, nodes', leafCount) && |before| == |after| == leafCount
    requires nodes[..leafCount] == before && nodes'[..leafCount] == after
    ensures LeavesKept(before, after, leafCount)
  {
    forall i | 0 <= i < leafCount ensures LeafKept(before, after, i) {
      assert LeafKept(nodes, nodes', i);
      assert nodes[..leafCount][i] == nodes[i] && nodes'[..leafCount][i] == nodes'[i];
    }
  }

  lemma FinishedIsLaid(h: Staging, tops: seq<nat>, cs: seq<nat>)
    requires h.Shaped() && ChainOk(h.chain) && NumbersOk(h.chain.numbers)
    requires 2 <= h.LeafCount() <= UINT32_MAX && h.levels == Levels(h.LeafCount(), FANOUT)
    requires |h.nums| == h.LeafCount() + InternalPages(h.LeafCount(), FANOUT) && NumbersValid(h.nums, h.LeafCount())
    requires Wired(h.images, h.nums, tops, cs, h.LeafCount(), |h.nums| - h.LeafCount())
    requires cs[|cs| - 1] == |h.nums| - 1 == h.rootId && h.root == h.nums[h.rootId]
    requires h.images[h.rootId].isRoot && h.images[h.rootId].parent == 0
    ensures Laid(h, tops, cs)
  {
    ValidNumbersAreDistinct(h.nums, h.LeafCount());
  }
}
