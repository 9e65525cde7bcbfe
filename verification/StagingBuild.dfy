/** The bottom-up builder: one internal level at a time over the leaf chain, with
    two descriptor arrays that change roles after every level
    (src/compact_v2_staging_hierarchy.h:310-442). */
module StagingBuild {
  import opened Pages
  import opened LeafChains
  import opened StagingGeometry
  import opened StagingTree
  import opened StagingSound
  import opened StagingLayout

  datatype NodeRef = NodeRef(pageNum: nat, maxKey: nat, isLeaf: bool, index: nat)

  function RefOf(nums: seq<nat>, tops: seq<nat>, leafCount: nat, id: nat): NodeRef
    requires id < |nums| && id < |tops|
  {
    NodeRef(nums[id], tops[id], id < leafCount, if id < leafCount then id else id - leafCount)
  }

  // The cells of a parent whose children start at node `from`.
  function CellsOf(nums: seq<nat>, tops: seq<nat>, from: nat, n: nat): seq<Cell>
    requires from + n <= |nums| && from + n <= |tops|
  {
    seq(n, k requires 0 <= k < n => Cell(nums[from + k], tops[from + k]))
  }

  function ParentPage(nums: seq<nat>, tops: seq<nat>, from: nat, count: nat, n: nat): Page
    requires 0 < count && from + count <= |nums| && from + count <= |tops| && n < count
  {
    Page(Internal, false, 0, CellsOf(nums, tops, from, n), nums[from + count - 1], [], 0, 0)
  }

  // Nodes `from` up to `to` have become children of page `num`, stored as node `id`.
  function Adopted(nodes: seq<Page>, id: nat, num: nat, from: nat, to: nat, p: Page): (r: seq<Page>)
    ensures |r| == |nodes|
  {
    seq(|nodes|, c requires 0 <= c < |nodes| =>
      if c == id then p
      else if from <= c < to then nodes[c].(isRoot := false, parent := num)
      else nodes[c])
  }

  predicate Lower(tops: seq<nat>, i: nat, j: nat) {
    i < |tops| && j < |tops| && tops[i] < tops[j]
  }

  ghost predicate Sorted(tops: seq<nat>, a: nat, b: nat) {
    forall i, j :: a <= i < j < b ==> Lower(tops, i, j)
  }

  lemma NewKid(nodes: seq<Page>, nums: seq<nat>, tops: seq<nat>, cs: seq<nat>, leafCount: nat, idx: nat, count: nat,
               k: nat)
    requires |nodes| == |nums| && |cs| == idx + 1 && |tops| == leafCount + idx < |nodes|
    requires 2 <= count <= FANOUT && cs[idx] + count <= leafCount + idx && k < count
    requires Sorted(tops, cs[idx], cs[idx] + count)
    ensures
      var from, id := cs[idx], leafCount + idx;
      KidPlaced(Adopted(nodes, id, nums[id], from, from + count, ParentPage(nums, tops, from, count, count - 1)),
                nums, tops + [tops[from + count - 1]], cs + [from + count], leafCount, idx, k)
  {
    assert k > 0 ==> Lower(tops, cs[idx] + k - 1, cs[idx] + k);
  }

  lemma OldKid(nodes: seq<Page>, nums: seq<nat>, tops: seq<nat>, cs: seq<nat>, leafCount: nat, idx: nat, to: nat,
               p: Page, top: nat, j: nat, k: nat)
    requires |cs| == idx + 1 && |tops| == leafCount + idx < |nodes| == |nums|
    requires j < idx && Placed(nodes, nums, tops, cs, leafCount, j) && k < cs[j + 1] - cs[j] && cs[j + 1] <= cs[idx]
    ensures KidPlaced(Adopted(nodes, leafCount + idx, nums[leafCount + idx], cs[idx], to, p), nums, tops + [top],
        cs + [to], leafCount, j, k)
  {
    assert KidPlaced(nodes, nums, tops, cs, leafCount, j, k);
  }

  lemma OldPlace(nodes: seq<Page>, nums: seq<nat>, tops: seq<nat>, cs: seq<nat>, leafCount: nat, idx: nat, to: nat,
                 p: Page, top: nat, j: nat)
    requires |cs| == idx + 1 && |tops| == leafCount + idx < |nodes| == |nums|
    requires j < idx && Placed(nodes, nums, tops, cs, leafCount, j) && cs[j + 1] <= cs[idx]
    ensures Placed(Adopted(nodes, leafCount + idx, nums[leafCount + idx], cs[idx], to, p), nums, tops + [top],
        cs + [to], leafCount, j)
  {
    var nodes' := Adopted(nodes, leafCount + idx, nums[leafCount + idx], cs[idx], to, p);
    var tops', cs' := tops + [top], cs + [to];
    forall k | 0 <= k < cs[j + 1] - cs[j] ensures KidPlaced(nodes', nums, tops', cs', leafCount, j, k) {
      OldKid(nodes, nums, tops, cs, leafCount, idx, to, p, top, j, k);
    }
  }

  lemma {:induction false} StartsIncrease(nodes: seq<Page>, nums: seq<nat>, tops: seq<nat>, cs: seq<nat>,
                                          leafCount: nat, count: nat, i: nat, j: nat)
    requires Wired(nodes, nums, tops, cs, leafCount, count) && i <= j <= count
    ensures cs[i] <= cs[j]
    decreases j - i
  {
    if i < j {
      assert Placed(nodes, nums, tops, cs, leafCount, i);
      StartsIncrease(nodes, nums, tops, cs, leafCount, count, i + 1, j);
    }
  }

  // Placing one more parent keeps everything placed before it.
  lemma AdoptWired(nodes: seq<Page>, nums: seq<nat>, tops: seq<nat>, cs: seq<nat>, leafCount: nat, idx: nat, count: nat)
    requires Wired(nodes, nums, tops, cs, leafCount, idx)
    requires |tops| == leafCount + idx < |nodes|
    requires 2 <= count <= FANOUT && cs[idx] + count <= leafCount + idx
    requires Sorted(tops, cs[idx], cs[idx] + count)
    ensures
      var from, id := cs[idx], leafCount + idx;
      Wired(Adopted(nodes, id, nums[id], from, from + count, ParentPage(nums, tops, from, count, count - 1)),
            nums, tops + [tops[from + count - 1]], cs + [from + count], leafCount, idx + 1)
  {
    var from, id := cs[idx], leafCount + idx;
    var p := ParentPage(nums, tops, from, count, count - 1);
    var nodes' := Adopted(nodes, id, nums[id], from, from + count, p);
    var tops', cs' := tops + [tops[from + count - 1]], cs + [from + count];
    forall j | 0 <= j < idx ensures Placed(nodes', nums, tops', cs', leafCount, j) {
      StartsIncrease(nodes, nums, tops, cs, leafCount, idx, j + 1, idx);
      OldPlace(nodes, nums, tops, cs, leafCount, idx, from + count, p, tops[from + count - 1], j);
    }
    forall k | 0 <= k < count ensures KidPlaced(nodes', nums, tops', cs', leafCount, idx, k) {
      NewKid(nodes, nums, tops, cs, leafCount, idx, count, k);
    }
    assert Placed(nodes', nums, tops', cs', leafCount, idx);
    forall i | 0 <= i < leafCount ensures LeafTop(nodes', tops', i) {
      assert LeafTop(nodes, tops, i);
    }
  }

  // The nodes as the builder stores them.
  ghost function Nodes(leafImages: array<Page>, images: array<Page>, leafCount: nat, required: nat): (r: seq<Page>)
    requires leafCount <= leafImages.Length && required <= images.Length
    reads leafImages, images
    ensures |r| == leafCount + required
  {
    leafImages[..leafCount] + images[..required]
  }

  predicate RefAt(refs: seq<NodeRef>, nums: seq<nat>, tops: seq<nat>, leafCount: nat, from: nat, k: nat) {
    && from + k < |nums| && from + k < |tops| && k < |refs|
    && refs[k] == RefOf(nums, tops, leafCount, from + k)
  }

  ghost predicate RefsAre(refs: seq<NodeRef>, nums: seq<nat>, tops: seq<nat>, leafCount: nat, from: nat, n: nat) {
    && from + n <= |nums| && from + n <= |tops| && n <= |refs|
    && forall k :: 0 <= k < n ==> RefAt(refs, nums, tops, leafCount, from, k)
  }

  // One child learns its parent.
  method AdoptChild(leafImages: array<Page>, images: array<Page>, ref: NodeRef, num: nat, leafCount: nat,
                    required: nat, ghost id: nat)
    requires leafCount <= leafImages.Length && required <= images.Length && leafImages != images
    requires id < leafCount + required
    requires ref.isLeaf == (id < leafCount) && ref.index == if id < leafCount then id else id - leafCount
    modifies leafImages, images
    ensures Nodes(leafImages, images, leafCount, required) ==
      old(Nodes(leafImages, images, leafCount, required))[id :=
        old(Nodes(leafImages, images, leafCount, required)[id]).(isRoot := false, parent := num)]
  {
    if ref.isLeaf {
      leafImages[ref.index] := leafImages[ref.index].(isRoot := false, parent := num);
    } else {
      images[ref.index] := images[ref.index].(isRoot := false, parent := num);
    }
  }

  method AddCell(leafImages: array<Page>, images: array<Page>, index: nat, cell: Cell, ghost leafCount: nat,
                 ghost required: nat)
    requires leafCount <= leafImages.Length && required <= images.Length && leafImages != images && index < required
    modifies images
    ensures Nodes(leafImages, images, leafCount, required) ==
      old(Nodes(leafImages, images, leafCount, required))[leafCount + index :=
        old(images[index]).(cells := old(images[index]).cells + [cell])]
  {
    images[index] := images[index].(cells := images[index].cells + [cell]);
  }

  lemma AdoptNext(nodes: seq<Page>, id: nat, num: nat, from: nat, to: nat, p: Page, p': Page)
    requires from <= to < id < |nodes|
    ensures
      var a := Adopted(nodes, id, num, from, to, p);
      && a[to := a[to].(isRoot := false, parent := num)] == Adopted(nodes, id, num, from, to + 1, p)
      && Adopted(nodes, id, num, from, to + 1, p)[id := p'] == Adopted(nodes, id, num, from, to + 1, p')
  {
  }

  lemma OneMoreCell(nums: seq<nat>, tops: seq<nat>, from: nat, count: nat, n: nat)
    requires 0 < count && from + count <= |nums| && from + count <= |tops| && n + 1 < count
    ensures ParentPage(nums, tops, from, count, n + 1) ==
      ParentPage(nums, tops, from, count, n).(
        cells := ParentPage(nums, tops, from, count, n).cells + [Cell(nums[from + n], tops[from + n])])
  {
  }

  function Written(child: nat, count: nat): nat
    requires 0 < count
  {
    if child < count then child else count - 1
  }

  // Child number `child` learns its parent, and unless it is the last one the
  // parent gets a cell for it.
  method AdoptOne(leafImages: array<Page>, images: array<Page>, leafCount: nat, required: nat,
                  ref: NodeRef, child: nat, count: nat, index: nat, num: nat,
                  ghost nodes: seq<Page>, ghost nums: seq<nat>, ghost tops: seq<nat>, ghost from: nat)
    requires leafCount <= leafImages.Length && required <= images.Length && leafImages != images
    requires index < required && |nums| == |nodes| == leafCount + required
    requires child < count && from + count <= leafCount + index <= |tops|
    requires ref == RefOf(nums, tops, leafCount, from + child)
    requires Nodes(leafImages, images, leafCount, required) ==
      Adopted(nodes, leafCount + index, num, from, from + child, ParentPage(nums, tops, from, count, child))
    modifies leafImages, images
    ensures Nodes(leafImages, images, leafCount, required) ==
      Adopted(nodes, leafCount + index, num, from, from + child + 1,
          ParentPage(nums, tops, from, count, Written(child + 1, count)))
  {
    ghost var id, p := leafCount + index, ParentPage(nums, tops, from, count, child);
    ghost var p' := ParentPage(nums, tops, from, count, Written(child + 1, count));
    AdoptNext(nodes, id, num, from, from + child, p, p');
    AdoptChild(leafImages, images, ref, num, leafCount, required, from + child);
    if child + 1 < count {
      OneMoreCell(nums, tops, from, count, child);
      assert images[index] == Nodes(leafImages, images, leafCount, required)[id] == p;
      AddCell(leafImages, images, index, Cell(ref.pageNum, ref.maxKey), leafCount, required);
    }
  }

  // Writes internal page `index` over the `count` nodes starting at `offset` of the current level.
  method PlaceParent(leafImages: array<Page>, images: array<Page>, leafCount: nat, required: nat,
                     current: array<NodeRef>, offset: nat, count: nat, index: nat, num: nat,
                     ghost nums: seq<nat>, ghost tops: seq<nat>, ghost from: nat)
    requires leafCount <= leafImages.Length && required <= images.Length && leafImages != images
    requires index < required && |nums| == leafCount + required && num == nums[leafCount + index]
    requires 2 <= count && offset + count <= current.Length && from + count <= leafCount + index <= |tops|
    requires RefsAre(current[offset..], nums, tops, leafCount, from, count)
    modifies leafImages, images
    ensures Nodes(leafImages, images, leafCount, required) ==
      Adopted(old(Nodes(leafImages, images, leafCount, required)), leafCount + index, num, from, from + count,
              ParentPage(nums, tops, from, count, count - 1))
  {
    ghost var nodes, id := Nodes(leafImages, images, leafCount, required), leafCount + index;
    assert RefAt(current[offset..], nums, tops, leafCount, from, count - 1);
    images[index] := Page(Internal, false, 0, [], current[offset + count - 1].pageNum, [], 0, 0);
    assert ParentPage(nums, tops, from, count, 0).cells == [];
    assert Nodes(leafImages, images, leafCount, required) == Adopted(nodes, id, num, from, from, images[index]);
    var child := 0;
    while child < count
      invariant 0 <= child <= count
      invariant Nodes(leafImages, images, leafCount, required) ==
        Adopted(nodes, id, num, from, from + child, ParentPage(nums, tops, from, count, Written(child, count)))
    {
      assert RefAt(current[offset..], nums, tops, leafCount, from, child);
      AdoptOne(leafImages, images, leafCount, required, current[offset + child], child, count, index, num, nodes, nums,
          tops, from);
      child := child + 1;
    }
  }

  // The level of `n` nodes from `base` on has its first `parent` parents.
  ghost predicate LevelAt(nodes: seq<Page>, nums: seq<nat>, tops: seq<nat>, cs: seq<nat>, leafCount: nat,
                          base: nat, n: nat, first: nat, parent: nat) {
    && n >= 2 && base + n == leafCount + first
    && parent <= Parents(n, FANOUT)
    && |tops| == leafCount + first + parent
    && Wired(nodes, nums, tops, cs, leafCount, first + parent)
    && cs[first + parent] == base + Offset(n, Parents(n, FANOUT), parent)
    && Sorted(tops, base, base + n)
    && Sorted(tops, base + n, base + n + parent)
    && (parent > 0 ==>
          base < cs[first + parent] <= base + n && tops[base + n + parent - 1] == tops[cs[first + parent] - 1])
  }

  lemma LevelRoom(n: nat, parent: nat)
    requires n >= 2 && parent < Parents(n, FANOUT)
    ensures 2 <= ChildCount(n, Parents(n, FANOUT), parent) <= FANOUT
    ensures Offset(n, Parents(n, FANOUT), parent) + ChildCount(n, Parents(n, FANOUT), parent) <= n
  {
    EvenSplit(n, FANOUT, parent);
    RoomInLevel(n, Parents(n, FANOUT), parent);
  }

  lemma LevelNext(nodes: seq<Page>, nodes': seq<Page>, nums: seq<nat>, tops: seq<nat>, cs: seq<nat>, leafCount: nat,
                  base: nat, n: nat, first: nat, parent: nat, from: nat, count: nat)
    requires LevelAt(nodes, nums, tops, cs, leafCount, base, n, first, parent)
    requires parent < Parents(n, FANOUT) && leafCount + first + parent < |nodes|
    requires from == base + Offset(n, Parents(n, FANOUT), parent) && count == ChildCount(n, Parents(n, FANOUT), parent)
    requires 2 <= count && from + count <= base + n
    requires
      var id := leafCount + first + parent;
      nodes' == Adopted(nodes, id, nums[id], from, from + count, ParentPage(nums, tops, from, count, count - 1))
    ensures LevelAt(nodes', nums, tops + [tops[from + count - 1]], cs + [from + count], leafCount, base, n, first,
        parent + 1)
  {
    LevelRoom(n, parent);
    AdoptWired(nodes, nums, tops, cs, leafCount, first + parent, count);
    var top := tops[from + count - 1];
    assert parent > 0 ==> Lower(tops, from - 1, from + count - 1);
    SortedStays(tops, base, base + n, top);
    SortedGrows(tops, base + n, base + n + parent, top);
  }

  lemma SortedGrows(tops: seq<nat>, a: nat, b: nat, top: nat)
    requires a <= b == |tops| && Sorted(tops, a, b) && (a < b ==> tops[b - 1] < top)
    ensures Sorted(tops + [top], a, b + 1)
  {
    forall i, j | a <= i < j < b + 1 ensures Lower(tops + [top], i, j) {
      assert j < b ==> Lower(tops, i, j);
      assert i < b - 1 ==> Lower(tops, i, b - 1);
    }
  }

  lemma SortedStays(tops: seq<nat>, a: nat, b: nat, top: nat)
    requires b <= |tops| && Sorted(tops, a, b)
    ensures Sorted(tops + [top], a, b)
  {
    forall i, j | a <= i < j < b ensures Lower(tops + [top], i, j) {
      assert Lower(tops, i, j);
    }
  }

  // A leaf may get a parent and lose its root mark, nothing else.
  predicate LeafKept(before: seq<Page>, after: seq<Page>, i: nat) {
    && i < |before| && i < |after|
    && after[i] == before[i].(isRoot := after[i].isRoot, parent := after[i].parent)
  }

  ghost predicate LeavesKept(before: seq<Page>, after: seq<Page>, leafCount: nat) {
    && leafCount <= |before| == |after|
    && forall i :: 0 <= i < leafCount ==> LeafKept(before, after, i)
  }

  lemma RefsSlice(refs: seq<NodeRef>, nums: seq<nat>, tops: seq<nat>, leafCount: nat, base: nat, n: nat, offset: nat,
                  count: nat)
    requires RefsAre(refs, nums, tops, leafCount, base, n) && offset + count <= n
    ensures RefsAre(refs[offset..], nums, tops, leafCount, base + offset, count)
  {
    var from, slice := base + offset, refs[offset..];
    forall k | 0 <= k < count ensures RefAt(slice, nums, tops, leafCount, from, k) {
      assert RefAt(refs, nums, tops, leafCount, base, offset + k);
    }
  }

  lemma RefsGrow(refs: seq<NodeRef>, refs': seq<NodeRef>, nums: seq<nat>, tops: seq<nat>, leafCount: nat, from: nat,
                 n: nat, top: nat)
    requires RefsAre(refs, nums, tops, leafCount, from, n) && n < |refs| == |refs'|
    requires |tops| == from + n < |nums|
    requires refs' == refs[n := RefOf(nums, tops + [top], leafCount, from + n)]
    ensures RefsAre(refs', nums, tops + [top], leafCount, from, n + 1)
  {
    forall k | 0 <= k < n ensures RefAt(refs', nums, tops + [top], leafCount, from, k) {
      assert RefAt(refs, nums, tops, leafCount, from, k);
    }
  }

  // Places parent number `parent` of the level.
  method PlaceNext(leafImages: array<Page>, images: array<Page>, leafCount: nat, required: nat, num: nat,
                   current: array<NodeRef>, offset: nat, childCount: nat, index: nat, parent: nat,
                   ghost n: nat, ghost nums: seq<nat>, ghost tops: seq<nat>, ghost cs: seq<nat>, ghost base: nat)
    requires leafCount <= leafImages.Length && required <= images.Length && leafImages != images
    requires n <= current.Length && parent <= index < required && |nums| == leafCount + required
    requires num == nums[leafCount + index]
    requires parent < Parents(n, FANOUT)
    requires offset == Offset(n, Parents(n, FANOUT), parent) && childCount == ChildCount(n, Parents(n, FANOUT), parent)
    requires LevelAt(Nodes(leafImages, images, leafCount, required), nums, tops, cs, leafCount, base, n,
        index - parent, parent)
    requires RefsAre(current[..], nums, tops, leafCount, base, n)
    modifies leafImages, images
    ensures 0 < base + offset + childCount <= base + n <= |tops| && 0 < offset + childCount <= n
    ensures LevelAt(Nodes(leafImages, images, leafCount, required), nums,
                    tops + [tops[base + offset + childCount - 1]], cs + [base + offset + childCount],
                    leafCount, base, n, index - parent, parent + 1)
    ensures LeavesKept(old(Nodes(leafImages, images, leafCount, required)),
        Nodes(leafImages, images, leafCount, required), leafCount)
  {
    ghost var nodes, from := Nodes(leafImages, images, leafCount, required), base + offset;
    LevelRoom(n, parent);
    RefsSlice(current[..], nums, tops, leafCount, base, n, offset, childCount);
    assert current[..][offset..] == current[offset..];
    PlaceParent(leafImages, images, leafCount, required, current, offset, childCount, index, num, nums, tops, from);
    LevelNext(nodes, Nodes(leafImages, images, leafCount, required), nums, tops, cs, leafCount, base, n,
        index - parent, parent, from, childCount);
    AdoptKeepsLeaves(nodes, leafCount + index, num, from, from + childCount,
        ParentPage(nums, tops, from, childCount, childCount - 1), leafCount);
  }

  lemma AdoptKeepsLeaves(nodes: seq<Page>, id: nat, num: nat, from: nat, to: nat, p: Page, leafCount: nat)
    requires leafCount <= id < |nodes|
    ensures LeavesKept(nodes, Adopted(nodes, id, num, from, to, p), leafCount)
  {
    var adopted := Adopted(nodes, id, num, from, to, p);
    forall i | 0 <= i < leafCount ensures LeafKept(nodes, adopted, i) {
    }
  }

  lemma KeptTwice(a: seq<Page>, b: seq<Page>, c: seq<Page>, leafCount: nat)
    requires LeavesKept(a, b, leafCount) && LeavesKept(b, c, leafCount)
    ensures LeavesKept(a, c, leafCount)
  {
    forall i | 0 <= i < leafCount ensures LeafKept(a, c, i) {
      assert LeafKept(a, b, i) && LeafKept(b, c, i);
    }
  }

  // The new parent joins the descriptors of the next level.
  method Describe(next: array<NodeRef>, parent: nat, num: nat, maxKey: nat, index: nat,
                  ghost nums: seq<nat>, ghost tops: seq<nat>, ghost leafCount: nat, ghost from: nat)
    requires parent < next.Length && |tops| == from + parent == leafCount + index < |nums|
    requires num == nums[leafCount + index]
    requires RefsAre(next[..], nums, tops, leafCount, from, parent)
    modifies next
    ensures RefsAre(next[..], nums, tops + [maxKey], leafCount, from, parent + 1)
  {
    ghost var refs := next[..];
    next[parent] := NodeRef(num, maxKey, false, index);
    RefsGrow(refs, next[..], nums, tops, leafCount, from, parent, maxKey);
  }

  lemma RefsStay(refs: seq<NodeRef>, nums: seq<nat>, tops: seq<nat>, leafCount: nat, from: nat, n: nat, top: nat)
    requires RefsAre(refs, nums, tops, leafCount, from, n)
    ensures RefsAre(refs, nums, tops + [top], leafCount, from, n)
  {
    forall k | 0 <= k < n ensures RefAt(refs, nums, tops + [top], leafCount, from, k) {
      assert RefAt(refs, nums, tops, leafCount, from, k);
    }
  }

  // A level under construction together with its descriptors.
  ghost predicate Progress(nodes: seq<Page>, refs: seq<NodeRef>, next: seq<NodeRef>, nums: seq<nat>, tops: seq<nat>,
                           cs: seq<nat>, leafCount: nat, base: nat, n: nat, first: nat, parent: nat) {
    && LevelAt(nodes, nums, tops, cs, leafCount, base, n, first, parent)
    && RefsAre(refs, nums, tops, leafCount, base, n)
    && RefsAre(next, nums, tops, leafCount, base + n, parent)
  }

  method BuildParent(leafImages: array<Page>, images: array<Page>, leafCount: nat, required: nat, num: nat,
                     current: array<NodeRef>, next: array<NodeRef>, offset: nat, childCount: nat, index: nat,
                     parent: nat, ghost n: nat, ghost nums: seq<nat>, ghost tops: seq<nat>, ghost cs: seq<nat>,
                     ghost base: nat)
    returns (ghost tops': seq<nat>, ghost cs': seq<nat>)
    requires leafCount <= leafImages.Length && required <= images.Length && leafImages != images
    requires current != next && n <= current.Length == next.Length && parent < Parents(n, FANOUT) < n
    requires parent <= index < required && |nums| == leafCount + required && num == nums[leafCount + index]
    requires offset == Offset(n, Parents(n, FANOUT), parent) && childCount == ChildCount(n, Parents(n, FANOUT), parent)
    requires Progress(Nodes(leafImages, images, leafCount, required), current[..], next[..], nums, tops, cs, leafCount,
        base, n, index - parent, parent)
    modifies leafImages, images, next
    ensures Progress(Nodes(leafImages, images, leafCount, required), current[..], next[..], nums, tops', cs',
        leafCount, base, n, index - parent, parent + 1)
    ensures cs <= cs'
    ensures LeavesKept(old(Nodes(leafImages, images, leafCount, required)),
        Nodes(leafImages, images, leafCount, required), leafCount)
  {
    PlaceNext(leafImages, images, leafCount, required, num, current, offset, childCount, index, parent, n, nums, tops,
        cs, base);
    var maxKey := current[offset + childCount - 1].maxKey;
    assert RefAt(current[..], nums, tops, leafCount, base, offset + childCount - 1);
    Describe(next, parent, num, maxKey, index, nums, tops, leafCount, base + n);
    RefsStay(current[..], nums, tops, leafCount, base, n, maxKey);
    tops', cs' := tops + [maxKey], cs + [base + offset + childCount];
  }

  // One level of parents over `currentCount` nodes; its failure exits are dead.
  method BuildLevel(leafImages: array<Page>, images: array<Page>, leafCount: nat, required: nat, numbers: seq<nat>,
                    current: array<NodeRef>, next: array<NodeRef>, currentCount: nat, first: nat,
                    ghost nums: seq<nat>, ghost tops0: seq<nat>, ghost cs0: seq<nat>, ghost base: nat)
    returns (ok: bool, parentCount: nat, ghost tops: seq<nat>, ghost cs: seq<nat>)
    requires leafCount <= leafImages.Length && required <= images.Length && leafImages != images
    requires current != next && 2 <= currentCount <= current.Length == next.Length
    requires required <= |numbers| && |nums| == leafCount + required && nums[leafCount..] == numbers[..required]
    requires Progress(Nodes(leafImages, images, leafCount, required), current[..], next[..], nums, tops0, cs0,
        leafCount, base, currentCount, first, 0)
    requires first + Parents(currentCount, FANOUT) <= required
    modifies leafImages, images, next
    ensures ok && parentCount == Parents(currentCount, FANOUT) < currentCount
    ensures Progress(Nodes(leafImages, images, leafCount, required), current[..], next[..], nums, tops, cs, leafCount,
        base, currentCount, first, parentCount)
    ensures cs0 <= cs
    ensures LeavesKept(old(Nodes(leafImages, images, leafCount, required)),
        Nodes(leafImages, images, leafCount, required), leafCount)
  {
    ok, tops, cs := false, tops0, cs0;
    ghost var start := Nodes(leafImages, images, leafCount, required);
    assert forall i :: 0 <= i < leafCount ==> LeafKept(start, start, i);
    parentCount := Parents(currentCount, FANOUT);
    ParentsShrink(currentCount, FANOUT);
    var baseChildren, extraChildren, childOffset := currentCount / parentCount, currentCount % parentCount, 0;
    var parent := 0;
    while parent < parentCount
      invariant parent <= parentCount
      invariant childOffset == Offset(currentCount, parentCount, parent)
      invariant Progress(Nodes(leafImages, images, leafCount, required), current[..], next[..], nums, tops, cs,
          leafCount, base, currentCount, first, parent)
      invariant cs0 <= cs
      invariant LeavesKept(start, Nodes(leafImages, images, leafCount, required), leafCount)
    {
      var childCount := baseChildren + if parent < extraChildren then 1 else 0;
      var index := first + parent;
      LevelRoom(currentCount, parent);
      if childCount < 2 || childCount > FANOUT || index >= required {
        return;
      }
      assert nums[leafCount..][index] == numbers[index];
      ghost var nodes := Nodes(leafImages, images, leafCount, required);
      tops, cs := BuildParent(leafImages, images, leafCount, required, numbers[index], current, next, childOffset,
          childCount, index, parent,
                              currentCount, nums, tops, cs, base);
      KeptTwice(start, nodes, Nodes(leafImages, images, leafCount, required), leafCount);
      childOffset := childOffset + childCount;
      parent := parent + 1;
    }
    OffsetTotal(currentCount, parentCount);
    ok := childOffset == currentCount;
  }
}
