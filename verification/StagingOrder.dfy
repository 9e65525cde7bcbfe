/** A built hierarchy is a search tree over the leaf chain: every leaf at the same
    depth, the leaves in chain order, and descent by separators ends at the leaf
    that holds the key (src/compact_v2_staging_hierarchy.h:346-417,
    src/table.c:177-192, src/leaf_cursor_read.c:195-234). */
module StagingOrder {
  import opened Pages
  import opened Trees
  import opened LeafChains
  import opened StagingGeometry
  import opened StagingTree
  import opened StagingSound
  import opened StagingLayout
  import opened StagingBuild
  import opened StagingBuilder

  // Every leaf is `d` levels below.
  ghost predicate Uniform(t: Tree, d: nat)
    decreases d
  {
    if t.kids == [] then d == 0
    else d > 0 && forall k :: 0 <= k < |t.kids| ==> Uniform(t.kids[k], d - 1)
  }

  // The first node behind level `t`.
  function LevelEnd(marks: seq<nat>, s: Staging, t: nat): nat {
    if t + 1 < |marks| then marks[t + 1] else |s.nums|
  }

  lemma KidIsNext(s: Staging, tops: seq<nat>, cs: seq<nat>, j: nat, k: nat)
    requires Good(s) && Laid(s, tops, cs) && s.LeafCount() + j < |s.nums| && cs[j] + k < cs[j + 1]
    ensures k <= |s.images[s.LeafCount() + j].cells|
    ensures KidId(s, s.LeafCount() + j, k) == cs[j] + k < |s.nums|
  {
    ChildIsNext(s.images, s.nums, tops, cs, s.LeafCount(), j, k);
    FindIs(s.nums, cs[j] + k);
  }

  lemma ChildIsNext(nodes: seq<Page>, nums: seq<nat>, tops: seq<nat>, cs: seq<nat>, leafCount: nat, j: nat, k: nat)
    requires Placed(nodes, nums, tops, cs, leafCount, j) && cs[j] + k < cs[j + 1]
    ensures cs[j] + k < |nums|
    ensures k <= |nodes[leafCount + j].cells| && nodes[leafCount + j].Child(k) == nums[cs[j] + k]
  {
    assert KidPlaced(nodes, nums, tops, cs, leafCount, j, k);
  }

  // The trees of nodes `a` up to `b`.
  ghost function Row(s: Staging, a: nat, b: nat): (f: seq<Tree>)
    requires Good(s) && a <= b <= |s.nums|
    ensures |f| == b - a
  {
    seq(b - a, k requires 0 <= k < b - a => TreeAt(s, a + k))
  }

  lemma KidsAreARow(s: Staging, tops: seq<nat>, cs: seq<nat>, j: nat)
    requires Good(s) && Laid(s, tops, cs) && s.LeafCount() + j < |s.nums|
    ensures cs[j] + 2 <= cs[j + 1] <= |s.nums|
    ensures TreeAt(s, s.LeafCount() + j).kids == Row(s, cs[j], cs[j + 1])
  {
    assert Placed(s.images, s.nums, tops, cs, s.LeafCount(), j);
    var kids, row := TreeAt(s, s.LeafCount() + j).kids, Row(s, cs[j], cs[j + 1]);
    forall k | 0 <= k < |kids| ensures kids[k] == row[k] {
      KidIsNext(s, tops, cs, j, k);
    }
  }

  lemma StartsMonotone(s: Staging, tops: seq<nat>, cs: seq<nat>, i: nat, j: nat)
    requires Laid(s, tops, cs) && i <= j < |cs|
    ensures cs[i] <= cs[j] <= |s.nums|
  {
    StartsIncrease(s.images, s.nums, tops, cs, s.LeafCount(), |cs| - 1, i, j);
    StartsIncrease(s.images, s.nums, tops, cs, s.LeafCount(), |cs| - 1, j, |cs| - 1);
  }

  lemma RowSplit(s: Staging, a: nat, b: nat, c: nat)
    requires Good(s) && a <= b <= c <= |s.nums|
    ensures ForestLeaves(Row(s, a, c)) == ForestLeaves(Row(s, a, b)) + ForestLeaves(Row(s, b, c))
  {
    assert Row(s, a, c) == Row(s, a, b) + Row(s, b, c);
    ForestLeavesConcat(Row(s, a, b), Row(s, b, c));
  }

  lemma SingleRow(s: Staging, a: nat)
    requires Good(s) && a < |s.nums|
    ensures ForestLeaves(Row(s, a, a + 1)) == LeavesOf(TreeAt(s, a))
  {
    assert Row(s, a, a + 1) == [TreeAt(s, a)];
    assert [TreeAt(s, a)][1..] == [];
  }

  lemma RowDownStep(s: Staging, a: nat, m: nat, b: nat, c: nat, d: nat)
    requires Good(s) && a <= m < |s.nums| && b <= c < d <= |s.nums|
    requires TreeAt(s, m).kids == Row(s, c, d)
    requires ForestLeaves(Row(s, a, m)) == ForestLeaves(Row(s, b, c))
    ensures ForestLeaves(Row(s, a, m + 1)) == ForestLeaves(Row(s, b, d))
  {
    RowSplit(s, a, m, m + 1);
    RowSplit(s, b, c, d);
    SingleRow(s, m);
  }

  // A run of internal pages has the leaves of their children together.
  lemma {:induction false} RowDown(s: Staging, tops: seq<nat>, cs: seq<nat>, i: nat, j: nat)
    requires Good(s) && Laid(s, tops, cs) && i <= j < |cs|
    ensures cs[i] <= cs[j] <= |s.nums|
    ensures ForestLeaves(Row(s, s.LeafCount() + i, s.LeafCount() + j)) == ForestLeaves(Row(s, cs[i], cs[j]))
    decreases j
  {
    StartsMonotone(s, tops, cs, i, j);
    if i < j {
      var m := j - 1;
      RowDown(s, tops, cs, i, m);
      KidsAreARow(s, tops, cs, m);
      assert s.LeafCount() + m < |s.nums|;
      RowDownStep(s, s.LeafCount() + i, s.LeafCount() + m, cs[i], cs[m], cs[j]);
    } else {
      assert Row(s, s.LeafCount() + i, s.LeafCount() + j) == [] == Row(s, cs[i], cs[j]);
    }
  }

  // Each level starts behind the one below it.
  lemma {:induction false} LevelStartsRise(s: Staging, tops: seq<nat>, cs: seq<nat>, marks: seq<nat>, t: nat)
    requires Built(s, tops, cs, marks) && t + 1 < |marks|
    ensures marks[t] < marks[t + 1]
  {
    assert MarkOk(marks, cs, s.LeafCount(), t + 1);
    if t > 0 {
      LevelStartsRise(s, tops, cs, marks, t - 1);
      assert MarkOk(marks, cs, s.LeafCount(), t);
      if marks[t + 1] <= marks[t] {
        StartsMonotone(s, tops, cs, marks[t + 1] - s.LeafCount(), marks[t] - s.LeafCount());
      }
    }
  }

  // The children of level `t` are the nodes of level `t - 1`.
  lemma LevelBounds(s: Staging, tops: seq<nat>, cs: seq<nat>, marks: seq<nat>, t: nat)
    requires Built(s, tops, cs, marks) && t < |marks|
    ensures marks[t] < LevelEnd(marks, s, t) <= |s.nums|
    ensures t > 0 ==>
      && s.LeafCount() <= marks[t] && LevelEnd(marks, s, t) - s.LeafCount() < |cs|
      && cs[marks[t] - s.LeafCount()] == marks[t - 1]
      && cs[LevelEnd(marks, s, t) - s.LeafCount()] == marks[t] == LevelEnd(marks, s, t - 1)
  {
    assert t > 0 ==> MarkOk(marks, cs, s.LeafCount(), t);
    if t + 1 < |marks| {
      assert MarkOk(marks, cs, s.LeafCount(), t + 1);
      LevelStartsRise(s, tops, cs, marks, t);
    }
  }

  // Level by level, the leaves below are the whole chain.
  lemma {:induction false} LevelLeaves(s: Staging, tops: seq<nat>, cs: seq<nat>, marks: seq<nat>, t: nat)
    requires Good(s) && Built(s, tops, cs, marks) && t < |marks|
    ensures marks[t] < LevelEnd(marks, s, t) <= |s.nums|
    ensures ForestLeaves(Row(s, marks[t], LevelEnd(marks, s, t))) == s.nums[..s.LeafCount()]
  {
    LevelBounds(s, tops, cs, marks, t);
    if t == 0 {
      FewInternalPages(s.LeafCount(), FANOUT);
      LeafRow(s, s.LeafCount());
    } else {
      LevelLeaves(s, tops, cs, marks, t - 1);
      RowDown(s, tops, cs, marks[t] - s.LeafCount(), LevelEnd(marks, s, t) - s.LeafCount());
    }
  }

  lemma {:induction false} LeafRow(s: Staging, n: nat)
    requires Good(s) && n <= s.LeafCount()
    ensures ForestLeaves(Row(s, 0, n)) == s.nums[..n]
  {
    if n == 0 {
      assert Row(s, 0, 0) == [];
    } else {
      LeafRow(s, n - 1);
      RowSplit(s, 0, n - 1, n);
      SingleRow(s, n - 1);
    }
  }

  // Read left to right, the leaves of the built tree are the chain.
  lemma LeavesInChainOrder(s: Staging, tops: seq<nat>, cs: seq<nat>, marks: seq<nat>)
    requires Built(s, tops, cs, marks)
    ensures Good(s) && s.rootId < |s.nums|
    ensures LeavesOf(TreeAt(s, s.rootId)) == s.nums[..s.LeafCount()] == s.chain.numbers[..s.LeafCount()]
  {
    LaidIsAccepted(s, tops, cs);
    LevelLeaves(s, tops, cs, marks, s.levels);
    SingleRow(s, s.rootId);
  }

  lemma KidInLevel(s: Staging, tops: seq<nat>, cs: seq<nat>, marks: seq<nat>, t: nat, id: nat, k: nat)
    returns (kid: nat)
    requires Good(s) && Built(s, tops, cs, marks) && 0 < t < |marks|
    requires marks[t] <= id < LevelEnd(marks, s, t) <= |s.nums|
    requires k < |TreeAt(s, id).kids|
    ensures marks[t - 1] <= kid < LevelEnd(marks, s, t - 1) <= |s.nums|
    ensures TreeAt(s, id).kids[k] == TreeAt(s, kid)
  {
    LevelBelow(s, tops, cs, marks, t, id);
    var j := id - s.LeafCount();
    KidsAreARow(s, tops, cs, j);
    KidOfRow(s, TreeAt(s, id).kids, cs[j], cs[j + 1], k);
    kid := cs[j] + k;
  }

  // The children of a node lie in the level below.
  lemma LevelBelow(s: Staging, tops: seq<nat>, cs: seq<nat>, marks: seq<nat>, t: nat, id: nat)
    requires Built(s, tops, cs, marks) && 0 < t < |marks| && marks[t] <= id < LevelEnd(marks, s, t)
    ensures s.LeafCount() <= id < |s.nums| && id - s.LeafCount() + 1 < |cs|
    ensures marks[t - 1] <= cs[id - s.LeafCount()]
    ensures cs[id - s.LeafCount() + 1] <= LevelEnd(marks, s, t - 1) <= |s.nums|
  {
    LevelBounds(s, tops, cs, marks, t);
    var j := id - s.LeafCount();
    StartsMonotone(s, tops, cs, marks[t] - s.LeafCount(), j);
    StartsMonotone(s, tops, cs, j + 1, LevelEnd(marks, s, t) - s.LeafCount());
  }

  lemma KidOfRow(s: Staging, f: seq<Tree>, a: nat, b: nat, k: nat)
    requires Good(s) && a <= b <= |s.nums| && f == Row(s, a, b) && k < |f|
    ensures a + k < b && f[k] == TreeAt(s, a + k)
  {
  }

  lemma {:induction false} LevelIsUniform(s: Staging, tops: seq<nat>, cs: seq<nat>, marks: seq<nat>, t: nat, id: nat)
    requires Good(s) && Built(s, tops, cs, marks) && t < |marks| && marks[t] <= id < LevelEnd(marks, s, t) <= |s.nums|
    ensures Uniform(TreeAt(s, id), t)
    decreases t
  {
    LevelBounds(s, tops, cs, marks, t);
    FewInternalPages(s.LeafCount(), FANOUT);
    if t > 0 {
      LevelBounds(s, tops, cs, marks, t - 1);
      var kids := TreeAt(s, id).kids;
      forall k | 0 <= k < |kids| ensures Uniform(kids[k], t - 1) {
        var kid := KidInLevel(s, tops, cs, marks, t, id, k);
        LevelIsUniform(s, tops, cs, marks, t - 1, kid);
      }
      assert id >= s.LeafCount();
    }
  }

  // All leaves lie at depth `levels`.
  lemma DepthIsLevels(s: Staging, tops: seq<nat>, cs: seq<nat>, marks: seq<nat>)
    requires Built(s, tops, cs, marks)
    ensures Good(s) && s.rootId < |s.nums| && Uniform(TreeAt(s, s.rootId), s.levels)
  {
    LaidIsAccepted(s, tops, cs);
    LevelIsUniform(s, tops, cs, marks, s.levels, s.rootId);
  }

  // The child whose separator is the first not below `key`; the right child if all are.
  function Route(p: Page, key: nat, k: nat): (r: nat)
    requires k <= |p.cells|
    ensures k <= r <= |p.cells|
    ensures forall i :: k <= i < r ==> p.cells[i].key < key
    ensures r < |p.cells| ==> key <= p.cells[r].key
    decreases |p.cells| - k
  {
    if k == |p.cells| || key <= p.cells[k].key then k else Route(p, key, k + 1)
  }

  method FindChild(p: Page, key: nat) returns (child: nat)
    requires Increasing(p.Separators())
    ensures child == p.Child(Route(p, key, 0))
  {
    var minIndex, maxIndex := 0, |p.cells|;
    while minIndex != maxIndex
      invariant 0 <= minIndex <= Route(p, key, 0) <= maxIndex <= |p.cells|
      decreases maxIndex - minIndex
    {
      var index := (minIndex + maxIndex) / 2;
      var keyToRight := p.cells[index].key;
      assert p.Separators()[index] == keyToRight;
      ghost var r := Route(p, key, 0);
      if keyToRight >= key {
        maxIndex := index;
      } else {
        assert r < |p.cells| ==> p.Separators()[r] >= key;
        minIndex := index + 1;
      }
    }
    child := p.Child(minIndex);
  }

  // The node where a descent from `id` ends.
  ghost function Descend(s: Staging, id: nat, key: nat): (leaf: nat)
    requires Good(s) && id < |s.nums|
    ensures leaf < s.LeafCount()
    decreases |s.nums| - s.LeafCount() - Rank(s, id)
  {
    if id < s.LeafCount() then id
    else
      var k := Route(s.images[id], key, 0);
      KidFacts(s, id, k);
      Descend(s, KidId(s, id, k), key)
  }

  // `y` is where `key` belongs within its level.
  ghost predicate Fits(tops: seq<nat>, first: nat, end: nat, y: nat, key: nat) {
    && first <= y < end <= |tops|
    && (y > first ==> tops[y - 1] < key)
    && (y + 1 < end ==> key <= tops[y])
  }

  // The children `lo..hi` of node `id` of a level `first..end` within the level `first'..end'` below.
  ghost predicate Span(tops: seq<nat>, lo: nat, hi: nat, first': nat, end': nat, first: nat, end: nat, id: nat) {
    && first <= id < end <= |tops| && first' <= lo < hi <= end' <= |tops|
    && (id == first ==> lo == first')
    && (id > first ==> lo > 0 && tops[lo - 1] == tops[id - 1])
    && (id + 1 == end ==> hi == end')
    && tops[hi - 1] == tops[id]
  }

  lemma ChildSpan(s: Staging, tops: seq<nat>, cs: seq<nat>, marks: seq<nat>, t: nat, id: nat)
    requires Built(s, tops, cs, marks) && 0 < t < |marks| && marks[t] <= id < LevelEnd(marks, s, t)
    ensures s.LeafCount() <= id < |s.nums| && id - s.LeafCount() + 1 < |cs|
    ensures Span(tops, cs[id - s.LeafCount()], cs[id - s.LeafCount() + 1], marks[t - 1], LevelEnd(marks, s, t - 1),
                 marks[t], LevelEnd(marks, s, t), id)
  {
    LevelBounds(s, tops, cs, marks, t);
    LevelBelow(s, tops, cs, marks, t, id);
    var j := id - s.LeafCount();
    PlacedTop(s, tops, cs, j);
    if id > marks[t] {
      PlacedTop(s, tops, cs, j - 1);
    }
  }

  // A parent has at least one child, and the key range of the last one ends its own.
  lemma PlacedTop(s: Staging, tops: seq<nat>, cs: seq<nat>, j: nat)
    requires Laid(s, tops, cs) && s.LeafCount() + j < |s.nums|
    ensures |s.nums| <= |tops| && j + 1 < |cs| && cs[j] < cs[j + 1] <= |tops|
    ensures tops[cs[j + 1] - 1] == tops[s.LeafCount() + j]
  {
    assert Placed(s.images, s.nums, tops, cs, s.LeafCount(), j);
  }

  // The child chosen within one page is where `key` belongs among its siblings.
  lemma RouteInPage(s: Staging, tops: seq<nat>, cs: seq<nat>, id: nat, key: nat) returns (kid: nat)
    requires Good(s) && Laid(s, tops, cs) && s.LeafCount() <= id < |s.nums|
    ensures kid == KidId(s, id, Route(s.images[id], key, 0)) < |s.nums|
    ensures id - s.LeafCount() + 1 < |cs|
    ensures Fits(tops, cs[id - s.LeafCount()], cs[id - s.LeafCount() + 1], kid, key)
  {
    var j := id - s.LeafCount();
    var k := Route(s.images[id], key, 0);
    kid := KidId(s, id, k);
    assert Placed(s.images, s.nums, tops, cs, s.LeafCount(), j);
    KidIsNext(s, tops, cs, j, k);
    assert KidPlaced(s.images, s.nums, tops, cs, s.LeafCount(), j, k);
    assert k > 0 ==> KidPlaced(s.images, s.nums, tops, cs, s.LeafCount(), j, k - 1);
  }

  lemma SpanFits(tops: seq<nat>, lo: nat, hi: nat, first': nat, end': nat, first: nat, end: nat, id: nat, kid: nat,
                 key: nat)
    requires Fits(tops, first, end, id, key) && Fits(tops, lo, hi, kid, key)
    requires Span(tops, lo, hi, first', end', first, end, id)
    ensures Fits(tops, first', end', kid, key)
  {
  }

  // One step down keeps the key where it belongs.
  lemma RouteFits(s: Staging, tops: seq<nat>, cs: seq<nat>, marks: seq<nat>, t: nat, id: nat, key: nat)
    returns (kid: nat)
    requires Good(s) && Built(s, tops, cs, marks) && 0 < t < |marks|
    requires Fits(tops, marks[t], LevelEnd(marks, s, t), id, key)
    ensures s.LeafCount() <= id < |s.nums|
    ensures kid == KidId(s, id, Route(s.images[id], key, 0)) < |s.nums|
    ensures Fits(tops, marks[t - 1], LevelEnd(marks, s, t - 1), kid, key)
  {
    ChildSpan(s, tops, cs, marks, t, id);
    kid := RouteInPage(s, tops, cs, id, key);
    SpanFits(tops, cs[id - s.LeafCount()], cs[id - s.LeafCount() + 1], marks[t - 1], LevelEnd(marks, s, t - 1),
             marks[t], LevelEnd(marks, s, t), id, kid, key);
  }

  lemma {:induction false} DescendFits(s: Staging, tops: seq<nat>, cs: seq<nat>, marks: seq<nat>, t: nat, id: nat,
                                       key: nat)
    requires Good(s) && Built(s, tops, cs, marks) && t < |marks|
    requires Fits(tops, marks[t], LevelEnd(marks, s, t), id, key)
    ensures id < |s.nums| && Fits(tops, 0, s.LeafCount(), Descend(s, id, key), key)
    decreases t
  {
    LevelBounds(s, tops, cs, marks, t);
    FewInternalPages(s.LeafCount(), FANOUT);
    if t > 0 {
      var kid := RouteFits(s, tops, cs, marks, t, id, key);
      DescendFits(s, tops, cs, marks, t - 1, kid, key);
    }
  }

  // Descent ends at the leaf between whose neighbours the key lies; a stored
  // key is found in exactly that leaf.
  lemma RoutingIsExact(s: Staging, tops: seq<nat>, cs: seq<nat>, marks: seq<nat>, key: nat)
    requires Built(s, tops, cs, marks)
    ensures Good(s) && s.rootId < |s.nums|
    ensures
      var y := Descend(s, s.rootId, key);
      && (y > 0 ==> s.images[y - 1].LastKey() < key)
      && (y + 1 < s.LeafCount() ==> key <= s.images[y].LastKey())
    ensures forall i :: 0 <= i < s.LeafCount() && key in s.images[i].keys ==> Descend(s, s.rootId, key) == i
  {
    LaidIsAccepted(s, tops, cs);
    LevelBounds(s, tops, cs, marks, s.levels);
    DescendFits(s, tops, cs, marks, s.levels, s.rootId, key);
    var y := Descend(s, s.rootId, key);
    assert y > 0 ==> LeafTop(s.images, tops, y - 1);
    assert LeafTop(s.images, tops, y);
    forall i | 0 <= i < s.LeafCount() && key in s.images[i].keys ensures i == y {
      StoredKeyHome(s, tops, cs, y, i, key);
    }
  }

  lemma StoredKeyHome(s: Staging, tops: seq<nat>, cs: seq<nat>, y: nat, i: nat, key: nat)
    requires Laid(s, tops, cs) && i < s.LeafCount() && y < s.LeafCount() && key in s.images[i].keys
    requires y > 0 ==> s.images[y - 1].LastKey() < key
    requires y + 1 < s.LeafCount() ==> key <= s.images[y].LastKey()
    ensures i == y
  {
    var leaves := s.chain.leaves;
    assert forall k :: 0 <= k < s.LeafCount() ==> s.images[k] == s.images[..s.LeafCount()][k];
    assert LeafInChain(leaves, s.chain.numbers, i);
    var m :| 0 <= m < |leaves[i].keys| && leaves[i].keys[m] == key;
    FirstIsLeast(leaves[i].keys, m);
    if i < y {
      assert LeafTop(s.images, tops, i) && LeafTop(s.images, tops, y - 1);
      if i < y - 1 {
        LeavesInOrder(leaves, s.chain.numbers, i, y - 1);
        assert LeafInChain(leaves, s.chain.numbers, y - 1);
        FirstIsLeast(leaves[y - 1].keys, |leaves[y - 1].keys| - 1);
      }
    } else if y < i {
      assert LeafTop(s.images, tops, y);
      LeavesInOrder(leaves, s.chain.numbers, y, i);
    }
  }

  // The search of a reader over the pages of a file (src/leaf_cursor_read.c:195-234).
  method FindLeaf(pages: seq<Page>, page: nat, key: nat, depth: nat, ghost s: Staging, ghost id: nat)
    returns (ok: bool, leaf: nat)
    requires Good(s) && Holds(pages, s) && id < |s.nums| && page == s.nums[id]
    requires Rank(s, id) == depth
    ensures ok && leaf == s.nums[Descend(s, id, key)]
    decreases |s.nums| - s.LeafCount() - Rank(s, id)
  {
    ok, leaf := false, 0;
    NodeKind(s, id);
    DepthBelowFile(pages, s, id);
    if pages[page].kind.Leaf? {
      return true, page;
    }
    if !pages[page].kind.Internal? || depth > |pages| {
      return;
    }
    ghost var k := Route(s.images[id], key, 0);
    KidFacts(s, id, k);
    Numbered(s, id);
    Numbered(s, KidId(s, id, k));
    var child := FindChild(pages[page], key);
    if child >= |pages| || child == page {
      return;
    }
    ok, leaf := FindLeaf(pages, child, key, depth + 1, s, KidId(s, id, k));
  }

  lemma NodeKind(s: Staging, id: nat)
    requires Good(s) && id < |s.nums|
    ensures id < s.LeafCount() ==> s.images[id].kind.Leaf?
    ensures id >= s.LeafCount() ==> s.images[id].kind.Internal? && Increasing(s.images[id].Separators())
  {
    if id < s.LeafCount() {
      assert LeafAccepted(s, id);
    } else {
      assert NodeAccepted(s, id);
      SeparatorsRise(s, id, |s.images[id].cells|);
    }
  }

  lemma {:induction false} SeparatorsRise(s: Staging, id: nat, n: nat)
    requires Good(s) && s.LeafCount() <= id < |s.nums| && n <= |s.images[id].cells|
    ensures forall i, j :: 0 <= i < j < n ==> s.images[id].Separators()[i] < s.images[id].Separators()[j]
  {
    if n > 1 {
      SeparatorsRise(s, id, n - 1);
      assert NodeAccepted(s, id);
      assert ChildAccepted(s, s.nums[id], s.images[id], n - 1);
    }
  }

  lemma DepthBelowFile(pages: seq<Page>, s: Staging, id: nat)
    requires Good(s) && Holds(pages, s) && id < |s.nums|
    ensures Rank(s, id) <= |pages|
  {
    ValidNumbersAreDistinct(s.nums, s.LeafCount());
    forall x | x in s.nums ensures x < |pages| {
      var i :| 0 <= i < |s.nums| && s.nums[i] == x;
    }
    DistinctBelow(s.nums, |pages|);
  }
}
