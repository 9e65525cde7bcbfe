/** The last phase of the ownership walk: the leaves must form one reciprocal
    sibling chain in key order (src/fixed_v1_tree_reclaim.h:299-342). */
module OwnershipChain {
  import opened Pages
  import opened Trees
  import opened LevelOrder
  import opened OldTree
  import opened OwnershipWalk
  import opened OwnershipRanges

  // The records of the leaves after the first two phases.
  ghost predicate LeavesKnown(pages: seq<Page>, slots: seq<Slot>, q: seq<nat>, leaves: seq<nat>) {
    && |slots| == |pages|
    && (forall x :: x in leaves <==> x in LeafPages(pages, q))
    && (forall i :: 0 <= i < |leaves| ==> leaves[i] < |pages|)
    && (forall x :: 0 <= x < |slots| ==> (slots[x].seen <==> x in q))
    && (forall x :: x in q ==> x < |slots| && slots[x].kind == pages[x].kind)
    && (forall x :: x in LeafPages(pages, q) ==>
          && slots[x].prev == pages[x].prev && slots[x].next == pages[x].next
          && slots[x].lo == pages[x].FirstKey() && slots[x].hi == pages[x].LastKey()
          && slots[x].lo <= slots[x].hi)
    && (forall i, j :: 0 <= i < j < |leaves| ==> slots[leaves[i]].hi < slots[leaves[j]].lo)
  }

  // The links of leaf `x` lead to leaves that link back and lie on the right side.
  ghost predicate LinkOk(slots: seq<Slot>, x: nat)
    requires x < |slots|
  {
    && (slots[x].prev != 0 ==> StepOk(slots, slots[x].prev, x))
    && (slots[x].next != 0 ==> StepOk(slots, x, slots[x].next))
  }

  predicate StepOk(slots: seq<Slot>, a: nat, b: nat) {
    && a < |slots| && b < |slots|
    && slots[a].seen && slots[a].kind.Leaf? && slots[b].seen && slots[b].kind.Leaf?
    && slots[a].next == b && slots[b].prev == a
    && slots[a].hi < slots[b].lo
  }

  ghost function Leftmost(slots: seq<Slot>, leaves: set<nat>): set<nat> {
    set x | x in leaves && x < |slots| && slots[x].prev == 0
  }

  // Page zero can only be a leaf as the single page of its tree.
  ghost predicate ZeroAlone(leaves: seq<nat>) {
    0 in leaves ==> leaves == [0]
  }

  lemma ChainedLinks(pages: seq<Page>, slots: seq<Slot>, q: seq<nat>, leaves: seq<nat>)
    requires LeavesKnown(pages, slots, q, leaves) && leaves != [] && ZeroAlone(leaves)
    requires Chained(pages, leaves)
    ensures forall x :: x in LeafPages(pages, q) ==> LinkOk(slots, x)
    ensures Leftmost(slots, LeafPages(pages, q)) == {leaves[0]}
    ensures forall i :: 0 <= i < |leaves| ==> slots[leaves[i]].next == (if i + 1 == |leaves| then 0 else leaves[i + 1])
  {
    forall i | 0 <= i < |leaves|
      ensures LinkOk(slots, leaves[i])
      ensures slots[leaves[i]].prev == 0 <==> i == 0
      ensures slots[leaves[i]].next == (if i + 1 == |leaves| then 0 else leaves[i + 1])
    {
      assert leaves[i] in LeafPages(pages, q) && LinkedAt(pages, leaves, i);
      if i > 0 {
        assert leaves[i - 1] in LeafPages(pages, q) && LinkedAt(pages, leaves, i - 1);
        assert leaves[i - 1] != 0;
      }
      if i + 1 < |leaves| {
        assert leaves[i + 1] in LeafPages(pages, q) && LinkedAt(pages, leaves, i + 1);
      }
    }
  }

  // A chain: each element links to the next, in increasing key order.
  ghost predicate Linked(slots: seq<Slot>, c: seq<nat>) {
    && (forall k :: 0 <= k < |c| ==> c[k] < |slots| && slots[c[k]].seen && slots[c[k]].kind.Leaf?)
    && (forall k :: 1 <= k < |c| ==> StepOk(slots, c[k - 1], c[k]))
    && (forall i, j :: 0 <= i < j < |c| ==> slots[c[i]].hi < slots[c[j]].lo)
  }

  lemma InOneOrder(slots: seq<Slot>, known: set<nat>, a: seq<nat>, b: seq<nat>)
    requires forall x :: x in known ==> x < |slots| && slots[x].lo <= slots[x].hi
    requires forall x :: (x in a <==> x in known) && (x in b <==> x in known)
    requires forall i, j :: 0 <= i < j < |a| ==> a[i] < |slots| && a[j] < |slots| && slots[a[i]].hi < slots[a[j]].lo
    requires forall i, j :: 0 <= i < j < |b| ==> b[i] < |slots| && b[j] < |slots| && slots[b[i]].hi < slots[b[j]].lo
    ensures a == b
  {
    var less := (x: nat, y: nat) => x in known && y in known && x < |slots| && y < |slots| && slots[x].hi < slots[y].lo;
    assert forall x, y :: less(x, y) ==> !less(y, x);
    SortedUnique(a, b, less);
  }

  lemma SameLeaves(pages: seq<Page>, slots: seq<Slot>, q: seq<nat>, leaves: seq<nat>, c: seq<nat>)
    requires LeavesKnown(pages, slots, q, leaves) && Linked(slots, c)
    ensures |c| <= |LeafPages(pages, q)|
    ensures |c| == |LeafPages(pages, q)| ==> c == leaves
  {
    var known := LeafPages(pages, q);
    assert forall k :: 0 <= k < |c| ==> c[k] in known;
    forall i, j | 0 <= i < j < |c| ensures c[i] != c[j] {
      assert c[i] in known && slots[c[i]].lo <= slots[c[i]].hi;
    }
    DistinctCardinality(c);
    SubsetCardinality(Elements(c), known);
    if |c| == |known| {
      forall x ensures x in c <==> x in leaves {
        assert x in Elements(c) <==> x in known;
      }
      InOneOrder(slots, known, leaves, c);
    }
  }

  lemma LinkedIsChained(pages: seq<Page>, slots: seq<Slot>, q: seq<nat>, leaves: seq<nat>)
    requires LeavesKnown(pages, slots, q, leaves) && leaves != [] && Linked(slots, leaves)
    requires slots[leaves[0]].prev == 0 && slots[leaves[|leaves| - 1]].next == 0
    ensures Chained(pages, leaves)
  {
    forall i | 0 <= i < |leaves| ensures LinkedAt(pages, leaves, i) {
      assert leaves[i] in LeafPages(pages, q);
      assert i > 0 ==> StepOk(slots, leaves[i - 1], leaves[i]);
      assert i + 1 < |leaves| ==> StepOk(slots, leaves[i], leaves[i + 1]);
    }
  }

  lemma LinkedAppend(pages: seq<Page>, slots: seq<Slot>, q: seq<nat>, leaves: seq<nat>, c: seq<nat>, x: nat)
    requires LeavesKnown(pages, slots, q, leaves) && Linked(slots, c)
    requires x < |slots| && slots[x].seen && slots[x].kind.Leaf?
    requires c != [] ==> StepOk(slots, c[|c| - 1], x)
    ensures Linked(slots, c + [x])
  {
    forall i | 0 <= i < |c| ensures slots[c[i]].hi < slots[x].lo {
      var last := c[|c| - 1];
      assert last in LeafPages(pages, q) && slots[last].lo <= slots[last].hi;
    }
  }

  lemma LeavesCount(pages: seq<Page>, slots: seq<Slot>, q: seq<nat>, leaves: seq<nat>)
    requires LeavesKnown(pages, slots, q, leaves)
    ensures |leaves| == |LeafPages(pages, q)|
  {
    forall i, j | 0 <= i < j < |leaves| ensures leaves[i] != leaves[j] {
      assert leaves[i] in LeafPages(pages, q);
    }
    DistinctCardinality(leaves);
    assert Elements(leaves) == LeafPages(pages, q);
  }

  // The leaves `known` have been checked, and `leftmost` is one without a predecessor.
  ghost predicate LinksSoFar(slots: seq<Slot>, known: set<nat>, leftmost: nat, found: nat) {
    && (forall x :: x in known ==> x < |slots| && LinkOk(slots, x))
    && found == |Leftmost(slots, known)|
    && (found > 0 ==> leftmost in Leftmost(slots, known))
  }

  lemma LeafPagesNext(pages: seq<Page>, q: seq<nat>, i: nat)
    requires i < |q| && Distinct(q) && q[i] < |pages|
    ensures q[i] !in LeafPages(pages, q[..i])
    ensures pages[q[i]].kind.Leaf? ==> LeafPages(pages, q[..i + 1]) == LeafPages(pages, q[..i]) + {q[i]}
    ensures !pages[q[i]].kind.Leaf? ==> LeafPages(pages, q[..i + 1]) == LeafPages(pages, q[..i])
  {
    assert q[..i + 1] == q[..i] + [q[i]];
  }

  lemma LinksStep(slots: seq<Slot>, known: set<nat>, x: nat, leftmost: nat, found: nat)
    requires LinksSoFar(slots, known, leftmost, found)
    requires x < |slots| && x !in known && LinkOk(slots, x)
    ensures
      if slots[x].prev == 0 then LinksSoFar(slots, known + {x}, x, found + 1)
      else LinksSoFar(slots, known + {x}, leftmost, found)
  {
    if slots[x].prev == 0 {
      assert Leftmost(slots, known + {x}) == Leftmost(slots, known) + {x};
    } else {
      assert Leftmost(slots, known + {x}) == Leftmost(slots, known);
    }
  }

  method CheckLeaf(slots: array<Slot>, p: nat) returns (ok: bool)
    requires p < slots.Length && slots[p].seen && slots[p].kind.Leaf?
    ensures ok <==> LinkOk(slots[..], p)
  {
    if slots[p].prev != 0 {
      var prev := slots[p].prev;
      if prev >= slots.Length || !slots[prev].seen || !slots[prev].kind.Leaf?
         || slots[prev].next != p || slots[prev].hi >= slots[p].lo {
        return false;
      }
    }
    if slots[p].next != 0 {
      var next := slots[p].next;
      if next >= slots.Length || !slots[next].seen || !slots[next].kind.Leaf?
         || slots[next].prev != p || slots[p].hi >= slots[next].lo {
        return false;
      }
    }
    return true;
  }

  // The per-leaf half of the check, and the leaf nobody precedes.
  method CheckLinks(queue: array<nat>, slots: array<Slot>, count: nat,
                    ghost pages: seq<Page>, ghost q: seq<nat>)
    returns (ok: bool, leftmost: nat, leftmostCount: nat)
    requires count <= queue.Length && queue[..count] == q && Distinct(q)
    requires slots.Length == |pages|
    requires forall x :: x in q ==> x < |pages| && slots[x].seen && slots[x].kind == pages[x].kind
    ensures ok <==> forall x :: x in LeafPages(pages, q) ==> LinkOk(slots[..], x)
    ensures ok ==> leftmostCount == |Leftmost(slots[..], LeafPages(pages, q))|
    ensures ok && leftmostCount > 0 ==> leftmost in Leftmost(slots[..], LeafPages(pages, q))
  {
    leftmost, leftmostCount := 0, 0;
    var i := 0;
    assert LeafPages(pages, q[..0]) == {};
    while i < count
      invariant 0 <= i <= count
      invariant LinksSoFar(slots[..], LeafPages(pages, q[..i]), leftmost, leftmostCount)
    {
      var p := queue[i];
      assert p == q[i] && p in q;
      ghost var known := LeafPages(pages, q[..i]);
      LeafPagesNext(pages, q, i);
      if slots[p].kind.Leaf? {
        var good := CheckLeaf(slots, p);
        if !good {
          assert p in LeafPages(pages, q);
          return false, leftmost, leftmostCount;
        }
        LinksStep(slots[..], known, p, leftmost, leftmostCount);
        if slots[p].prev == 0 {
          leftmost := p;
          leftmostCount := leftmostCount + 1;
        }
      }
      i := i + 1;
    }
    assert q[..i] == q;
    return true, leftmost, leftmostCount;
  }

  // Follow `next` from `leftmost`, counting; give up beyond `leafCount` leaves.
  method FollowChain(slots: array<Slot>, leftmost: nat, leafCount: nat,
                     ghost pages: seq<Page>, ghost q: seq<nat>, ghost leaves: seq<nat>)
    returns (chainCount: nat, ghost c: seq<nat>)
    requires LeavesKnown(pages, slots[..], q, leaves)
    requires forall x :: x in LeafPages(pages, q) ==> LinkOk(slots[..], x)
    requires leftmost in LeafPages(pages, q) && leafCount == |LeafPages(pages, q)|
    ensures Linked(slots[..], c) && chainCount == |c|
    ensures c != [] ==> c[0] == leftmost && slots[c[|c| - 1]].next == 0
    ensures c == [] ==> leftmost == 0
  {
    chainCount := 0;
    var current := leftmost;
    c := [];
    while current != 0
      invariant chainCount == |c| && Linked(slots[..], c)
      invariant c == [] ==> current == leftmost
      invariant c != [] ==> c[0] == leftmost && slots[c[|c| - 1]].next == current
      invariant current != 0 ==> current < slots.Length && slots[current].seen && slots[current].kind.Leaf?
      decreases leafCount - chainCount
    {
      assert c != [] ==> c[|c| - 1] in LeafPages(pages, q) && LinkOk(slots[..], c[|c| - 1]);
      LinkedAppend(pages, slots[..], q, leaves, c, current);
      c := c + [current];
      SameLeaves(pages, slots[..], q, leaves, c);
      chainCount := chainCount + 1;
      assert chainCount <= leafCount;
      assert current in LeafPages(pages, q) && LinkOk(slots[..], current);
      current := slots[current].next;
    }
  }

  lemma {:induction false} ChainPrefix(pages: seq<Page>, slots: seq<Slot>, q: seq<nat>, leaves: seq<nat>, c: seq<nat>,
                                       k: nat)
    requires LeavesKnown(pages, slots, q, leaves) && leaves != [] && ZeroAlone(leaves) && Chained(pages, leaves)
    requires Linked(slots, c) && c != [] && c[0] == leaves[0] && k < |c|
    ensures k < |leaves| && c[k] == leaves[k]
  {
    if k > 0 {
      ChainPrefix(pages, slots, q, leaves, c, k - 1);
      assert StepOk(slots, c[k - 1], c[k]);
      assert LinkedAt(pages, leaves, k - 1);
      assert leaves[k - 1] in LeafPages(pages, q) && leaves[k - 1] == c[k - 1];
      assert slots[c[k - 1]].next == c[k] == pages[leaves[k - 1]].next;
      assert c[k] in LeafPages(pages, q) && c[k] in leaves;
      assert slots[c[0]].hi < slots[c[k]].lo;
    }
  }

  // The chain that starts at the leftmost leaf must contain every leaf.
  method CheckChain(root: nat, queue: array<nat>, slots: array<Slot>, count: nat, leafCount: nat,
                    ghost pages: seq<Page>, ghost q: seq<nat>, ghost leaves: seq<nat>)
    returns (ok: bool)
    requires count <= queue.Length && queue[..count] == q && Distinct(q)
    requires LeavesKnown(pages, slots[..], q, leaves) && leaves != [] && ZeroAlone(leaves)
    requires 0 in leaves ==> root == 0
    requires leafCount == |LeafPages(pages, q)| > 0
    ensures ok <==> Chained(pages, leaves)
  {
    if Chained(pages, leaves) {
      ChainedLinks(pages, slots[..], q, leaves);
    }
    var good, leftmost, leftmostCount := CheckLinks(queue, slots, count, pages, q);
    if !good || leftmostCount != 1 {
      return false;
    }
    LeavesCount(pages, slots[..], q, leaves);
    assert leftmost in leaves;
    if leftmost == 0 && root == 0 && leafCount == 1 && slots[0].kind.Leaf? && slots[0].next == 0 {
      assert leaves == [0];
      assert LinkedAt(pages, leaves, 0);
      return true;
    }
    var chainCount, c := FollowChain(slots, leftmost, leafCount, pages, q, leaves);
    WalkDecides(pages, slots[..], q, leaves, leftmost, c);
    return chainCount == leafCount;
  }

  // The walk along `next` from the only leftmost leaf meets every leaf exactly in a chain.
  lemma WalkDecides(pages: seq<Page>, slots: seq<Slot>, q: seq<nat>, leaves: seq<nat>, leftmost: nat, c: seq<nat>)
    requires LeavesKnown(pages, slots, q, leaves) && leaves != [] && ZeroAlone(leaves)
    requires |leaves| == |LeafPages(pages, q)| && Linked(slots, c)
    requires leftmost in LeafPages(pages, q) && slots[leftmost].prev == 0
    requires c != [] ==> c[0] == leftmost && slots[c[|c| - 1]].next == 0
    requires c == [] ==> leftmost == 0
    requires Chained(pages, leaves) ==> leftmost == leaves[0]
    requires leaves == [0] ==> slots[0].next != 0
    ensures |c| == |leaves| <==> Chained(pages, leaves)
  {
    SameLeaves(pages, slots, q, leaves, c);
    if |c| == |leaves| {
      LinkedIsChained(pages, slots, q, leaves);
    } else if Chained(pages, leaves) {
      FirstLeafZero(pages, slots, q, leaves, c);
    }
  }

  // In a chained tree the walk along `next` stops only at the last leaf.
  lemma FirstLeafZero(pages: seq<Page>, slots: seq<Slot>, q: seq<nat>, leaves: seq<nat>, c: seq<nat>)
    requires LeavesKnown(pages, slots, q, leaves) && leaves != [] && ZeroAlone(leaves) && Chained(pages, leaves)
    requires Linked(slots, c) && |c| < |leaves|
    requires c != [] ==> c[0] == leaves[0] && slots[c[|c| - 1]].next == 0
    requires c == [] ==> leaves[0] == 0
    ensures leaves == [0] && c == [] && slots[0].next == 0
  {
    if c != [] {
      assert LinkedAt(pages, leaves, |c| - 1) && leaves[|c|] in leaves;
      assert leaves[|c| - 1] in LeafPages(pages, q);
      ChainPrefix(pages, slots, q, leaves, c, |c| - 1);
      assert false;
    }
    assert LinkedAt(pages, leaves, 0) && leaves[0] in LeafPages(pages, q);
  }
}
