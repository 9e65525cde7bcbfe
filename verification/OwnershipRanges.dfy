/** The second phase of the ownership walk: key ranges are resolved bottom-up by
    repeated passes over the queue until every page has one
    (src/fixed_v1_tree_reclaim.h:242-297). */
module OwnershipRanges {
  import opened Pages
  import opened Trees
  import opened LevelOrder
  import opened OldTree
  import opened OwnershipWalk

  // The subtree of entry `i` is well formed.
  ghost predicate SubtreeOk(pages: seq<Page>, free: seq<nat>, root: nat, t: Tree) {
    forall s :: s in Subtrees(t) ==> NodeOk(pages, free, root, s)
  }

  // All entries have been visited.
  ghost predicate Walked(pages: seq<Page>, free: seq<nat>, root: nat, slots: seq<Slot>, q: seq<nat>, st: seq<nat>) {
    && Traversed(pages, free, root, slots, q, st, |q|)
    && Layout(pages, q, st)
  }

  lemma TraversedIsWalked(pages: seq<Page>, free: seq<nat>, root: nat, slots: seq<Slot>, q: seq<nat>, st: seq<nat>)
    requires Traversed(pages, free, root, slots, q, st, |q|)
    ensures Walked(pages, free, root, slots, q, st)
  {
    forall i | 0 <= i < |q| ensures Expanded(pages, q, st, i) {
      assert Settled(pages, free, root, slots, q, st, i);
    }
  }

  // A resolved entry roots a well-formed subtree with the recorded range; an
  // unresolved one is internal.
  ghost predicate RangeOk(pages: seq<Page>, free: seq<nat>, root: nat, slots: seq<Slot>, q: seq<nat>, st: seq<nat>,
                          i: nat)
    requires Layout(pages, q, st) && i < |q|
  {
    var t := SubTree(pages, q, st, i);
    && q[i] < |slots| == |pages|
    && (if slots[q[i]].resolved then
          SubtreeOk(pages, free, root, t)
          && slots[q[i]].lo == MinKey(pages, t) && slots[q[i]].hi == MaxKey(pages, t)
        else pages[q[i]].kind.Internal?)
  }

  // Child `k` of a page may extend the ranges resolved so far.
  predicate ChildReady(slots: seq<Slot>, cells: seq<Cell>, children: seq<nat>, k: nat)
    requires k < |children|
  {
    && children[k] < |slots| && slots[children[k]].resolved
    && (k > 0 ==> children[k - 1] < |slots| && slots[children[k - 1]].hi < slots[children[k]].lo)
    && (k < |cells| ==> cells[k].key == slots[children[k]].hi)
  }

  ghost predicate Ready(slots: seq<Slot>, page: Page) {
    forall k :: 0 <= k <= |page.cells| ==> ChildReady(slots, page.cells, page.Children(), k)
  }

  method TryResolve(slots: array<Slot>, page: Page, p: nat) returns (ready: bool)
    requires p < slots.Length
    modifies slots
    ensures ready <==> old(Ready(slots[..], page))
    ensures !ready ==> slots[..] == old(slots[..])
    ensures ready ==> page.Child(0) < slots.Length && page.right < slots.Length
    ensures ready ==> slots[..] == old(slots[..])[p := old(slots[p]).(resolved := true,
                                     lo := old(slots[page.Child(0)].lo), hi := old(slots[page.right].hi))]
  {
    var children := page.Children();
    var i := 0;
    while i <= |page.cells|
      invariant 0 <= i <= |children|
      invariant forall k :: 0 <= k < i ==> ChildReady(slots[..], page.cells, children, k)
      invariant i > 0 ==> children[i - 1] < slots.Length && slots[children[i - 1]].resolved
    {
      var child := children[i];
      if child >= slots.Length || !slots[child].resolved
         || (i > 0 && slots[children[i - 1]].hi >= slots[child].lo)
         || (i < |page.cells| && page.cells[i].key != slots[child].hi) {
        assert !ChildReady(slots[..], page.cells, children, i);
        return false;
      }
      i := i + 1;
    }
    assert ChildReady(slots[..], page.cells, children, 0);
    slots[p] := slots[p].(resolved := true, lo := slots[children[0]].lo, hi := slots[children[|page.cells|]].hi);
    return true;
  }

  lemma KidAt(pages: seq<Page>, q: seq<nat>, st: seq<nat>, i: nat, k: nat)
    requires Layout(pages, q, st) && i < |q| && q[i] < |pages| && k < |pages[q[i]].Edges()|
    ensures |SubTree(pages, q, st, i).kids| == |pages[q[i]].Edges()|
    ensures i < st[i] + k < |q|
    ensures pages[q[i]].Edges()[k] == q[st[i] + k]
    ensures SubTree(pages, q, st, i).kids[k] == SubTree(pages, q, st, st[i] + k)
  {
    assert Expanded(pages, q, st, i);
    assert q[st[i]..st[i + 1]][k] == q[st[i] + k];
  }

  // What the first phase established about one kid.
  lemma KidLinked(pages: seq<Page>, free: seq<nat>, root: nat, slots: seq<Slot>, q: seq<nat>, st: seq<nat>, i: nat,
                  k: nat)
    requires Walked(pages, free, root, slots, q, st) && i < |q| && q[i] < |pages| && k < |pages[q[i]].Edges()|
    ensures st[i] + k < |q|
    ensures
      var kid := q[st[i] + k];
      kid != 0 && kid != root && kid < |pages| && pages[kid].parent == q[i]
  {
    KidAt(pages, q, st, i, k);
    assert Settled(pages, free, root, slots, q, st, i);
    assert Settled(pages, free, root, slots, q, st, st[i] + k);
    assert q[st[i] + k] != q[0];
  }

  // The conditions on an entry that do not involve key ranges below it.
  lemma EntryHeader(pages: seq<Page>, free: seq<nat>, root: nat, slots: seq<Slot>, q: seq<nat>, st: seq<nat>, i: nat)
    requires Walked(pages, free, root, slots, q, st) && i < |q| && q[i] < |pages|
    requires forall k :: 0 <= k < |pages[q[i]].Edges()| ==> KidOk(pages, root, SubTree(pages, q, st, i), k)
    ensures NodeOk(pages, free, root, SubTree(pages, q, st, i))
  {
    assert Settled(pages, free, root, slots, q, st, i);
    SubTreeMatches(pages, q, st, i);
  }

  lemma LeafEntryOk(pages: seq<Page>, free: seq<nat>, root: nat, slots: seq<Slot>, q: seq<nat>, st: seq<nat>, i: nat)
    requires Walked(pages, free, root, slots, q, st) && i < |q| && q[i] < |pages|
    ensures RangeOk(pages, free, root, slots, q, st, i)
  {
    assert Settled(pages, free, root, slots, q, st, i);
    var t := SubTree(pages, q, st, i);
    if pages[q[i]].kind.Leaf? {
      assert t.kids == [];
      assert Subtrees(t) == {t};
      EntryHeader(pages, free, root, slots, q, st, i);
    }
  }

  // Kid `k` of `t` is well formed and its range is recorded.
  ghost predicate ReadyKid(pages: seq<Page>, free: seq<nat>, root: nat, slots: seq<Slot>, t: Tree, page: Page, k: nat) {
    && k < |t.kids| && k < |page.Children()|
    && KidOk(pages, root, t, k) && SubtreeOk(pages, free, root, t.kids[k])
    && page.Children()[k] < |slots|
    && slots[page.Children()[k]].lo == MinKey(pages, t.kids[k])
    && slots[page.Children()[k]].hi == MaxKey(pages, t.kids[k])
  }

  lemma KidIsWellFormed(pages: seq<Page>, free: seq<nat>, root: nat, slots: seq<Slot>, marks: seq<Slot>,
                        q: seq<nat>, st: seq<nat>, i: nat, k: nat)
    requires Walked(pages, free, root, marks, q, st) && i < |q| && q[i] < |pages| && pages[q[i]].kind.Internal?
    requires forall j :: 0 <= j < |q| ==> RangeOk(pages, free, root, slots, q, st, j)
    requires Ready(slots, pages[q[i]]) && k < |pages[q[i]].Edges()|
    ensures ReadyKid(pages, free, root, slots, SubTree(pages, q, st, i), pages[q[i]], k)
  {
    var page := pages[q[i]];
    KidAt(pages, q, st, i, k);
    KidLinked(pages, free, root, marks, q, st, i, k);
    assert ChildReady(slots, page.cells, page.Children(), k);
    assert RangeOk(pages, free, root, slots, q, st, st[i] + k);
    if k > 0 {
      KidAt(pages, q, st, i, k - 1);
      assert ChildReady(slots, page.cells, page.Children(), k - 1);
      assert RangeOk(pages, free, root, slots, q, st, st[i] + (k - 1));
    }
  }

  lemma SubtreeFromKids(pages: seq<Page>, free: seq<nat>, root: nat, t: Tree)
    requires NodeOk(pages, free, root, t) && forall k :: 0 <= k < |t.kids| ==> SubtreeOk(pages, free, root, t.kids[k])
    ensures SubtreeOk(pages, free, root, t)
  {
    forall s | s in Subtrees(t) ensures NodeOk(pages, free, root, s) {
      if s != t {
        var k :| 0 <= k < |t.kids| && s in Subtrees(t.kids[k]);
        assert SubtreeOk(pages, free, root, t.kids[k]);
      }
    }
  }

  lemma ReadyIsWellFormed(pages: seq<Page>, free: seq<nat>, root: nat, slots: seq<Slot>, marks: seq<Slot>,
                          q: seq<nat>, st: seq<nat>, i: nat)
    requires Walked(pages, free, root, marks, q, st) && i < |q| && q[i] < |pages| && pages[q[i]].kind.Internal?
    requires forall j :: 0 <= j < |q| ==> RangeOk(pages, free, root, slots, q, st, j)
    requires Ready(slots, pages[q[i]])
    ensures SubtreeOk(pages, free, root, SubTree(pages, q, st, i))
    ensures pages[q[i]].Child(0) < |slots| && pages[q[i]].right < |slots|
    ensures slots[pages[q[i]].Child(0)].lo == MinKey(pages, SubTree(pages, q, st, i))
    ensures slots[pages[q[i]].right].hi == MaxKey(pages, SubTree(pages, q, st, i))
  {
    var t, page := SubTree(pages, q, st, i), pages[q[i]];
    forall k | 0 <= k < |page.Edges()| ensures ReadyKid(pages, free, root, slots, t, page, k) {
      KidIsWellFormed(pages, free, root, slots, marks, q, st, i, k);
    }
    KidAt(pages, q, st, i, 0);
    forall k | 0 <= k < |t.kids| ensures KidOk(pages, root, t, k) && SubtreeOk(pages, free, root, t.kids[k]) {
      assert ReadyKid(pages, free, root, slots, t, page, k);
    }
    EntryHeader(pages, free, root, marks, q, st, i);
    SubtreeFromKids(pages, free, root, t);
    assert |t.kids| == |page.Edges()|;
    assert ReadyKid(pages, free, root, slots, t, page, 0) && ReadyKid(pages, free, root, slots, t, page, |page.cells|);
  }

  lemma KidIsReady(pages: seq<Page>, free: seq<nat>, root: nat, slots: seq<Slot>, q: seq<nat>, st: seq<nat>, i: nat,
                   k: nat)
    requires Layout(pages, q, st) && i < |q| && q[i] < |pages| && k < |pages[q[i]].Edges()|
    requires forall j :: 0 <= j < |q| ==> RangeOk(pages, free, root, slots, q, st, j)
    requires forall j :: i < j < |q| ==> q[j] < |slots| && slots[q[j]].resolved
    ensures |SubTree(pages, q, st, i).kids| == |pages[q[i]].Edges()|
    ensures
      var e := pages[q[i]].Edges()[k];
      e < |slots| && slots[e].resolved
      && slots[e].lo == MinKey(pages, SubTree(pages, q, st, i).kids[k])
      && slots[e].hi == MaxKey(pages, SubTree(pages, q, st, i).kids[k])
  {
    KidAt(pages, q, st, i, k);
    assert RangeOk(pages, free, root, slots, q, st, st[i] + k);
  }

  // A well-formed entry whose kids are all resolved is ready: no pass can stall on it.
  lemma WellFormedIsReady(pages: seq<Page>, free: seq<nat>, root: nat, slots: seq<Slot>, marks: seq<Slot>,
                          q: seq<nat>, st: seq<nat>, i: nat)
    requires Walked(pages, free, root, marks, q, st) && i < |q| && q[i] < |pages| && pages[q[i]].kind.Internal?
    requires forall j :: 0 <= j < |q| ==> RangeOk(pages, free, root, slots, q, st, j)
    requires forall j :: i < j < |q| ==> q[j] < |slots| && slots[q[j]].resolved
    requires NodeOk(pages, free, root, SubTree(pages, q, st, i))
    ensures Ready(slots, pages[q[i]])
  {
    var t, page := SubTree(pages, q, st, i), pages[q[i]];
    forall k | 0 <= k <= |page.cells| ensures ChildReady(slots, page.cells, page.Children(), k) {
      KidIsReady(pages, free, root, slots, q, st, i, k);
      assert KidOk(pages, root, t, k);
      if k > 0 {
        KidIsReady(pages, free, root, slots, q, st, i, k - 1);
      }
    }
  }

  ghost function ResolvedPages(slots: seq<Slot>, q: seq<nat>): set<nat> {
    set x | x in q && x < |slots| && slots[x].resolved
  }

  // Resolving ranges leaves marks, types and links alone.
  predicate SameLinks(a: seq<Slot>, b: seq<Slot>) {
    && |a| == |b|
    && forall x :: 0 <= x < |a| ==>
         a[x].seen == b[x].seen && a[x].kind == b[x].kind && a[x].prev == b[x].prev && a[x].next == b[x].next
  }

  ghost predicate RangesOk(pages: seq<Page>, free: seq<nat>, root: nat, slots: seq<Slot>, q: seq<nat>, st: seq<nat>)
    requires Layout(pages, q, st)
  {
    forall j :: 0 <= j < |q| ==> RangeOk(pages, free, root, slots, q, st, j)
  }

  lemma ResolveEntry(pages: seq<Page>, free: seq<nat>, root: nat, before: seq<Slot>, marks: seq<Slot>,
                     q: seq<nat>, st: seq<nat>, i: nat, after: seq<Slot>)
    requires Walked(pages, free, root, marks, q, st) && i < |q| && q[i] < |pages| == |before|
    requires pages[q[i]].kind.Internal? && !before[q[i]].resolved
    requires RangesOk(pages, free, root, before, q, st)
    requires Ready(before, pages[q[i]])
    requires pages[q[i]].Child(0) < |before| && pages[q[i]].right < |before|
    requires after == before[q[i] := before[q[i]].(resolved := true, lo := before[pages[q[i]].Child(0)].lo,
                                                                     hi := before[pages[q[i]].right].hi)]
    ensures RangesOk(pages, free, root, after, q, st)
    ensures |ResolvedPages(after, q)| == |ResolvedPages(before, q)| + 1
  {
    ReadyIsWellFormed(pages, free, root, before, marks, q, st, i);
    forall j | 0 <= j < |q| ensures RangeOk(pages, free, root, after, q, st, j) {
      assert RangeOk(pages, free, root, before, q, st, j);
      assert j != i ==> q[j] != q[i];
    }
    assert ResolvedPages(after, q) == ResolvedPages(before, q) + {q[i]};
  }

  // When nothing more can be resolved, some subtree is malformed.
  lemma {:induction false} Stalled(pages: seq<Page>, free: seq<nat>, root: nat, slots: seq<Slot>, marks: seq<Slot>,
                                   q: seq<nat>, st: seq<nat>, from: nat)
    requires Walked(pages, free, root, marks, q, st) && from <= |q|
    requires RangesOk(pages, free, root, slots, q, st)
    requires Blocked(pages, slots, q, |q|)
    requires forall j :: from <= j < |q| ==> q[j] < |slots| && slots[q[j]].resolved
    requires SubtreeOk(pages, free, root, SubTree(pages, q, st, 0))
    ensures forall j :: 0 <= j < |q| ==> q[j] < |slots| && slots[q[j]].resolved
  {
    if from > 0 {
      var i := from - 1;
      assert RangeOk(pages, free, root, slots, q, st, i);
      if !slots[q[i]].resolved {
        EntriesAreSubtrees(pages, q, st, i);
        WellFormedIsReady(pages, free, root, slots, marks, q, st, i);
      }
      Stalled(pages, free, root, slots, marks, q, st, i);
    }
  }

  lemma AllResolved(slots: seq<Slot>, q: seq<nat>)
    requires Distinct(q)
    ensures |ResolvedPages(slots, q)| <= |q|
    ensures |ResolvedPages(slots, q)| == |q| <==> forall j :: 0 <= j < |q| ==> q[j] < |slots| && slots[q[j]].resolved
  {
    DistinctCardinality(q);
    SubsetCardinality(ResolvedPages(slots, q), Elements(q));
    if |ResolvedPages(slots, q)| == |q| {
      assert forall j :: 0 <= j < |q| ==> q[j] in Elements(q);
    }
    if forall j :: 0 <= j < |q| ==> q[j] < |slots| && slots[q[j]].resolved {
      assert ResolvedPages(slots, q) == Elements(q);
    }
  }

  lemma LeavesAreResolved(pages: seq<Page>, free: seq<nat>, root: nat, marks: seq<Slot>, q: seq<nat>, st: seq<nat>)
    requires Walked(pages, free, root, marks, q, st)
    ensures RangesOk(pages, free, root, marks, q, st)
    ensures ResolvedPages(marks, q) == LeafPages(pages, q)
  {
    forall i | 0 <= i < |q|
      ensures RangeOk(pages, free, root, marks, q, st, i)
      ensures q[i] < |pages| && (marks[q[i]].resolved <==> pages[q[i]].kind.Leaf?)
    {
      assert Settled(pages, free, root, marks, q, st, i);
      LeafEntryOk(pages, free, root, marks, q, st, i);
    }
  }

  // No entry before `i` can be resolved.
  ghost predicate Blocked(pages: seq<Page>, slots: seq<Slot>, q: seq<nat>, i: nat) {
    forall j :: 0 <= j < i < |q| + 1 ==>
      q[j] < |slots| == |pages| && (slots[q[j]].resolved || !Ready(slots, pages[q[j]]))
  }

  // Try to resolve entry `i`.
  method ResolveOne(pages: seq<Page>, slots: array<Slot>, p: nat,
                    ghost free: seq<nat>, ghost root: nat, ghost marks: seq<Slot>, ghost q: seq<nat>,
                    ghost st: seq<nat>, ghost i: nat)
    returns (ready: bool)
    requires Walked(pages, free, root, marks, q, st) && i < |q| && p == q[i]
    requires SameLinks(marks, slots[..])
    requires RangesOk(pages, free, root, slots[..], q, st)
    modifies slots
    ensures SameLinks(marks, slots[..])
    ensures RangesOk(pages, free, root, slots[..], q, st)
    ensures |ResolvedPages(slots[..], q)| == old(|ResolvedPages(slots[..], q)|) + if ready then 1 else 0
    ensures !ready ==> slots[..] == old(slots[..])
    ensures !ready ==> p < |pages| == slots.Length && (slots[p].resolved || !Ready(slots[..], pages[p]))
  {
    assert RangeOk(pages, free, root, slots[..], q, st, i);
    assert Settled(pages, free, root, marks, q, st, i);
    ready := false;
    if !slots[p].resolved && slots[p].kind.Internal? {
      ghost var before := slots[..];
      ready := TryResolve(slots, pages[p], p);
      if ready {
        ResolveEntry(pages, free, root, before, marks, q, st, i, slots[..]);
      }
    }
  }

  // One pass over the queue, resolving what is ready.
  method Pass(pages: seq<Page>, queue: array<nat>, slots: array<Slot>, count: nat,
              ghost free: seq<nat>, ghost root: nat, ghost marks: seq<Slot>, ghost q: seq<nat>, ghost st: seq<nat>)
    returns (progress: nat)
    requires Walked(pages, free, root, marks, q, st)
    requires count <= queue.Length && queue[..count] == q
    requires SameLinks(marks, slots[..])
    requires RangesOk(pages, free, root, slots[..], q, st)
    modifies slots
    ensures SameLinks(marks, slots[..])
    ensures RangesOk(pages, free, root, slots[..], q, st)
    ensures |ResolvedPages(slots[..], q)| == old(|ResolvedPages(slots[..], q)|) + progress
    ensures progress == 0 ==> Blocked(pages, slots[..], q, |q|)
  {
    progress := 0;
    ghost var start := slots[..];
    var i := 0;
    while i < count
      invariant 0 <= i <= count
      invariant SameLinks(marks, slots[..])
      invariant RangesOk(pages, free, root, slots[..], q, st)
      invariant |ResolvedPages(slots[..], q)| == |ResolvedPages(start, q)| + progress
      invariant progress == 0 ==> slots[..] == start && Blocked(pages, start, q, i)
    {
      assert queue[i] == q[i];
      var ready := ResolveOne(pages, slots, queue[i], free, root, marks, q, st, i);
      if ready {
        progress := progress + 1;
      }
      i := i + 1;
    }
  }

  // Passes over the queue until every range is known or a pass makes no progress.
  method ResolveRanges(pages: seq<Page>, queue: array<nat>, slots: array<Slot>, count: nat, leafCount: nat,
                       ghost free: seq<nat>, ghost root: nat, ghost q: seq<nat>, ghost st: seq<nat>)
    returns (ok: bool)
    requires Walked(pages, free, root, slots[..], q, st)
    requires count <= queue.Length && queue[..count] == q
    requires leafCount == |LeafPages(pages, q)|
    modifies slots
    ensures SameLinks(old(slots[..]), slots[..])
    ensures RangesOk(pages, free, root, slots[..], q, st)
    ensures ok <==> SubtreeOk(pages, free, root, SubTree(pages, q, st, 0))
    ensures ok ==> forall j :: 0 <= j < |q| ==> q[j] < slots.Length && slots[q[j]].resolved
  {
    ghost var marks := slots[..];
    var resolvedCount := leafCount;
    LeavesAreResolved(pages, free, root, marks, q, st);
    AllResolved(marks, q);
    while resolvedCount < count
      invariant SameLinks(marks, slots[..])
      invariant RangesOk(pages, free, root, slots[..], q, st)
      invariant resolvedCount == |ResolvedPages(slots[..], q)| <= count
    {
      var progress := Pass(pages, queue, slots, count, free, root, marks, q, st);
      AllResolved(slots[..], q);
      if progress == 0 {
        if SubtreeOk(pages, free, root, SubTree(pages, q, st, 0)) {
          Stalled(pages, free, root, slots[..], marks, q, st, |q|);
        }
        return false;
      }
      resolvedCount := resolvedCount + progress;
    }
    AllResolved(slots[..], q);
    assert RangeOk(pages, free, root, slots[..], q, st, 0);
    return true;
  }
}
