/** What a completed breadth-first queue means.  The children of entry `i` were
    appended together, so they occupy positions `st[i]..st[i+1]` and every entry
    has a larger position than its parent.  Reading the queue backwards gives
    the tree it walked. */
module LevelOrder {
  import opened Pages
  import opened Trees

  // Entry `i` has been expanded: its children are the entries from `st[i]` on.
  ghost predicate Expanded(pages: seq<Page>, q: seq<nat>, st: seq<nat>, i: nat) {
    && i < |q| && i + 1 < |st|
    && q[i] < |pages|
    && i < st[i]
    && st[i + 1] == st[i] + |pages[q[i]].Edges()| <= |q|
    && q[st[i]..st[i + 1]] == pages[q[i]].Edges()
  }

  ghost predicate Layout(pages: seq<Page>, q: seq<nat>, st: seq<nat>) {
    && |q| > 0
    && |st| == |q| + 1
    && st[0] == 1 && st[|q|] == |q|
    && forall i :: 0 <= i < |q| ==> Expanded(pages, q, st, i)
  }

  ghost function SubTree(pages: seq<Page>, q: seq<nat>, st: seq<nat>, i: nat): (t: Tree)
    requires Layout(pages, q, st) && i < |q|
    ensures t.page == q[i]
    decreases |q| - i
  {
    assert Expanded(pages, q, st, i);
    Tree(q[i], seq(st[i + 1] - st[i], k requires 0 <= k < st[i + 1] - st[i] => SubTree(pages, q, st, st[i] + k)))
  }

  lemma SubTreeMatches(pages: seq<Page>, q: seq<nat>, st: seq<nat>, i: nat)
    requires Layout(pages, q, st) && i < |q|
    ensures NodeMatches(pages, SubTree(pages, q, st, i))
  {
    assert Expanded(pages, q, st, i);
    var t, edges := SubTree(pages, q, st, i), pages[q[i]].Edges();
    forall k | 0 <= k < |t.kids| ensures t.kids[k].page == edges[k] {
      assert t.kids[k] == SubTree(pages, q, st, st[i] + k);
      assert q[st[i]..st[i + 1]][k] == q[st[i] + k];
    }
  }

  // Every node of the tree is a queue entry.
  lemma {:induction false} SubtreesAreEntries(pages: seq<Page>, q: seq<nat>, st: seq<nat>, i: nat, s: Tree)
    requires Layout(pages, q, st) && i < |q|
    requires s in Subtrees(SubTree(pages, q, st, i))
    ensures exists j :: i <= j < |q| && s == SubTree(pages, q, st, j)
    decreases |q| - i
  {
    var t := SubTree(pages, q, st, i);
    assert Expanded(pages, q, st, i);
    if s != t {
      var k :| 0 <= k < |t.kids| && s in Subtrees(t.kids[k]);
      SubtreesAreEntries(pages, q, st, st[i] + k, s);
    }
  }

  lemma {:induction false} ParentEntry(pages: seq<Page>, q: seq<nat>, st: seq<nat>, j: nat, from: nat) returns (i: nat)
    requires Layout(pages, q, st) && from < |q|
    requires st[from] <= j < |q|
    ensures i < j && st[i] <= j < st[i + 1]
    decreases |q| - from
  {
    assert Expanded(pages, q, st, from);
    if j < st[from + 1] {
      i := from;
    } else {
      i := ParentEntry(pages, q, st, j, from + 1);
    }
  }

  // Every queue entry is a node of the tree.
  lemma {:induction false} EntriesAreSubtrees(pages: seq<Page>, q: seq<nat>, st: seq<nat>, j: nat)
    requires Layout(pages, q, st) && j < |q|
    ensures SubTree(pages, q, st, j) in Subtrees(SubTree(pages, q, st, 0))
  {
    if j > 0 {
      var i := ParentEntry(pages, q, st, j, 0);
      EntriesAreSubtrees(pages, q, st, i);
      assert Expanded(pages, q, st, i);
      assert SubTree(pages, q, st, i).kids[j - st[i]] == SubTree(pages, q, st, j);
      KidIsSubtree(SubTree(pages, q, st, 0), SubTree(pages, q, st, i), j - st[i]);
    }
  }

  ghost function Pending(pages: seq<Page>, q: seq<nat>, st: seq<nat>, lo: nat, hi: nat): (f: seq<Tree>)
    requires Layout(pages, q, st) && lo <= hi <= |q|
    ensures |f| == hi - lo
  {
    seq(hi - lo, k requires 0 <= k < hi - lo => SubTree(pages, q, st, lo + k))
  }

  // Entry `i` leaves the pending part of the queue and its kids join it.
  lemma PendingMoves(pages: seq<Page>, q: seq<nat>, st: seq<nat>, i: nat)
    requires Layout(pages, q, st) && i < |q| && i < st[i] <= |q| && i + 1 <= st[i + 1] <= |q|
    ensures Pending(pages, q, st, i, st[i]) == [SubTree(pages, q, st, i)] + Pending(pages, q, st, i + 1, st[i])
    ensures Pending(pages, q, st, i + 1, st[i + 1])
         == Pending(pages, q, st, i + 1, st[i]) + SubTree(pages, q, st, i).kids
  {
    assert Expanded(pages, q, st, i);
  }

  lemma PendingStep(pages: seq<Page>, q: seq<nat>, st: seq<nat>, i: nat)
    requires Layout(pages, q, st) && i < |q| && i < st[i] <= |q| && i + 1 <= st[i + 1] <= |q|
    ensures multiset(q[..i + 1]) + ForestBag(Pending(pages, q, st, i + 1, st[i + 1]))
         == multiset(q[..i]) + ForestBag(Pending(pages, q, st, i, st[i]))
  {
    PendingMoves(pages, q, st, i);
    var t, rest := SubTree(pages, q, st, i), Pending(pages, q, st, i + 1, st[i]);
    BagStep(t, rest);
    assert q[..i + 1] == q[..i] + [q[i]];
  }

  lemma BagStep(t: Tree, rest: seq<Tree>)
    ensures multiset{t.page} + ForestBag(rest + t.kids) == ForestBag([t] + rest)
  {
    assert ([t] + rest)[1..] == rest;
    ForestBagConcat(rest, t.kids);
  }

  lemma {:induction false} BagUpTo(pages: seq<Page>, q: seq<nat>, st: seq<nat>, i: nat)
    requires Layout(pages, q, st) && i <= |q|
    ensures i <= st[i] <= |q|
    ensures multiset(q[..i]) + ForestBag(Pending(pages, q, st, i, st[i])) == PageBag(SubTree(pages, q, st, 0))
  {
    if i == 0 {
      assert Pending(pages, q, st, 0, 1) == [SubTree(pages, q, st, 0)];
      assert Pending(pages, q, st, 0, 1)[1..] == [];
    } else {
      BagUpTo(pages, q, st, i - 1);
      assert Expanded(pages, q, st, i - 1);
      assert i < |q| ==> Expanded(pages, q, st, i);
      PendingStep(pages, q, st, i - 1);
    }
  }

  // The queue lists every node of the tree exactly as often as it occurs.
  lemma QueueIsTheTree(pages: seq<Page>, q: seq<nat>, st: seq<nat>)
    requires Layout(pages, q, st)
    ensures Shape(pages, SubTree(pages, q, st, 0))
    ensures multiset(q) == PageBag(SubTree(pages, q, st, 0))
    ensures NodePages(SubTree(pages, q, st, 0)) == Elements(q)
  {
    var t := SubTree(pages, q, st, 0);
    forall s | s in Subtrees(t) ensures NodeMatches(pages, s) && s.page in q {
      SubtreesAreEntries(pages, q, st, 0, s);
      var j :| 0 <= j < |q| && s == SubTree(pages, q, st, j);
      SubTreeMatches(pages, q, st, j);
    }
    forall x | x in q ensures x in NodePages(t) {
      var j :| 0 <= j < |q| && q[j] == x;
      EntriesAreSubtrees(pages, q, st, j);
    }
    BagUpTo(pages, q, st, |q|);
    assert q[..|q|] == q;
  }
}
