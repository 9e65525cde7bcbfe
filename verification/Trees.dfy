/** Trees over pages.  The walkers never build one; it is the meaning their
    accept/reject answers are compared with. */
module Trees {
  import opened Pages

  datatype Tree = Tree(page: nat, kids: seq<Tree>)

  // A node names a page of the file and its kids are that page's children.
  ghost predicate NodeMatches(pages: seq<Page>, t: Tree) {
    && t.page < |pages|
    && |t.kids| == |pages[t.page].Edges()|
    && forall k :: 0 <= k < |t.kids| ==> t.kids[k].page == pages[t.page].Edges()[k]
  }

  ghost function Subtrees(t: Tree): set<Tree> {
    {t} + (set k, s | 0 <= k < |t.kids| && s in Subtrees(t.kids[k]) :: s)
  }

  ghost predicate Shape(pages: seq<Page>, t: Tree) {
    forall s :: s in Subtrees(t) ==> NodeMatches(pages, s)
  }

  ghost function NodePages(t: Tree): set<nat> {
    set s | s in Subtrees(t) :: s.page
  }

  ghost function PageBag(t: Tree): multiset<nat>
    decreases t, 1
  {
    multiset{t.page} + ForestBag(t.kids)
  }

  ghost function ForestBag(f: seq<Tree>): multiset<nat>
    decreases f, 0
  {
    if f == [] then multiset{} else PageBag(f[0]) + ForestBag(f[1..])
  }

  // The leaves from left to right.
  ghost function LeavesOf(t: Tree): seq<nat>
    decreases t, 1
  {
    if t.kids == [] then [t.page] else ForestLeaves(t.kids)
  }

  ghost function ForestLeaves(f: seq<Tree>): seq<nat>
    decreases f, 0
  {
    if f == [] then [] else LeavesOf(f[0]) + ForestLeaves(f[1..])
  }

  lemma {:induction false} SubtreesTransitive(t: Tree, s: Tree)
    requires s in Subtrees(t)
    ensures Subtrees(s) <= Subtrees(t)
    decreases t
  {
    if s != t {
      var k :| 0 <= k < |t.kids| && s in Subtrees(t.kids[k]);
      SubtreesTransitive(t.kids[k], s);
    }
  }

  lemma KidIsSubtree(t: Tree, s: Tree, k: nat)
    requires s in Subtrees(t) && k < |s.kids|
    ensures s.kids[k] in Subtrees(t)
  {
    assert s.kids[k] in Subtrees(s.kids[k]);
    SubtreesTransitive(t, s);
  }

  // One root page has one tree: a page determines its children.
  lemma {:induction false} ShapeUnique(pages: seq<Page>, a: Tree, b: Tree)
    requires a.page == b.page && Shape(pages, a) && Shape(pages, b)
    ensures a == b
    decreases a
  {
    assert NodeMatches(pages, a) && NodeMatches(pages, b);
    forall k | 0 <= k < |a.kids| ensures a.kids[k] == b.kids[k] {
      KidIsSubtree(a, a, k);
      KidIsSubtree(b, b, k);
      SubtreesTransitive(a, a.kids[k]);
      SubtreesTransitive(b, b.kids[k]);
      ShapeUnique(pages, a.kids[k], b.kids[k]);
    }
  }

  lemma {:induction false} ForestBagConcat(f: seq<Tree>, g: seq<Tree>)
    ensures ForestBag(f + g) == ForestBag(f) + ForestBag(g)
    decreases |f|
  {
    if f == [] {
      assert f + g == g;
    } else {
      assert (f + g)[1..] == f[1..] + g;
      ForestBagConcat(f[1..], g);
    }
  }

  lemma {:induction false} ForestLeavesConcat(f: seq<Tree>, g: seq<Tree>)
    ensures ForestLeaves(f + g) == ForestLeaves(f) + ForestLeaves(g)
    decreases |f|
  {
    if f == [] {
      assert f + g == g;
    } else {
      assert (f + g)[1..] == f[1..] + g;
      ForestLeavesConcat(f[1..], g);
    }
  }

  lemma {:induction false} LeavesAreSubtrees(t: Tree, x: nat)
    ensures x in LeavesOf(t) <==> exists s :: s in Subtrees(t) && s.kids == [] && s.page == x
    decreases t, 1
  {
    if t.kids == [] {
      assert Subtrees(t) == {t};
    } else {
      ForestLeavesAreSubtrees(t.kids, x);
      if x in LeavesOf(t) {
        var k, s :| 0 <= k < |t.kids| && s in Subtrees(t.kids[k]) && s.kids == [] && s.page == x;
        assert s in Subtrees(t);
      }
      if exists s :: s in Subtrees(t) && s.kids == [] && s.page == x {
        var s :| s in Subtrees(t) && s.kids == [] && s.page == x;
        assert exists k :: 0 <= k < |t.kids| && s in Subtrees(t.kids[k]);
      }
    }
  }

  lemma {:induction false} ForestLeavesAreSubtrees(f: seq<Tree>, x: nat)
    ensures x in ForestLeaves(f)
      <==> exists k, s :: 0 <= k < |f| && s in Subtrees(f[k]) && s.kids == [] && s.page == x
    decreases f, 0
  {
    if f != [] {
      LeavesAreSubtrees(f[0], x);
      ForestLeavesAreSubtrees(f[1..], x);
      if x in ForestLeaves(f) {
        if x !in LeavesOf(f[0]) {
          var k, s :| 0 <= k < |f[1..]| && s in Subtrees(f[1..][k]) && s.kids == [] && s.page == x;
          assert f[k + 1] == f[1..][k];
        }
      }
      if k, s :| 0 <= k < |f| && s in Subtrees(f[k]) && s.kids == [] && s.page == x {
        if k > 0 { assert f[1..][k - 1] == f[k]; }
      }
    }
  }

  // Page `p` is reachable from page `r` through at most `n` child pointers.
  ghost predicate Reaches(pages: seq<Page>, r: nat, p: nat, n: nat)
    decreases n
  {
    r == p || (n > 0 && r < |pages| && exists e :: e in pages[r].Edges() && Reaches(pages, e, p, n - 1))
  }

  lemma {:induction false} ReachableIsInTree(pages: seq<Page>, t: Tree, p: nat, n: nat)
    requires Shape(pages, t) && Reaches(pages, t.page, p, n)
    ensures p in NodePages(t)
    decreases n
  {
    assert t in Subtrees(t);
    if t.page != p {
      var e :| e in pages[t.page].Edges() && Reaches(pages, e, p, n - 1);
      var k :| 0 <= k < |t.kids| && t.kids[k].page == e;
      KidIsSubtree(t, t, k);
      SubtreesTransitive(t, t.kids[k]);
      ReachableIsInTree(pages, t.kids[k], p, n - 1);
    }
  }

  lemma {:induction false} TreeIsReachable(pages: seq<Page>, t: Tree, s: Tree) returns (n: nat)
    requires Shape(pages, t) && s in Subtrees(t)
    ensures Reaches(pages, t.page, s.page, n)
    decreases t
  {
    assert NodeMatches(pages, t);
    if s == t {
      n := 0;
    } else {
      var k :| 0 <= k < |t.kids| && s in Subtrees(t.kids[k]);
      KidIsSubtree(t, t, k);
      SubtreesTransitive(t, t.kids[k]);
      var m := TreeIsReachable(pages, t.kids[k], s);
      assert pages[t.page].Edges()[k] in pages[t.page].Edges();
      n := m + 1;
    }
  }
}
