/** Whatever the hierarchy check accepts is one tree: walking down from the root
    meets every leaf and internal page exactly once
    (src/compact_v2_staging_hierarchy.h:168-308). */
module StagingSound {
  import opened Pages
  import opened Trees
  import opened LeafChains
  import opened LiveGuard
  import opened StagingGeometry
  import opened StagingTree

  // An accepted hierarchy over a chain that was given usable page numbers.
  ghost predicate Good(s: Staging) {
    Accepted(s) && NumbersOk(s.nums[..s.LeafCount()])
  }

  // Hops from `num` to the root along parent links.
  ghost function Hops(s: Staging, num: nat, tries: nat): (h: nat)
    requires |s.images| == |s.nums| && Climbs(s, num, tries)
    ensures h < tries
    decreases tries
  {
    if num == s.root then 0 else 1 + Hops(s, s.images[Find(s.nums, num)].parent, tries - 1)
  }

  lemma {:induction false} HopsSame(s: Staging, num: nat, t: nat, t': nat)
    requires |s.images| == |s.nums| && Climbs(s, num, t) && Climbs(s, num, t')
    ensures Hops(s, num, t) == Hops(s, num, t')
    decreases t
  {
    if num != s.root {
      HopsSame(s, s.images[Find(s.nums, num)].parent, t - 1, t' - 1);
    }
  }

  lemma Numbered(s: Staging, id: nat)
    requires Good(s) && id < |s.nums|
    ensures NumbersOk(s.nums) && Find(s.nums, s.nums[id]) == id && s.nums[id] != 0
    ensures Climbs(s, s.nums[id], |s.nums| - s.LeafCount() + 1)
    ensures s.nums[id] == s.root <==> id == s.rootId
  {
    ValidNumbersAreDistinct(s.nums, s.LeafCount());
    FindIs(s.nums, id);
    if id < s.LeafCount() {
      assert LeafAccepted(s, id);
    } else {
      assert NodeAccepted(s, id);
    }
    var r :| s.LeafCount() <= r < |s.nums| && s.nums[r] == s.root;
    assert NodeAccepted(s, r);
  }

  lemma RootIsInternal(s: Staging)
    requires Good(s)
    ensures s.LeafCount() <= s.rootId < |s.nums| && s.nums[s.rootId] == s.root
    ensures InboundCount(s, s.root) == 0 && s.root != 0
  {
    var r :| s.LeafCount() <= r < |s.nums| && s.nums[r] == s.root;
    assert NodeAccepted(s, r);
  }

  // The distance of a node from the root.
  ghost function Rank(s: Staging, id: nat): (r: nat)
    requires Good(s) && id < |s.nums|
    ensures r <= |s.nums| - s.LeafCount()
  {
    Numbered(s, id);
    Hops(s, s.nums[id], |s.nums| - s.LeafCount() + 1)
  }

  ghost function ParentId(s: Staging, id: nat): (p: nat)
    requires Good(s) && id < |s.nums| && id != s.rootId
    ensures p < |s.nums| && s.nums[p] == s.images[id].parent
    ensures Rank(s, id) == Rank(s, p) + 1
  {
    Numbered(s, id);
    RootIsInternal(s);
    var parent := s.images[id].parent;
    var p := Find(s.nums, parent);
    var tries := |s.nums| - s.LeafCount();
    assert p < |s.nums| by {
      if parent == s.root {
        Numbered(s, s.rootId);
      }
    }
    Numbered(s, p);
    HopsSame(s, parent, tries, tries + 1);
    p
  }

  lemma {:induction false} InboundAtLeast(s: Staging, num: nat, n: nat, j: nat)
    requires |s.images| == |s.nums| && s.LeafCount() + n <= |s.nums| && j < n
    requires var p := s.images[s.LeafCount() + j]; p.kind.Internal? && |p.cells| <= INTERNAL_NODE_MAX_KEYS
    ensures multiset(s.images[s.LeafCount() + j].Children())[num] <= Inbound(s, num, n)
    decreases n
  {
    if j < n - 1 {
      InboundAtLeast(s, num, n - 1, j);
    }
  }

  lemma {:induction false} SomebodyNames(s: Staging, num: nat, n: nat) returns (j: nat)
    requires |s.images| == |s.nums| && s.LeafCount() + n <= |s.nums| && Inbound(s, num, n) > 0
    ensures j < n && num in s.images[s.LeafCount() + j].Children()
    decreases n
  {
    if Inbound(s, num, n - 1) > 0 {
      j := SomebodyNames(s, num, n - 1);
    } else {
      j := n - 1;
    }
  }

  ghost function KidId(s: Staging, id: nat, k: nat): nat
    requires id < |s.nums| == |s.images| && k <= |s.images[id].cells|
  {
    Find(s.nums, s.images[id].Child(k))
  }

  // Child `k` of an internal page is a node one step further from the root.
  ghost predicate KidGood(s: Staging, id: nat, k: nat)
    requires Good(s) && id < |s.nums| && k <= |s.images[id].cells|
  {
    var kid := KidId(s, id, k);
    && kid < |s.nums| && kid != s.rootId && kid != id
    && s.nums[kid] == s.images[id].Child(k)
    && s.images[kid].parent == s.nums[id]
    && ParentId(s, kid) == id
    && Rank(s, kid) == Rank(s, id) + 1
  }

  lemma KidFacts(s: Staging, id: nat, k: nat)
    requires Good(s) && s.LeafCount() <= id < |s.nums| && k <= |s.images[id].cells|
    ensures KidGood(s, id, k)
  {
    assert NodeAccepted(s, id) && ChildAccepted(s, s.nums[id], s.images[id], k);
    var kid := KidId(s, id, k);
    Numbered(s, id);
    Numbered(s, kid);
    RootIsInternal(s);
    InboundAtLeast(s, s.nums[kid], |s.nums| - s.LeafCount(), id - s.LeafCount());
    assert s.images[id].Children()[k] == s.nums[kid];
    Numbered(s, ParentId(s, kid));
  }

  // A node other than the root occurs once among its parent's children.
  lemma ChildOnce(s: Staging, id: nat)
    requires Good(s) && id < |s.nums| && id != s.rootId
    ensures s.LeafCount() <= ParentId(s, id)
    ensures multiset(s.images[ParentId(s, id)].Children())[s.nums[id]] == 1
  {
    Numbered(s, id);
    var num, n := s.nums[id], |s.nums| - s.LeafCount();
    assert InboundCount(s, num) == 1 by {
      if id < s.LeafCount() {
        assert LeafAccepted(s, id);
      } else {
        assert NodeAccepted(s, id);
      }
    }
    var j := SomebodyNames(s, num, n);
    var up := s.LeafCount() + j;
    assert NodeAccepted(s, up);
    var c := s.images[up].Children();
    var k :| 0 <= k < |c| && c[k] == num;
    KidFacts(s, up, k);
    assert KidId(s, up, k) == id;
    InboundAtLeast(s, num, n, j);
  }

  ghost function TreeAt(s: Staging, id: nat): (t: Tree)
    requires Good(s) && id < |s.nums|
    ensures t.page == s.nums[id]
    decreases |s.nums| - s.LeafCount() - Rank(s, id)
  {
    if id < s.LeafCount() then Tree(s.nums[id], [])
    else
      assert forall k :: 0 <= k <= |s.images[id].cells| ==> KidGood(s, id, k) by {
        forall k | 0 <= k <= |s.images[id].cells| ensures KidGood(s, id, k) {
          KidFacts(s, id, k);
        }
      }
      Tree(s.nums[id], seq(|s.images[id].cells| + 1, k requires 0 <= k <= |s.images[id].cells| =>
        assert KidGood(s, id, k); TreeAt(s, KidId(s, id, k))))
  }

  // The ancestor `n` steps up.
  ghost function Ancestor(s: Staging, x: nat, n: nat): (a: nat)
    requires Good(s) && x < |s.nums| && n <= Rank(s, x)
    ensures a < |s.nums| && Rank(s, a) == Rank(s, x) - n
    decreases n
  {
    if n == 0 then x
    else
      assert x != s.rootId by { Numbered(s, x); }
      Ancestor(s, ParentId(s, x), n - 1)
  }

  lemma {:induction false} AncestorStep(s: Staging, x: nat, n: nat)
    requires Good(s) && x < |s.nums| && n < Rank(s, x)
    ensures Ancestor(s, x, n) != s.rootId && ParentId(s, Ancestor(s, x, n)) == Ancestor(s, x, n + 1)
    decreases n
  {
    Numbered(s, x);
    Numbered(s, Ancestor(s, x, n));
    if n > 0 {
      AncestorStep(s, ParentId(s, x), n - 1);
    }
  }

  // Node `x` lies in the subtree of node `id`.
  ghost predicate Under(s: Staging, x: nat, id: nat)
    requires Good(s) && x < |s.nums| && id < |s.nums|
  {
    Rank(s, id) <= Rank(s, x) && Ancestor(s, x, Rank(s, x) - Rank(s, id)) == id
  }

  // Trees that hold `page` once where their root is `target` and nowhere else.
  lemma {:induction false} ForestTally(f: seq<Tree>, c: seq<nat>, page: nat, target: nat, hit: bool)
    requires |f| == |c|
    requires forall k :: 0 <= k < |f| ==> PageBag(f[k])[page] == if hit && c[k] == target then 1 else 0
    ensures ForestBag(f)[page] == if hit then multiset(c)[target] else 0
  {
    if f == [] {
    } else {
      forall k | 0 <= k < |f[1..]| ensures PageBag(f[1..][k])[page] == if hit && c[1..][k] == target then 1 else 0 {
        assert f[1..][k] == f[k + 1] && c[1..][k] == c[k + 1];
      }
      ForestTally(f[1..], c[1..], page, target, hit);
      assert c == [c[0]] + c[1..];
    }
  }

  // The ancestor of `x` just below node `id`, or `x` itself if it lies higher.
  ghost function Below(s: Staging, x: nat, id: nat): (y: nat)
    requires Good(s) && x < |s.nums| && id < |s.nums|
    ensures y < |s.nums|
  {
    if Rank(s, x) > Rank(s, id) then Ancestor(s, x, Rank(s, x) - Rank(s, id) - 1) else x
  }

  lemma UnderKid(s: Staging, x: nat, id: nat, k: nat)
    requires Good(s) && x < |s.nums| && s.LeafCount() <= id < |s.nums| && k <= |s.images[id].cells|
    ensures KidGood(s, id, k)
    ensures Under(s, x, KidId(s, id, k)) <==>
      Rank(s, x) > Rank(s, id) && s.images[id].Child(k) == s.nums[Below(s, x, id)]
  {
    KidFacts(s, id, k);
    Numbered(s, KidId(s, id, k));
    Numbered(s, Below(s, x, id));
  }

  lemma UnderNode(s: Staging, x: nat, id: nat)
    requires Good(s) && x < |s.nums| && id < |s.nums|
    ensures Under(s, x, id) <==>
      x == id || (Rank(s, x) > Rank(s, id) && Below(s, x, id) != s.rootId && ParentId(s, Below(s, x, id)) == id)
  {
    if Rank(s, x) > Rank(s, id) {
      UnderByStep(s, x, id, Rank(s, x) - Rank(s, id));
    } else {
      assert Under(s, x, id) ==> Ancestor(s, x, 0) == id;
    }
  }

  lemma UnderByStep(s: Staging, x: nat, id: nat, n: nat)
    requires Good(s) && x < |s.nums| && id < |s.nums| && n > 0 && Rank(s, x) == Rank(s, id) + n
    ensures Below(s, x, id) == Ancestor(s, x, n - 1) != s.rootId
    ensures Under(s, x, id) <==> ParentId(s, Below(s, x, id)) == id
  {
    BelowAt(s, x, id, n);
    UnderAt(s, x, id, n);
    AncestorStep(s, x, n - 1);
  }

  lemma BelowAt(s: Staging, x: nat, id: nat, n: nat)
    requires Good(s) && x < |s.nums| && id < |s.nums| && n > 0 && Rank(s, x) == Rank(s, id) + n
    ensures Below(s, x, id) == Ancestor(s, x, n - 1)
  {
  }

  lemma UnderAt(s: Staging, x: nat, id: nat, n: nat)
    requires Good(s) && x < |s.nums| && id < |s.nums| && Rank(s, x) == Rank(s, id) + n
    ensures Under(s, x, id) <==> Ancestor(s, x, n) == id
  {
  }

  // The page of `x` occurs once in the subtrees below which `x` lies.
  lemma {:induction false} CountIn(s: Staging, x: nat, id: nat)
    requires Good(s) && x < |s.nums| && id < |s.nums|
    ensures PageBag(TreeAt(s, id))[s.nums[x]] == if Under(s, x, id) then 1 else 0
    decreases |s.nums| - s.LeafCount() - Rank(s, id)
  {
    UnderNode(s, x, id);
    SamePage(s, x, id);
    if id < s.LeafCount() {
      if Below(s, x, id) != s.rootId {
        ChildOnce(s, Below(s, x, id));
      }
      assert ForestBag([]) == multiset{};
    } else {
      var t, c, y := TreeAt(s, id), s.images[id].Children(), Below(s, x, id);
      var hit := Rank(s, x) > Rank(s, id);
      forall k | 0 <= k < |t.kids|
        ensures PageBag(t.kids[k])[s.nums[x]] == if hit && c[k] == s.nums[y] then 1 else 0
      {
        UnderKid(s, x, id, k);
        CountIn(s, x, KidId(s, id, k));
      }
      ForestTally(t.kids, c, s.nums[x], s.nums[y], hit);
      if hit {
        BelowIsNoRoot(s, x, id);
        ChildOfOne(s, y, id);
      }
    }
  }

  lemma SamePage(s: Staging, x: nat, id: nat)
    requires Good(s) && x < |s.nums| && id < |s.nums|
    ensures s.nums[x] == s.nums[id] <==> x == id
  {
    Numbered(s, x);
    Numbered(s, id);
  }

  lemma BelowIsNoRoot(s: Staging, x: nat, id: nat)
    requires Good(s) && x < |s.nums| && id < |s.nums| && Rank(s, x) > Rank(s, id)
    ensures Below(s, x, id) != s.rootId
  {
    AncestorStep(s, x, Rank(s, x) - Rank(s, id) - 1);
  }

  // A node is a child of nobody but its parent.
  lemma ChildOfOne(s: Staging, y: nat, id: nat)
    requires Good(s) && y < |s.nums| && y != s.rootId && s.LeafCount() <= id < |s.nums|
    ensures multiset(s.images[id].Children())[s.nums[y]] == if ParentId(s, y) == id then 1 else 0
  {
    ChildOnce(s, y);
    Numbered(s, y);
    if ParentId(s, y) != id {
      var c := s.images[id].Children();
      forall k | 0 <= k < |c| ensures c[k] != s.nums[y] {
        KidFacts(s, id, k);
      }
      assert s.nums[y] !in c;
    }
  }

  lemma EverythingIsUnderTheRoot(s: Staging, x: nat)
    requires Good(s) && x < |s.nums|
    ensures s.rootId < |s.nums| && Under(s, x, s.rootId)
  {
    RootIsInternal(s);
    Numbered(s, s.rootId);
    Numbered(s, Ancestor(s, x, Rank(s, x)));
  }

  lemma {:induction false} PagesAreNumbers(s: Staging, id: nat, p: nat)
    requires Good(s) && id < |s.nums| && p in PageBag(TreeAt(s, id))
    ensures p in s.nums
    decreases |s.nums| - s.LeafCount() - Rank(s, id)
  {
    var t := TreeAt(s, id);
    if p != t.page {
      assert id >= s.LeafCount() by {
        assert ForestBag([]) == multiset{};
      }
      if id >= s.LeafCount() {
        var k := InSomeKid(t.kids, p);
        KidFacts(s, id, k);
        PagesAreNumbers(s, KidId(s, id, k), p);
      }
    }
  }

  lemma {:induction false} InSomeKid(f: seq<Tree>, p: nat) returns (k: nat)
    requires p in ForestBag(f)
    ensures k < |f| && p in PageBag(f[k])
  {
    if p in PageBag(f[0]) {
      k := 0;
    } else {
      var j := InSomeKid(f[1..], p);
      k := j + 1;
    }
  }

  // Walking down from the root meets every node exactly once and nothing else.
  lemma AcceptedIsATree(s: Staging)
    requires Good(s)
    ensures s.rootId < |s.nums| && TreeAt(s, s.rootId).page == s.root
    ensures PageBag(TreeAt(s, s.rootId)) == multiset(s.nums)
  {
    RootIsInternal(s);
    var bag := PageBag(TreeAt(s, s.rootId));
    forall p ensures bag[p] == multiset(s.nums)[p] {
      if p in s.nums {
        var x :| 0 <= x < |s.nums| && s.nums[x] == p;
        EverythingIsUnderTheRoot(s, x);
        CountIn(s, x, s.rootId);
        Numbered(s, x);
        OccursOnce(s.nums, x);
      } else if p in bag {
        PagesAreNumbers(s, s.rootId, p);
      }
    }
  }

  lemma OccursOnce(nums: seq<nat>, x: nat)
    requires x < |nums| && Distinct(nums)
    ensures multiset(nums)[nums[x]] == 1
  {
    var a, b := nums[..x], nums[x + 1..];
    assert nums == a + [nums[x]] + b;
    assert nums[x] !in a && nums[x] !in b;
  }

  // The nodes sit in a file under their page numbers.
  ghost predicate Holds(pages: seq<Page>, s: Staging) {
    && |s.nums| == |s.images|
    && forall id :: 0 <= id < |s.nums| ==> s.nums[id] < |pages| && pages[s.nums[id]] == s.images[id]
  }

  lemma {:induction false} NodesOfTree(s: Staging, id: nat, t: Tree) returns (x: nat)
    requires Good(s) && id < |s.nums| && t in Subtrees(TreeAt(s, id))
    ensures x < |s.nums| && t == TreeAt(s, x)
    decreases |s.nums| - s.LeafCount() - Rank(s, id)
  {
    var top := TreeAt(s, id);
    if t == top {
      x := id;
    } else {
      var k :| 0 <= k < |top.kids| && t in Subtrees(top.kids[k]);
      KidFacts(s, id, k);
      x := NodesOfTree(s, KidId(s, id, k), t);
    }
  }

  lemma NodeIsLive(pages: seq<Page>, free: seq<nat>, taken: set<nat>, s: Staging, x: nat)
    requires Good(s) && Holds(pages, s) && x < |s.nums|
    requires s.nums[x] !in free && s.nums[x] !in taken
    ensures LiveNodeOk(pages, free, taken, s.root, TreeAt(s, x))
  {
    var t := TreeAt(s, x);
    Numbered(s, x);
    if x < s.LeafCount() {
      assert LeafAccepted(s, x);
    } else {
      assert NodeAccepted(s, x);
      var c := s.images[x].Children();
      forall k | 0 <= k < |c|
        ensures t.kids[k].page == c[k] && c[k] != s.root && c[k] < |pages| && pages[c[k]].parent == t.page
      {
        KidFacts(s, x, k);
        Numbered(s, KidId(s, x, k));
      }
      forall i, j | 0 <= i < j < |c| ensures c[i] != c[j] {
        ChildrenDiffer(s, x, i, j);
      }
    }
  }

  lemma ChildrenDiffer(s: Staging, x: nat, i: nat, j: nat)
    requires Good(s) && s.LeafCount() <= x < |s.nums| && i < j <= |s.images[x].cells|
    ensures s.images[x].Child(i) != s.images[x].Child(j)
  {
    KidFacts(s, x, i);
    var y := KidId(s, x, i);
    ChildOnce(s, y);
    var c := s.images[x].Children();
    if c[i] == c[j] {
      CountsTwice(c, i, j);
    }
  }

  lemma CountsTwice(c: seq<nat>, i: nat, j: nat)
    requires i < j < |c| && c[i] == c[j]
    ensures multiset(c)[c[i]] >= 2
  {
    assert c == c[..i] + [c[i]] + c[i + 1..j] + [c[j]] + c[j + 1..];
  }

  // In the file, an accepted hierarchy is a tree in the live-page sense, and
  // its pages are the ones set aside for it.
  lemma AcceptedIsLive(pages: seq<Page>, free: seq<nat>, taken: set<nat>, s: Staging)
    requires Good(s) && Holds(pages, s)
    requires forall p :: p in s.nums ==> p !in free && p !in taken
    ensures s.rootId < |s.nums| && IsLiveTree(pages, free, taken, s.root, TreeAt(s, s.rootId))
    ensures NodePages(TreeAt(s, s.rootId)) == Elements(s.nums)
  {
    AcceptedIsATree(s);
    var t := TreeAt(s, s.rootId);
    forall u | u in Subtrees(t) ensures LiveNodeOk(pages, free, taken, s.root, u) && u.page in s.nums {
      var x := NodesOfTree(s, s.rootId, u);
      assert s.nums[x] in s.nums;
      NodeIsLive(pages, free, taken, s, x);
    }
    forall p | p in s.nums ensures p in NodePages(t) {
      assert p in multiset(s.nums);
      var u := HolderOfPage(t, p);
    }
  }

  lemma {:induction false} HolderOfPage(t: Tree, p: nat) returns (u: Tree)
    requires p in PageBag(t)
    ensures u in Subtrees(t) && u.page == p
    decreases t
  {
    if t.page == p {
      u := t;
    } else {
      var k := InSomeKid(t.kids, p);
      u := HolderOfPage(t.kids[k], p);
    }
  }
}
