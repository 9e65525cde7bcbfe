/** The map of every page reachable through a catalog root, built before and
    after a recovery (src/compact_v2_migration_live_page_guard.h:26-129). */
module LiveGuard {
  import opened Pages
  import opened Trees
  import opened LevelOrder

  // One node of a live tree; `taken` are the pages of trees collected earlier.
  ghost predicate LiveNodeOk(pages: seq<Page>, free: seq<nat>, taken: set<nat>, root: nat, t: Tree) {
    && NodeMatches(pages, t)
    && t.page !in free && t.page !in taken
    && !pages[t.page].kind.Unknown?
    && pages[t.page].isRoot == (t.page == root)
    && (pages[t.page].kind.Internal? ==>
          && 1 <= |pages[t.page].cells| <= INTERNAL_NODE_MAX_KEYS
          && Distinct(pages[t.page].Edges()))
    && forall k :: 0 <= k < |t.kids| ==>
         t.kids[k].page != root && t.kids[k].page < |pages| && pages[t.kids[k].page].parent == t.page
  }

  ghost predicate IsLiveTree(pages: seq<Page>, free: seq<nat>, taken: set<nat>, root: nat, t: Tree) {
    && t.page == root
    && forall s :: s in Subtrees(t) ==> LiveNodeOk(pages, free, taken, root, s)
  }

  ghost predicate HasLiveTree(pages: seq<Page>, free: seq<nat>, taken: set<nat>, root: nat) {
    exists t :: IsLiveTree(pages, free, taken, root, t)
  }

  lemma LiveTreeShape(pages: seq<Page>, free: seq<nat>, taken: set<nat>, root: nat, t: Tree)
    requires IsLiveTree(pages, free, taken, root, t)
    ensures Shape(pages, t)
  {
    forall s | s in Subtrees(t) ensures NodeMatches(pages, s) {
      assert LiveNodeOk(pages, free, taken, root, s);
    }
  }

  // Everything a live tree promises about one of its pages.
  ghost predicate LiveFacts(pages: seq<Page>, free: seq<nat>, taken: set<nat>, root: nat, owned: set<nat>, p: nat) {
    && p < |pages| && p !in free && p !in taken
    && !pages[p].kind.Unknown?
    && pages[p].isRoot == (p == root)
    && (pages[p].kind.Internal? ==> 1 <= |pages[p].cells| <= INTERNAL_NODE_MAX_KEYS && Distinct(pages[p].Edges()))
    && forall e :: e in pages[p].Edges() ==> e in owned && e != root && e < |pages| && pages[e].parent == p
  }

  lemma LiveTreeFacts(pages: seq<Page>, free: seq<nat>, taken: set<nat>, root: nat, t: Tree, p: nat)
    requires IsLiveTree(pages, free, taken, root, t) && p in NodePages(t)
    ensures LiveFacts(pages, free, taken, root, NodePages(t), p)
  {
    var s :| s in Subtrees(t) && s.page == p;
    assert LiveNodeOk(pages, free, taken, root, s);
    forall k | 0 <= k < |s.kids| ensures s.kids[k].page in NodePages(t) {
      KidIsSubtree(t, s, k);
    }
  }

  // The checks made on a dequeued page, given the parent that enqueued it.
  predicate LivePageOk(pages: seq<Page>, root: nat, parentOf: nat, p: nat)
    requires p < |pages|
  {
    && !pages[p].kind.Unknown?
    && pages[p].isRoot == (p == root)
    && (p != root ==> pages[p].parent == parentOf)
    && (pages[p].kind.Internal? ==> 1 <= |pages[p].cells| <= INTERNAL_NODE_MAX_KEYS)
  }

  ghost predicate Held(pages: seq<Page>, root: nat, parents: seq<nat>, q: seq<nat>, st: seq<nat>, i: nat) {
    && |parents| == |pages|
    && Expanded(pages, q, st, i)
    && LivePageOk(pages, root, parents[q[i]], q[i])
    && forall c :: st[i] <= c < st[i + 1] ==> q[c] < |parents| && parents[q[c]] == q[i]
  }

  // The children `edges` may be appended to the queue.
  ghost predicate Unowned(pages: seq<Page>, free: seq<nat>, owned: seq<bool>, edges: seq<nat>) {
    && Distinct(edges)
    && forall e :: e in edges ==> e < |owned| && !owned[e] && e !in free
  }

  ghost predicate Fresh(free: seq<nat>, taken: set<nat>, owned: seq<bool>, q: seq<nat>) {
    && Distinct(q)
    && (forall c :: 0 <= c < |q| ==> q[c] < |owned| && q[c] !in free && q[c] !in taken)
    && (forall x :: 0 <= x < |owned| ==> (owned[x] <==> x in taken || x in q))
  }

  ghost predicate Reached(pages: seq<Page>, free: seq<nat>, taken: set<nat>, root: nat,
                          parents: seq<nat>, owned: seq<bool>, q: seq<nat>, st: seq<nat>, head: nat) {
    && |parents| == |owned| == |pages|
    && |q| > 0 && q[0] == root
    && head <= |q| && |st| == head + 1 && st[0] == 1 && st[head] == |q|
    && Fresh(free, taken, owned, q)
    && forall i :: 0 <= i < head ==> Held(pages, root, parents, q, st, i)
  }

  // The maps after `edges` have been enqueued by `p`.
  ghost predicate Enlisted(parents: seq<nat>, owned: seq<bool>, parents': seq<nat>, owned': seq<bool>, edges: seq<nat>,
                           p: nat) {
    && |parents| == |parents'| == |owned| == |owned'|
    && (forall x :: 0 <= x < |owned'| ==> owned'[x] == (owned[x] || x in edges))
    && (forall x :: 0 <= x < |parents'| ==> parents'[x] == if x in edges then p else parents[x])
  }

  lemma HeldStays(pages: seq<Page>, root: nat, parents: seq<nat>, parents': seq<nat>,
                  q: seq<nat>, st: seq<nat>, edges: seq<nat>, end: nat, i: nat)
    requires Held(pages, root, parents, q, st, i) && |parents'| == |parents|
    requires forall x :: x in q ==> x < |parents| && parents'[x] == parents[x]
    ensures Held(pages, root, parents', q + edges, st + [end], i)
  {
    assert (q + edges)[st[i]..st[i + 1]] == q[st[i]..st[i + 1]];
    assert parents'[q[i]] == parents[q[i]];
    forall c | st[i] <= c < st[i + 1]
      ensures (q + edges)[c] < |parents'| && parents'[(q + edges)[c]] == q[i]
    {
      assert (q + edges)[c] == q[c];
    }
  }

  lemma FreshGrows(free: seq<nat>, taken: set<nat>, owned: seq<bool>, owned': seq<bool>, q: seq<nat>, edges: seq<nat>)
    requires Fresh(free, taken, owned, q) && |owned'| == |owned|
    requires Distinct(edges) && forall e :: e in edges ==> e < |owned| && !owned[e] && e !in free
    requires forall x :: 0 <= x < |owned'| ==> owned'[x] == (owned[x] || x in edges)
    ensures Fresh(free, taken, owned', q + edges)
    ensures forall e :: e in edges ==> e !in q
  {
    var s := q + edges;
    forall i, j | 0 <= i < j < |s| ensures s[i] != s[j] {
      assert i < |q| ==> s[i] in q;
      assert j >= |q| ==> s[j] in edges;
    }
    forall c | 0 <= c < |s| ensures s[c] < |owned'| && s[c] !in free && s[c] !in taken {
      assert c >= |q| ==> s[c] in edges;
    }
  }

  lemma ReachedGrows(pages: seq<Page>, free: seq<nat>, taken: set<nat>, root: nat,
                     parents: seq<nat>, owned: seq<bool>, parents': seq<nat>, owned': seq<bool>,
                     q: seq<nat>, st: seq<nat>, edges: seq<nat>, head: nat)
    requires Reached(pages, free, taken, root, parents, owned, q, st, head) && head < |q|
    requires edges == pages[q[head]].Edges() && Unowned(pages, free, owned, edges)
    requires Enlisted(parents, owned, parents', owned', edges, q[head])
    requires LivePageOk(pages, root, parents[q[head]], q[head])
    ensures Reached(pages, free, taken, root, parents', owned', q + edges, st + [|q + edges|], head + 1)
  {
    var q', st' := q + edges, st + [|q + edges|];
    FreshGrows(free, taken, owned, owned', q, edges);
    assert forall x :: x in q ==> x < |parents| && parents'[x] == parents[x];
    forall i | 0 <= i < head ensures Held(pages, root, parents', q', st', i) {
      assert Held(pages, root, parents, q, st, i);
      HeldStays(pages, root, parents, parents', q, st, edges, |q'|, i);
    }
    assert q'[st'[head]..st'[head + 1]] == edges;
    assert q[head] in q;
    assert forall c :: |q| <= c < |q'| ==> q'[c] in edges;
    assert head > 0 ==> Held(pages, root, parents, q, st, head - 1);
    assert Held(pages, root, parents', q', st', head);
  }

  lemma {:induction false} HolderOf(pages: seq<Page>, root: nat, parents: seq<nat>, q: seq<nat>, st: seq<nat>, c: nat,
                                    from: nat)
    returns (j: nat)
    requires |st| > from && st[from] <= c < |q| == st[|st| - 1]
    requires forall i :: 0 <= i < |st| - 1 ==> Held(pages, root, parents, q, st, i)
    ensures j + 1 < |st| && st[j] <= c < st[j + 1]
    decreases |st| - from
  {
    assert from < |st| - 1 ==> Held(pages, root, parents, q, st, from);
    if c < st[from + 1] {
      j := from;
    } else {
      j := HolderOf(pages, root, parents, q, st, c, from + 1);
    }
  }

  lemma HeldParent(pages: seq<Page>, free: seq<nat>, taken: set<nat>, root: nat, all: set<nat>,
                   q: seq<nat>, st: seq<nat>, c: nat, j: nat)
    requires Expanded(pages, q, st, j) && st[j] <= c < st[j + 1]
    requires LiveFacts(pages, free, taken, root, all, q[j])
    ensures q[c] < |pages| && pages[q[c]].parent == q[j]
  {
    assert q[st[j]..st[j + 1]][c - st[j]] == q[c];
    assert q[c] in pages[q[j]].Edges();
  }

  // If the queue consists of pages of a live tree, the next entry passes its checks.
  lemma LiveEntryPasses(pages: seq<Page>, free: seq<nat>, taken: set<nat>, root: nat, all: set<nat>,
                        parents: seq<nat>, owned: seq<bool>, q: seq<nat>, st: seq<nat>, head: nat)
    requires Reached(pages, free, taken, root, parents, owned, q, st, head) && head < |q|
    requires forall x :: x in q ==> x in all
    requires forall x :: x in all ==> LiveFacts(pages, free, taken, root, all, x)
    ensures LivePageOk(pages, root, parents[q[head]], q[head])
    ensures Unowned(pages, free, owned, pages[q[head]].Edges())
  {
    var p := q[head];
    assert LiveFacts(pages, free, taken, root, all, p);
    forall c | 1 <= c < |q| ensures exists j :: 0 <= j < head && pages[q[c]].parent == q[j] == parents[q[c]] {
      var j := HolderOf(pages, root, parents, q, st, c, 0);
      assert Held(pages, root, parents, q, st, j);
      HeldParent(pages, free, taken, root, all, q, st, c, j);
    }
    var edges := pages[p].Edges();
    forall e | e in edges ensures e < |owned| && !owned[e] && e !in free {
      assert LiveFacts(pages, free, taken, root, all, e);
      forall c | 0 <= c < |q| ensures q[c] != e {
        if c > 0 {
          assert pages[q[c]].parent != p;
        }
      }
    }
  }

  // A finished queue is a live tree.
  lemma ReachedIsLive(pages: seq<Page>, free: seq<nat>, taken: set<nat>, root: nat,
                      parents: seq<nat>, owned: seq<bool>, q: seq<nat>, st: seq<nat>)
    requires Reached(pages, free, taken, root, parents, owned, q, st, |q|)
    ensures Layout(pages, q, st)
    ensures IsLiveTree(pages, free, taken, root, SubTree(pages, q, st, 0))
    ensures NodePages(SubTree(pages, q, st, 0)) == Elements(q)
  {
    forall i | 0 <= i < |q| ensures Expanded(pages, q, st, i) {
      assert Held(pages, root, parents, q, st, i);
    }
    var t := SubTree(pages, q, st, 0);
    QueueIsTheTree(pages, q, st);
    forall s | s in Subtrees(t) ensures LiveNodeOk(pages, free, taken, root, s) {
      SubtreesAreEntries(pages, q, st, 0, s);
      var i :| 0 <= i < |q| && s == SubTree(pages, q, st, i);
      EntryIsLive(pages, free, taken, root, parents, owned, q, st, i);
    }
  }

  lemma EntryIsLive(pages: seq<Page>, free: seq<nat>, taken: set<nat>, root: nat,
                    parents: seq<nat>, owned: seq<bool>, q: seq<nat>, st: seq<nat>, i: nat)
    requires Reached(pages, free, taken, root, parents, owned, q, st, |q|) && i < |q|
    requires Layout(pages, q, st)
    ensures LiveNodeOk(pages, free, taken, root, SubTree(pages, q, st, i))
  {
    var s := SubTree(pages, q, st, i);
    assert Held(pages, root, parents, q, st, i);
    SubTreeMatches(pages, q, st, i);
    var edges := pages[q[i]].Edges();
    forall k | 0 <= k < |edges|
      ensures edges[k] == q[st[i] + k] && edges[k] != root && edges[k] < |pages| && pages[edges[k]].parent == q[i]
    {
      assert q[st[i]..st[i + 1]][k] == q[st[i] + k];
      assert Held(pages, root, parents, q, st, st[i] + k);
    }
  }

  function Taken(owned: seq<bool>): (s: set<nat>)
    ensures forall x :: x in s <==> 0 <= x < |owned| && owned[x]
  {
    set x: nat | x < |owned| && owned[x]
  }

  lemma RoomForChildren(pages: seq<Page>, free: seq<nat>, taken: set<nat>, owned: seq<bool>, q: seq<nat>,
                        edges: seq<nat>)
    requires Fresh(free, taken, owned, q) && Unowned(pages, free, owned, edges)
    ensures |q| + |edges| <= |owned|
  {
    FreshGrows(free, taken, owned, seq(|owned|, x requires 0 <= x < |owned| => owned[x] || x in edges), q, edges);
    DistinctBelow(q + edges, |owned|);
  }

  lemma NotUnowned(pages: seq<Page>, free: seq<nat>, owned: seq<bool>, owned': seq<bool>, edges: seq<nat>, i: nat)
    requires i < |edges| && |owned'| == |owned|
    requires forall x :: 0 <= x < |owned'| ==> owned'[x] == (owned[x] || x in edges[..i])
    requires edges[i] >= |owned| || owned'[edges[i]] || edges[i] in free
    ensures !Unowned(pages, free, owned, edges)
  {
    assert edges[i] in edges;
    if edges[i] in edges[..i] {
      var j :| 0 <= j < i && edges[..i][j] == edges[i];
      assert edges[j] == edges[i];
    }
  }

  // Mark and enqueue the children of internal page `p`.
  method Enlist(pages: seq<Page>, free: seq<nat>, queue: array<nat>, parents: array<nat>, owned: array<bool>,
                count: nat, p: nat, children: seq<nat>, ghost q: seq<nat>)
    returns (ok: bool)
    requires queue.Length == parents.Length == owned.Length <= INVALID_PAGE_NUM && queue != parents
    requires count == |q| && count + |children| <= queue.Length && queue[..count] == q
    modifies queue, parents, owned
    ensures ok <==> Unowned(pages, free, old(owned[..]), children)
    ensures ok ==> queue[..count + |children|] == q + children
    ensures ok ==> Enlisted(old(parents[..]), old(owned[..]), parents[..], owned[..], children, p)
  {
    ghost var par, own := parents[..], owned[..];
    var i := 0;
    while i < |children|
      invariant 0 <= i <= |children|
      invariant queue[..count + i] == q + children[..i]
      invariant Unowned(pages, free, own, children[..i])
      invariant Enlisted(par, own, parents[..], owned[..], children[..i], p)
    {
      var child := children[i];
      if child == INVALID_PAGE_NUM || child >= owned.Length || owned[child] || child in free {
        NotUnowned(pages, free, own, owned[..], children, i);
        return false;
      }
      assert children[..i + 1] == children[..i] + [child];
      owned[child] := true;
      parents[child] := p;
      queue[count + i] := child;
      i := i + 1;
    }
    assert children[..|children|] == children;
    return true;
  }

  // Check one dequeued page and enqueue its children.
  method VisitLive(pages: seq<Page>, free: seq<nat>, root: nat, queue: array<nat>, parents: array<nat>,
                   owned: array<bool>,
                   count: nat, p: nat, ghost taken: set<nat>, ghost q: seq<nat>, ghost st: seq<nat>, ghost head: nat)
    returns (ok: bool, grown: nat)
    requires queue.Length == parents.Length == owned.Length == |pages| <= INVALID_PAGE_NUM && queue != parents
    requires Reached(pages, free, taken, root, parents[..], owned[..], q, st, head) && head < |q| && p == q[head]
    requires count == |q| <= queue.Length && queue[..count] == q
    modifies queue, parents, owned
    ensures ok <==>
      LivePageOk(pages, root, old(parents[p]), p) && Unowned(pages, free, old(owned[..]), pages[p].Edges())
    ensures ok ==> grown == |q + pages[p].Edges()| <= queue.Length && queue[..grown] == q + pages[p].Edges()
    ensures ok ==> Reached(pages, free, taken, root, parents[..], owned[..],
                           q + pages[p].Edges(), st + [|q + pages[p].Edges()|], head + 1)
  {
    ghost var par, own := parents[..], owned[..];
    var page := pages[p];
    ok, grown := false, count;
    if (p == root && !page.isRoot) || (p != root && (page.isRoot || page.parent != parents[p])) {
      return;
    }
    if page.kind.Internal? {
      var keyCount := |page.cells|;
      if Unowned(pages, free, own, page.Edges()) {
        RoomForChildren(pages, free, taken, own, q, page.Edges());
      }
      if keyCount == 0 || keyCount > INTERNAL_NODE_MAX_KEYS || keyCount + 1 > owned.Length
         || count > owned.Length - (keyCount + 1) {
        return;
      }
      ok := Enlist(pages, free, queue, parents, owned, count, p, page.Children(), q);
      grown := count + keyCount + 1;
    } else if !page.kind.Leaf? {
      return;
    } else {
      ok := true;
      assert q + page.Edges() == q;
    }
    if ok {
      ReachedGrows(pages, free, taken, root, par, own, parents[..], owned[..], q, st, page.Edges(), head);
    }
  }

  // The pages a live tree at `root` would consist of.
  lemma LiveSet(pages: seq<Page>, free: seq<nat>, taken: set<nat>, root: nat) returns (all: set<nat>)
    requires HasLiveTree(pages, free, taken, root)
    ensures root in all
    ensures forall x :: x in all ==> LiveFacts(pages, free, taken, root, all, x)
  {
    var t :| IsLiveTree(pages, free, taken, root, t);
    assert t in Subtrees(t);
    all := NodePages(t);
    forall x | x in all ensures LiveFacts(pages, free, taken, root, all, x) {
      LiveTreeFacts(pages, free, taken, root, t, x);
    }
  }

  // Adds the pages of the tree at `root` to the map, unless it is malformed,
  // touches a free page, or shares a page with a tree already in the map.
  method CollectTreePages(pages: seq<Page>, free: seq<nat>, root: nat, owned: array<bool>) returns (ok: bool)
    requires owned.Length == |pages| <= INVALID_PAGE_NUM
    modifies owned
    ensures ok <==> HasLiveTree(pages, free, Taken(old(owned[..])), root)
    ensures ok ==> forall t :: IsLiveTree(pages, free, Taken(old(owned[..])), root, t) ==>
      Taken(owned[..]) == Taken(old(owned[..])) + NodePages(t)
  {
    ghost var taken := Taken(owned[..]);
    ghost var has, all := HasLiveTree(pages, free, taken, root), {};
    if has {
      all := LiveSet(pages, free, taken, root);
      assert LiveFacts(pages, free, taken, root, all, root);
    }
    if root == INVALID_PAGE_NUM || root >= owned.Length || owned[root] || root in free {
      return false;
    }
    var queue := new nat[|pages|](_ => 0);
    var parents := new nat[|pages|](_ => 0);
    queue[0] := root;
    var count := 1;
    owned[root] := true;
    var head := 0;
    ghost var q: seq<nat>, st: seq<nat> := [root], [1];
    while head < count
      invariant count == |q| <= queue.Length && queue[..count] == q
      invariant Reached(pages, free, taken, root, parents[..], owned[..], q, st, head)
      invariant has ==> forall x :: x in q ==> x in all
      decreases |pages| - head
    {
      var p := queue[head];
      assert p == queue[..count][head];
      if has {
        LiveEntryPasses(pages, free, taken, root, all, parents[..], owned[..], q, st, head);
        assert LiveFacts(pages, free, taken, root, all, p);
      }
      ok, count := VisitLive(pages, free, root, queue, parents, owned, count, p, taken, q, st, head);
      if !ok {
        return;
      }
      q := q + pages[p].Edges();
      st := st + [|q|];
      head := head + 1;
    }
    ReachedIsLive(pages, free, taken, root, parents[..], owned[..], q, st);
    OneLiveTree(pages, free, taken, root, SubTree(pages, q, st, 0));
    return true;
  }

  lemma OneLiveTree(pages: seq<Page>, free: seq<nat>, taken: set<nat>, root: nat, t: Tree)
    requires IsLiveTree(pages, free, taken, root, t)
    ensures forall s :: IsLiveTree(pages, free, taken, root, s) ==> s == t
  {
    forall s | IsLiveTree(pages, free, taken, root, s) ensures s == t {
      LiveTreeShape(pages, free, taken, root, s);
      LiveTreeShape(pages, free, taken, root, t);
      ShapeUnique(pages, s, t);
    }
  }

  // The pages of the first `i` trees.
  ghost function PagesOf(ts: seq<Tree>, i: nat): set<nat>
    requires i <= |ts|
  {
    if i == 0 then {} else PagesOf(ts, i - 1) + NodePages(ts[i - 1])
  }

  // Tree number `i` of the catalog: clear of the free list and of the trees before it.
  ghost predicate LiveAt(pages: seq<Page>, free: seq<nat>, roots: seq<nat>, ts: seq<Tree>, i: nat) {
    && i < |roots| && i < |ts|
    && IsLiveTree(pages, free, PagesOf(ts, i), roots[i], ts[i])
  }

  // The trees of all catalog roots, pairwise disjoint and clear of the free list.
  ghost predicate LiveTrees(pages: seq<Page>, free: seq<nat>, roots: seq<nat>, ts: seq<Tree>) {
    && |ts| == |roots|
    && forall i :: 0 <= i < |roots| ==> LiveAt(pages, free, roots, ts, i)
  }

  // Every catalog root has its tree.
  ghost predicate CatalogIntact(pages: seq<Page>, free: seq<nat>, roots: seq<nat>) {
    exists ts :: LiveTrees(pages, free, roots, ts)
  }

  // Page `p` belongs to the tree of some catalog root.
  ghost predicate Live(pages: seq<Page>, roots: seq<nat>, p: nat) {
    exists i, n :: 0 <= i < |roots| && Reaches(pages, roots[i], p, n)
  }

  lemma {:induction false} PagesOfIn(ts: seq<Tree>, i: nat, p: nat)
    requires i <= |ts|
    ensures p in PagesOf(ts, i) <==> exists k :: 0 <= k < i && p in NodePages(ts[k])
  {
    if i > 0 {
      PagesOfIn(ts, i - 1, p);
    }
  }

  // The trees hold exactly the pages reachable from the catalog.
  lemma TreesAreLive(pages: seq<Page>, free: seq<nat>, roots: seq<nat>, ts: seq<Tree>, p: nat)
    requires LiveTrees(pages, free, roots, ts)
    ensures p in PagesOf(ts, |ts|) <==> Live(pages, roots, p)
  {
    PagesOfIn(ts, |ts|, p);
    if p in PagesOf(ts, |ts|) {
      var k :| 0 <= k < |ts| && p in NodePages(ts[k]);
      assert LiveAt(pages, free, roots, ts, k);
      LiveTreeShape(pages, free, PagesOf(ts, k), roots[k], ts[k]);
      var s :| s in Subtrees(ts[k]) && s.page == p;
      var n := TreeIsReachable(pages, ts[k], s);
    }
    if Live(pages, roots, p) {
      var i, n :| 0 <= i < |roots| && Reaches(pages, roots[i], p, n);
      assert LiveAt(pages, free, roots, ts, i);
      LiveTreeShape(pages, free, PagesOf(ts, i), roots[i], ts[i]);
      ReachableIsInTree(pages, ts[i], p, n);
    }
  }

  method Clear(owned: array<bool>)
    modifies owned
    ensures forall p :: 0 <= p < owned.Length ==> !owned[p]
  {
    for x := 0 to owned.Length
      invariant forall y :: 0 <= y < x ==> !owned[y]
    {
      owned[x] := false;
    }
  }

  lemma MapIsLive(pages: seq<Page>, free: seq<nat>, roots: seq<nat>, ts: seq<Tree>, owned: seq<bool>)
    requires LiveTrees(pages, free, roots, ts) && Taken(owned) == PagesOf(ts, |ts|)
    ensures CatalogIntact(pages, free, roots)
    ensures forall p :: 0 <= p < |owned| ==> (owned[p] <==> Live(pages, roots, p))
  {
    forall p | 0 <= p < |owned| ensures owned[p] <==> Live(pages, roots, p) {
      TreesAreLive(pages, free, roots, ts, p);
      assert owned[p] <==> p in Taken(owned);
    }
  }

  // The first `i` trees have been collected into the map.
  ghost predicate Collected(pages: seq<Page>, free: seq<nat>, roots: seq<nat>, ts: seq<Tree>, owned: seq<bool>) {
    && |ts| <= |roots|
    && (forall k :: 0 <= k < |ts| ==> LiveAt(pages, free, roots, ts, k))
    && Taken(owned) == PagesOf(ts, |ts|)
  }

  lemma CollectedCanGoOn(pages: seq<Page>, free: seq<nat>, roots: seq<nat>, ts: seq<Tree>, owned: seq<bool>)
    requires Collected(pages, free, roots, ts, owned) && |ts| < |roots| && CatalogIntact(pages, free, roots)
    ensures HasLiveTree(pages, free, Taken(owned), roots[|ts|])
  {
    NextTree(pages, free, roots, ts, |ts|);
  }

  lemma CollectedNext(pages: seq<Page>, free: seq<nat>, roots: seq<nat>, ts: seq<Tree>, owned: seq<bool>,
                      owned': seq<bool>)
    returns (ts': seq<Tree>)
    requires Collected(pages, free, roots, ts, owned) && |ts| < |roots|
    requires HasLiveTree(pages, free, Taken(owned), roots[|ts|])
    requires forall t :: IsLiveTree(pages, free, Taken(owned), roots[|ts|], t) ==>
      Taken(owned') == Taken(owned) + NodePages(t)
    ensures |ts'| == |ts| + 1 && Collected(pages, free, roots, ts', owned')
  {
    var t :| IsLiveTree(pages, free, Taken(owned), roots[|ts|], t);
    LiveTreesAppend(pages, free, roots, ts, t, |ts|);
    ts' := ts + [t];
  }

  lemma NothingCollected(pages: seq<Page>, free: seq<nat>, roots: seq<nat>, owned: seq<bool>)
    requires forall p :: 0 <= p < |owned| ==> !owned[p]
    ensures Collected(pages, free, roots, [], owned)
  {
    assert Taken(owned) == {};
  }

  // The live-page map over all catalog roots.
  method BuildLiveMap(pages: seq<Page>, free: seq<nat>, roots: seq<nat>, owned: array<bool>) returns (ok: bool)
    requires owned.Length == |pages| <= INVALID_PAGE_NUM
    modifies owned
    ensures ok <==> |roots| <= MAX_TABLES && CatalogIntact(pages, free, roots)
    ensures ok ==> forall p :: 0 <= p < |pages| ==> (owned[p] <==> Live(pages, roots, p))
  {
    if |roots| > MAX_TABLES {
      return false;
    }
    Clear(owned);
    ghost var ts: seq<Tree> := [];
    NothingCollected(pages, free, roots, owned[..]);
    for i := 0 to |roots|
      invariant |ts| == i && Collected(pages, free, roots, ts, owned[..])
    {
      ghost var before := owned[..];
      if CatalogIntact(pages, free, roots) {
        CollectedCanGoOn(pages, free, roots, ts, before);
      }
      ok := CollectTreePages(pages, free, roots[i], owned);
      if !ok {
        Clear(owned);
        return;
      }
      ts := CollectedNext(pages, free, roots, ts, before, owned[..]);
    }
    MapIsLive(pages, free, roots, ts, owned[..]);
    return true;
  }

  lemma {:induction false} PagesOfPrefix(us: seq<Tree>, ts: seq<Tree>, i: nat)
    requires i <= |us| && i <= |ts| && us[..i] == ts[..i]
    ensures PagesOf(us, i) == PagesOf(ts, i)
  {
    if i > 0 {
      assert us[i - 1] == us[..i][i - 1] == ts[..i][i - 1] == ts[i - 1];
      assert us[..i - 1] == us[..i][..i - 1] && ts[..i - 1] == ts[..i][..i - 1];
      PagesOfPrefix(us, ts, i - 1);
    }
  }

  // The trees of a catalog are determined one after the other.
  lemma {:induction false} TreesAreUnique(pages: seq<Page>, free: seq<nat>, roots: seq<nat>, us: seq<Tree>,
                                          ts: seq<Tree>, i: nat)
    requires i <= |us| && i <= |ts|
    requires forall k :: 0 <= k < i ==> LiveAt(pages, free, roots, us, k) && LiveAt(pages, free, roots, ts, k)
    ensures us[..i] == ts[..i]
  {
    if i > 0 {
      var k := i - 1;
      TreesAreUnique(pages, free, roots, us, ts, k);
      PagesOfPrefix(us, ts, k);
      assert LiveAt(pages, free, roots, us, k) && LiveAt(pages, free, roots, ts, k);
      OneLiveTree(pages, free, PagesOf(ts, k), roots[k], ts[k]);
      assert us[..i] == us[..k] + [us[k]] && ts[..i] == ts[..k] + [ts[k]];
    }
  }

  lemma NextTree(pages: seq<Page>, free: seq<nat>, roots: seq<nat>, ts: seq<Tree>, i: nat)
    requires CatalogIntact(pages, free, roots) && i < |roots| && |ts| == i
    requires forall k :: 0 <= k < i ==> LiveAt(pages, free, roots, ts, k)
    ensures HasLiveTree(pages, free, PagesOf(ts, i), roots[i])
  {
    var us :| LiveTrees(pages, free, roots, us);
    TreesAreUnique(pages, free, roots, us, ts, i);
    PagesOfPrefix(us, ts, i);
    assert LiveAt(pages, free, roots, us, i);
  }

  lemma LiveTreesAppend(pages: seq<Page>, free: seq<nat>, roots: seq<nat>, ts: seq<Tree>, t: Tree, i: nat)
    requires i < |roots| && |ts| == i
    requires forall k :: 0 <= k < i ==> LiveAt(pages, free, roots, ts, k)
    requires IsLiveTree(pages, free, PagesOf(ts, i), roots[i], t)
    ensures forall k :: 0 <= k <= i ==> LiveAt(pages, free, roots, ts + [t], k)
    ensures PagesOf(ts + [t], i + 1) == PagesOf(ts, i) + NodePages(t)
  {
    var us := ts + [t];
    PagesOfPrefix(us, ts, i);
    forall k | 0 <= k < i ensures LiveAt(pages, free, roots, us, k) {
      assert LiveAt(pages, free, roots, ts, k);
      assert us[..k] == ts[..k];
      PagesOfPrefix(us, ts, k);
    }
  }
}
