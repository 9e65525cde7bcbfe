/** The page-ownership check: every page is free, or owned once by one table
    (src/diagnostics.c:445-639). */
module PageOwnership {
  import opened Pages
  import opened Trees

  const NO_OWNER: nat := INVALID_PAGE_NUM

  // A database; `stuck` are the pages whose pin cannot be taken or released.
  // The check pins no page twice, so a set describes every pattern of failures.
  datatype Db = Db(pages: seq<Page>, free: seq<nat>, stuck: set<nat>) {
    predicate Claimable(p: nat) {
      p < |pages| && p !in free
    }

    // The walk goes on to the children of `p`.
    predicate Opens(p: nat) {
      p < |pages| && p !in stuck && pages[p].kind.Internal? && |pages[p].cells| <= INTERNAL_NODE_MAX_KEYS
    }

    predicate Fine(p: nat) {
      p < |pages| && p !in stuck && (pages[p].kind.Leaf? || Opens(p))
    }
  }

  // What the check decides.

  ghost predicate OwnedNode(db: Db, t: Tree) {
    NodeMatches(db.pages, t) && db.Claimable(t.page) && db.Fine(t.page)
  }

  ghost predicate OwnedNodes(db: Db, t: Tree) {
    forall s :: s in Subtrees(t) ==> OwnedNode(db, s)
  }

  // No page twice, and none of those taken before.
  ghost predicate Once(bag: multiset<nat>, taken: set<nat>) {
    forall x :: x in bag ==> bag[x] == 1 && x !in taken
  }

  ghost predicate OwnedTree(db: Db, taken: set<nat>, t: Tree) {
    OwnedNodes(db, t) && Once(PageBag(t), taken)
  }

  ghost predicate OwnedForest(db: Db, taken: set<nat>, roots: seq<nat>, f: seq<Tree>) {
    && |f| == |roots|
    && (forall k :: 0 <= k < |f| ==> f[k].page == roots[k] && OwnedNodes(db, f[k]))
    && Once(ForestBag(f), taken)
  }

  ghost function Members(bag: multiset<nat>): set<nat> {
    set x | x in bag
  }

  // Every page is free or in exactly one place of exactly one table's tree.
  ghost predicate Partitioned(db: Db, roots: seq<nat>, f: seq<Tree>) {
    && OwnedForest(db, {}, roots, f)
    && forall p :: 0 <= p < |db.pages| ==> p in db.free || p in ForestBag(f)
  }

  predicate FreeListFine(db: Db) {
    Distinct(db.free) && forall p :: p in db.free ==> p < |db.pages|
  }

  // `q` is reached from `p` through pages the walk opens.
  ghost predicate Path(db: Db, p: nat, q: nat, n: nat)
    decreases n
  {
    && db.Claimable(p)
    && (p == q || (n > 0 && db.Opens(p) && exists e :: e in db.pages[p].Edges() && Path(db, e, q, n - 1)))
  }

  ghost predicate Reachable(db: Db, p: nat, q: nat) {
    exists n :: Path(db, p, q, n)
  }

  ghost predicate ReachableFrom(db: Db, roots: seq<nat>, q: nat) {
    exists r :: r in roots && Reachable(db, r, q)
  }

  lemma ReachableStep(db: Db, p: nat, e: nat, q: nat)
    requires db.Claimable(p) && db.Opens(p) && e in db.pages[p].Edges() && Reachable(db, e, q)
    ensures Reachable(db, p, q)
  {
    var n: nat :| Path(db, e, q, n);
    assert Path(db, p, q, n + 1);
  }

  // Pages owned so far are closed under the edges of `p`.
  ghost predicate Followed(db: Db, owned: set<nat>, p: nat) {
    db.Opens(p) ==> forall e :: e in db.pages[p].Edges() && db.Claimable(e) ==> e in owned
  }

  lemma {:induction false} FollowedContains(db: Db, owned: set<nat>, p: nat, q: nat, n: nat)
    requires (forall x :: x in owned ==> Followed(db, owned, x)) && p in owned && Path(db, p, q, n)
    ensures q in owned
    decreases n
  {
    if p != q {
      var e :| e in db.pages[p].Edges() && Path(db, e, q, n - 1);
      assert Followed(db, owned, p);
      FollowedContains(db, owned, e, q, n - 1);
    }
  }

  // Trees and forests found step by step.

  lemma ForestGrows(db: Db, taken: set<nat>, roots: seq<nat>, f: seq<Tree>, t: Tree)
    requires OwnedForest(db, taken, roots, f) && OwnedTree(db, taken + Members(ForestBag(f)), t)
    ensures OwnedForest(db, taken, roots + [t.page], f + [t])
    ensures ForestBag(f + [t]) == ForestBag(f) + PageBag(t)
  {
    ForestBagConcat(f, [t]);
    assert [t][1..] == [];
    assert ForestBag([t]) == PageBag(t);
    forall x | x in ForestBag(f + [t]) ensures ForestBag(f + [t])[x] == 1 && x !in taken {
      assert x in ForestBag(f) ==> x in Members(ForestBag(f));
    }
  }

  lemma TreeFromForest(db: Db, taken: set<nat>, p: nat, f: seq<Tree>)
    requires db.Claimable(p) && db.Fine(p) && p !in taken
    requires OwnedForest(db, taken + {p}, db.pages[p].Edges(), f)
    ensures OwnedTree(db, taken, Tree(p, f))
  {
    var t := Tree(p, f);
    forall s | s in Subtrees(t) ensures OwnedNode(db, s) {
      if s != t {
        var k :| 0 <= k < |f| && s in Subtrees(f[k]);
        assert OwnedNodes(db, f[k]);
      }
    }
  }

  lemma ForestOfTree(db: Db, taken: set<nat>, t: Tree)
    requires OwnedTree(db, taken, t)
    ensures db.Claimable(t.page) && db.Fine(t.page) && t.page !in taken
    ensures OwnedForest(db, taken + {t.page}, db.pages[t.page].Edges(), t.kids)
  {
    assert t in Subtrees(t) && OwnedNode(db, t);
    forall k | 0 <= k < |t.kids| ensures OwnedNodes(db, t.kids[k]) {
      KidIsSubtree(t, t, k);
      SubtreesTransitive(t, t.kids[k]);
    }
    assert t.page in PageBag(t);
    forall x | x in ForestBag(t.kids) ensures ForestBag(t.kids)[x] == 1 && x !in taken + {t.page} {
      assert PageBag(t)[x] == 1;
    }
  }

  lemma OwnedNodesUnique(db: Db, a: Tree, b: Tree)
    requires a.page == b.page && OwnedNodes(db, a) && OwnedNodes(db, b)
    ensures a == b
  {
    forall s | s in Subtrees(a) ensures NodeMatches(db.pages, s) {
      assert OwnedNode(db, s);
    }
    forall s | s in Subtrees(b) ensures NodeMatches(db.pages, s) {
      assert OwnedNode(db, s);
    }
    ShapeUnique(db.pages, a, b);
  }

  lemma ForestBagAt(g: seq<Tree>, k: nat)
    requires k < |g|
    ensures ForestBag(g) == ForestBag(g[..k]) + PageBag(g[k]) + ForestBag(g[k + 1..])
  {
    assert g == g[..k] + g[k..];
    assert g[k..][1..] == g[k + 1..];
    ForestBagConcat(g[..k], g[k..]);
  }

  // A forest over more roots continues the one found for the first roots.
  lemma ForestContinues(db: Db, taken: set<nat>, roots: seq<nat>, f: seq<Tree>, g: seq<Tree>)
    requires |f| < |roots| && OwnedForest(db, taken, roots[..|f|], f) && OwnedForest(db, taken, roots, g)
    ensures g[..|f|] == f
    ensures OwnedTree(db, taken + Members(ForestBag(f)), g[|f|])
  {
    var k := |f|;
    forall j | 0 <= j < k ensures g[j] == f[j] {
      assert f[j].page == roots[..k][j];
      OwnedNodesUnique(db, f[j], g[j]);
    }
    ForestBagAt(g, k);
    assert g[..k] == f;
    forall x | x in PageBag(g[k]) ensures PageBag(g[k])[x] == 1 && x !in taken + Members(ForestBag(f)) {
      assert ForestBag(g)[x] == 1;
      assert x in ForestBag(f) ==> ForestBag(f)[x] >= 1;
    }
  }

  lemma ForestUnique(db: Db, roots: seq<nat>, f: seq<Tree>, g: seq<Tree>)
    requires OwnedForest(db, {}, roots, f) && OwnedForest(db, {}, roots, g)
    ensures f == g
  {
    forall j | 0 <= j < |f| ensures f[j] == g[j] {
      OwnedNodesUnique(db, f[j], g[j]);
    }
  }

  // References: one per catalog root and one per child pointer of an opened page.

  ghost function EdgeBag(db: Db, p: nat): multiset<nat> {
    if p < |db.pages| then multiset(db.pages[p].Edges()) else multiset{}
  }

  // How many child pointers of the first `n` pages, as far as walked, name `x`.
  ghost function References(db: Db, walked: set<nat>, n: nat, x: nat): nat {
    if n == 0 then 0 else
      References(db, walked, n - 1, x) + if n - 1 in walked then EdgeBag(db, n - 1)[x] else 0
  }

  lemma {:induction false} ReferencesGrow(db: Db, walked: set<nat>, p: nat, n: nat, x: nat)
    requires p !in walked
    ensures References(db, walked + {p}, n, x) ==
      References(db, walked, n, x) + if p < n then EdgeBag(db, p)[x] else 0
  {
    if n > 0 {
      ReferencesGrow(db, walked, p, n - 1, x);
    }
  }

  // The marks of a run: owner and shared flag of each page, how often each page
  // number was claimed, and the pages whose children have all been claimed.
  datatype Marks = Marks(owners: seq<nat>, shared: seq<bool>, calls: multiset<nat>, walked: set<nat>)

  ghost function Owned(owners: seq<nat>): set<nat> {
    set p | 0 <= p < |owners| && owners[p] != NO_OWNER
  }

  ghost function Shared(shared: seq<bool>): set<nat> {
    set p | 0 <= p < |shared| && shared[p]
  }

  ghost predicate MarkOk(db: Db, m: Marks, p: nat) {
    && p < |m.owners| && p < |m.shared|
    && (m.owners[p] != NO_OWNER <==> db.Claimable(p) && m.calls[p] >= 1)
    && (m.shared[p] <==> db.Claimable(p) && m.calls[p] >= 2)
  }

  ghost predicate MarksOk(db: Db, m: Marks) {
    && |m.owners| == |m.shared| == |db.pages|
    && (forall p :: 0 <= p < |db.pages| ==> MarkOk(db, m, p))
    && m.walked <= Owned(m.owners)
  }

  // Page `q`, first claimed below one of `roots`: how it was reached, and that its
  // children have been claimed.
  ghost predicate Settled(db: Db, owned: set<nat>, walked: set<nat>, roots: seq<nat>, q: nat) {
    && ReachableFrom(db, roots, q)
    && Followed(db, owned, q)
    && (q in walked <==> db.Opens(q))
  }

  ghost predicate OwnerKept(before: seq<nat>, after: seq<nat>, table: nat, q: nat) {
    && q < |before| && q < |after|
    && if before[q] == NO_OWNER then after[q] == NO_OWNER || after[q] == table else after[q] == before[q]
  }

  // The marks after claiming `roots` for `table`.
  ghost predicate Claimed(db: Db, before: Marks, after: Marks, roots: seq<nat>, table: nat) {
    && MarksOk(db, before) && MarksOk(db, after)
    && (forall q :: 0 <= q < |db.pages| ==> OwnerKept(before.owners, after.owners, table, q))
    && before.walked <= after.walked
    && (forall q :: q in after.walked && q in Owned(before.owners) ==> q in before.walked)
    && (forall q :: q in Owned(after.owners) && q !in Owned(before.owners) ==>
          Settled(db, Owned(after.owners), after.walked, roots, q))
    && (forall r :: r in roots && db.Claimable(r) ==> r in Owned(after.owners))
    && (forall x :: ClaimsAt(db, before, after, roots, x))
  }

  // Each claim of `x` is a root or a child pointer of a page walked meanwhile.
  ghost predicate ClaimsAt(db: Db, before: Marks, after: Marks, roots: seq<nat>, x: nat) {
    after.calls[x] + References(db, before.walked, |db.pages|, x) ==
    before.calls[x] + multiset(roots)[x] + References(db, after.walked, |db.pages|, x)
  }

  lemma OwnedGrows(db: Db, before: Marks, after: Marks, roots: seq<nat>, table: nat)
    requires Claimed(db, before, after, roots, table)
    ensures Owned(before.owners) <= Owned(after.owners)
  {
    forall q | q in Owned(before.owners) ensures q in Owned(after.owners) {
      assert OwnerKept(before.owners, after.owners, table, q);
    }
  }

  lemma SettledStays(db: Db, owned: set<nat>, walked: set<nat>, roots: seq<nat>,
                     owned': set<nat>, walked': set<nat>, roots': seq<nat>, q: nat)
    requires Settled(db, owned, walked, roots, q)
    requires owned <= owned' && (q in walked <==> q in walked') && forall r :: r in roots ==> r in roots'
    ensures Settled(db, owned', walked', roots', q)
  {
    var r :| r in roots && Reachable(db, r, q);
    assert r in roots';
  }

  // Claiming more roots for the same table.
  lemma ClaimedMore(db: Db, a: Marks, b: Marks, c: Marks, roots: seq<nat>, r: nat, table: nat)
    requires Claimed(db, a, b, roots, table) && Claimed(db, b, c, [r], table)
    ensures Claimed(db, a, c, roots + [r], table)
  {
    forall q | 0 <= q < |db.pages| ensures OwnerKept(a.owners, c.owners, table, q) {
      assert OwnerKept(a.owners, b.owners, table, q) && OwnerKept(b.owners, c.owners, table, q);
    }
    OwnedGrows(db, a, b, roots, table);
    OwnedGrows(db, b, c, [r], table);
    forall q | q in Owned(c.owners) && q !in Owned(a.owners)
      ensures Settled(db, Owned(c.owners), c.walked, roots + [r], q)
    {
      if q in Owned(b.owners) {
        SettledStays(db, Owned(b.owners), b.walked, roots, Owned(c.owners), c.walked, roots + [r], q);
      } else {
        SettledStays(db, Owned(c.owners), c.walked, [r], Owned(c.owners), c.walked, roots + [r], q);
      }
    }
    forall x ensures ClaimsAt(db, a, c, roots + [r], x) {
      assert ClaimsAt(db, a, b, roots, x) && ClaimsAt(db, b, c, [r], x);
    }
  }

  // The three ways a claim of one page starts.

  lemma ClaimRefused(db: Db, m: Marks, p: nat, table: nat)
    requires MarksOk(db, m) && !db.Claimable(p)
    ensures Claimed(db, m, m.(calls := m.calls + multiset{p}), [p], table)
  {
    var after := m.(calls := m.calls + multiset{p});
    forall q | 0 <= q < |db.pages| ensures MarkOk(db, after, q) {
      assert MarkOk(db, m, q);
    }
  }

  lemma ClaimAgain(db: Db, m: Marks, p: nat, table: nat)
    requires MarksOk(db, m) && p < |db.pages| && m.owners[p] != NO_OWNER
    ensures Claimed(db, m, m.(shared := m.shared[p := true], calls := m.calls + multiset{p}), [p], table)
  {
    var after := m.(shared := m.shared[p := true], calls := m.calls + multiset{p});
    forall q | 0 <= q < |db.pages| ensures MarkOk(db, after, q) {
      assert MarkOk(db, m, q);
    }
  }

  function Taken(m: Marks, p: nat, table: nat): Marks
    requires p < |m.owners|
  {
    m.(owners := m.owners[p := table], calls := m.calls + multiset{p})
  }

  lemma OwnedBound(db: Db, owners: seq<nat>)
    requires |owners| == |db.pages|
    ensures |Owned(owners)| <= |db.pages|
  {
    BoundedCardinality(Owned(owners), |db.pages|);
  }

  lemma TakenIsOk(db: Db, m: Marks, p: nat, table: nat)
    requires MarksOk(db, m) && db.Claimable(p) && m.owners[p] == NO_OWNER && table < NO_OWNER
    ensures MarksOk(db, Taken(m, p, table)) && p !in m.walked
    ensures Owned(Taken(m, p, table).owners) == Owned(m.owners) + {p}
    ensures |Owned(Taken(m, p, table).owners)| == |Owned(m.owners)| + 1 <= |db.pages|
  {
    OwnedBound(db, Taken(m, p, table).owners);
    forall q | 0 <= q < |db.pages| ensures MarkOk(db, Taken(m, p, table), q) {
      assert MarkOk(db, m, q);
    }
  }

  // A page with no children to follow.
  lemma ClaimFirst(db: Db, m: Marks, p: nat, table: nat)
    requires MarksOk(db, m) && db.Claimable(p) && m.owners[p] == NO_OWNER && table < NO_OWNER && !db.Opens(p)
    ensures Claimed(db, m, Taken(m, p, table), [p], table)
  {
    TakenIsOk(db, m, p, table);
    assert Path(db, p, p, 0);
    assert p in [p];
  }

  // A page and then its children.
  lemma ClaimBelow(db: Db, m: Marks, after: Marks, p: nat, table: nat)
    requires MarksOk(db, m) && db.Claimable(p) && m.owners[p] == NO_OWNER && table < NO_OWNER && db.Opens(p)
    requires Claimed(db, Taken(m, p, table), after, db.pages[p].Edges(), table)
    ensures Claimed(db, m, after.(walked := after.walked + {p}), [p], table)
  {
    var start, edges := Taken(m, p, table), db.pages[p].Edges();
    var end := after.(walked := after.walked + {p});
    TakenIsOk(db, m, p, table);
    OwnedGrows(db, start, after, edges, table);
    forall q | 0 <= q < |db.pages| ensures MarkOk(db, end, q) && OwnerKept(m.owners, end.owners, table, q) {
      assert MarkOk(db, after, q) && OwnerKept(start.owners, after.owners, table, q);
    }
    assert Path(db, p, p, 0);
    assert p in [p];
    forall q | q in Owned(end.owners) && q !in Owned(m.owners)
      ensures Settled(db, Owned(end.owners), end.walked, [p], q)
    {
      if q != p {
        assert Settled(db, Owned(after.owners), after.walked, edges, q);
        var e :| e in edges && Reachable(db, e, q);
        ReachableStep(db, p, e, q);
      }
    }
    forall x ensures ClaimsAt(db, m, end, [p], x) {
      assert ClaimsAt(db, start, after, edges, x);
      assert p !in after.walked;
      ReferencesGrow(db, after.walked, p, |db.pages|, x);
    }
  }

  // The answer for `roots` when `before` was already owned.
  ghost predicate Verdict(db: Db, before: set<nat>, after: set<nat>, roots: seq<nat>, ok: bool, f: seq<Tree>) {
    if ok then OwnedForest(db, before, roots, f) && after == before + Members(ForestBag(f))
    else NoForest(db, before, roots)
  }

  ghost predicate NoForest(db: Db, taken: set<nat>, roots: seq<nat>) {
    forall f :: !OwnedForest(db, taken, roots, f)
  }

  lemma SingleForest(db: Db, taken: set<nat>, t: Tree)
    ensures OwnedForest(db, taken, [t.page], [t]) <==> OwnedTree(db, taken, t)
    ensures ForestBag([t]) == PageBag(t)
  {
    var f, roots := [t], [t.page];
    assert f[1..] == [] && f[0] == t;
    assert ForestBag(f[1..]) == multiset{};
    assert ForestBag(f) == PageBag(f[0]) + ForestBag(f[1..]);
    assert ForestBag(f) == PageBag(t);
    if OwnedForest(db, taken, roots, f) {
      assert f[0].page == roots[0] && OwnedNodes(db, f[0]);
    }
    if OwnedTree(db, taken, t) {
      forall k | 0 <= k < |f| ensures f[k].page == roots[k] && OwnedNodes(db, f[k]) {
        assert f[k] == t;
      }
      assert OwnedForest(db, taken, roots, f);
    }
  }

  lemma VerdictMore(db: Db, before: set<nat>, mid: set<nat>, after: set<nat>, roots: seq<nat>, r: nat,
                    ok: bool, f: seq<Tree>, fine: bool, g: seq<Tree>)
    requires Verdict(db, before, mid, roots, ok, f) && Verdict(db, mid, after, [r], fine, g)
    ensures Verdict(db, before, after, roots + [r], ok && fine, f + g)
  {
    if ok && fine {
      assert g == [g[0]];
      SingleForest(db, mid, g[0]);
      ForestGrows(db, before, roots, f, g[0]);
    } else {
      forall h: seq<Tree> ensures !OwnedForest(db, before, roots + [r], h) {
        if OwnedForest(db, before, roots + [r], h) {
          NoMore(db, before, mid, roots, r, ok, f, h);
        }
      }
    }
  }

  lemma NoMore(db: Db, before: set<nat>, mid: set<nat>, roots: seq<nat>, r: nat, ok: bool, f: seq<Tree>, h: seq<Tree>)
    requires Verdict(db, before, mid, roots, ok, f) && OwnedForest(db, before, roots + [r], h)
    ensures ok && !NoForest(db, mid, [r])
  {
    var n := |roots|;
    assert (roots + [r])[..n] == roots;
    ForestBagAt(h, n);
    assert OwnedForest(db, before, roots, h[..n]) by {
      forall x | x in ForestBag(h[..n]) ensures ForestBag(h[..n])[x] == 1 && x !in before {
        assert ForestBag(h)[x] == 1;
      }
      forall k | 0 <= k < n ensures h[..n][k].page == roots[k] && OwnedNodes(db, h[..n][k]) {
        assert h[k].page == (roots + [r])[k];
      }
    }
    if ok {
      ForestContinues(db, before, roots + [r], f, h);
      SingleForest(db, mid, h[n]);
    }
  }

  lemma VerdictBelow(db: Db, before: set<nat>, after: set<nat>, p: nat, ok: bool, f: seq<Tree>)
    requires db.Claimable(p) && db.Fine(p) && p !in before
    requires Verdict(db, before + {p}, after, db.pages[p].Edges(), ok, f)
    ensures Verdict(db, before, after, [p], ok, [Tree(p, f)])
  {
    if ok {
      TreeFromForest(db, before, p, f);
      SingleForest(db, before, Tree(p, f));
    } else {
      forall h: seq<Tree> ensures !OwnedForest(db, before, [p], h) {
        if OwnedForest(db, before, [p], h) {
          SingleForest(db, before, h[0]);
          assert h == [h[0]];
          ForestOfTree(db, before, h[0]);
        }
      }
    }
  }

  lemma VerdictRefused(db: Db, before: set<nat>, p: nat)
    requires !db.Claimable(p) || !db.Fine(p) || p in before
    ensures NoForest(db, before, [p])
  {
    forall h: seq<Tree> ensures !OwnedForest(db, before, [p], h) {
      if OwnedForest(db, before, [p], h) {
        SingleForest(db, before, h[0]);
        assert h == [h[0]];
        ForestOfTree(db, before, h[0]);
      }
    }
  }

  // The marks and the answer together.
  ghost predicate Answered(db: Db, a: Marks, b: Marks, roots: seq<nat>, table: nat, ok: bool, f: seq<Tree>) {
    Claimed(db, a, b, roots, table) && Verdict(db, Owned(a.owners), Owned(b.owners), roots, ok, f)
  }

  lemma AnsweredNothing(db: Db, m: Marks, table: nat)
    requires MarksOk(db, m)
    ensures Answered(db, m, m, [], table, true, [])
  {
  }

  lemma AnsweredNext(db: Db, a: Marks, b: Marks, c: Marks, roots: seq<nat>, r: nat, table: nat,
                     ok: bool, f: seq<Tree>, fine: bool, g: seq<Tree>)
    requires Answered(db, a, b, roots, table, ok, f) && Answered(db, b, c, [r], table, fine, g)
    ensures Answered(db, a, c, roots + [r], table, ok && fine, f + g)
    ensures |Owned(b.owners)| <= |Owned(c.owners)|
  {
    ClaimedMore(db, a, b, c, roots, r, table);
    VerdictMore(db, Owned(a.owners), Owned(b.owners), Owned(c.owners), roots, r, ok, f, fine, g);
    OwnedGrows(db, b, c, [r], table);
    SubsetCardinality(Owned(b.owners), Owned(c.owners));
  }

  lemma AnsweredUnfit(db: Db, m: Marks, p: nat, table: nat, t: Tree)
    requires MarksOk(db, m) && db.Claimable(p) && m.owners[p] == NO_OWNER && table < NO_OWNER
    requires !db.Opens(p) && !db.Fine(p)
    ensures Answered(db, m, Taken(m, p, table), [p], table, false, [t])
  {
    ClaimFirst(db, m, p, table);
    VerdictRefused(db, Owned(m.owners), p);
  }

  lemma AnsweredLeaf(db: Db, m: Marks, p: nat, table: nat)
    requires MarksOk(db, m) && db.Claimable(p) && m.owners[p] == NO_OWNER && table < NO_OWNER
    requires db.Fine(p) && db.pages[p].kind.Leaf?
    ensures Answered(db, m, Taken(m, p, table), [p], table, true, [Tree(p, [])])
  {
    ClaimFirst(db, m, p, table);
    TakenIsOk(db, m, p, table);
    VerdictBelow(db, Owned(m.owners), Owned(m.owners) + {p}, p, true, []);
  }

  lemma AnsweredBelow(db: Db, m: Marks, after: Marks, p: nat, table: nat, ok: bool, f: seq<Tree>)
    requires MarksOk(db, m) && db.Claimable(p) && m.owners[p] == NO_OWNER && table < NO_OWNER && db.Opens(p)
    requires Answered(db, Taken(m, p, table), after, db.pages[p].Edges(), table, ok, f)
    ensures Answered(db, m, after.(walked := after.walked + {p}), [p], table, ok, [Tree(p, f)])
  {
    TakenIsOk(db, m, p, table);
    ClaimBelow(db, m, after, p, table);
    VerdictBelow(db, Owned(m.owners), Owned(after.owners), p, ok, f);
  }

  class OwnershipCheck {
    const db: Db
    const owners: array<nat>
    const shared: array<bool>
    var ownedPages: nat
    var sharedPages: nat
    ghost var calls: multiset<nat>
    ghost var walked: set<nat>

    ghost function Now(): Marks
      reads this, owners, shared
    {
      Marks(owners[..], shared[..], calls, walked)
    }

    ghost predicate Valid()
      reads this, owners, shared
    {
      && MarksOk(db, Now())
      && ownedPages == |Owned(owners[..])| <= |db.pages|
      && sharedPages == |Shared(shared[..])|
    }

    constructor (db: Db)
      ensures Valid() && this.db == db && fresh(owners) && fresh(shared)
      ensures Owned(owners[..]) == {} && Shared(shared[..]) == {} && calls == multiset{} && walked == {}
    {
      this.db := db;
      owners := new nat[|db.pages|](i => NO_OWNER);
      shared := new bool[|db.pages|](i => false);
      ownedPages, sharedPages, calls, walked := 0, 0, multiset{}, {};
      new;
      assert Owned(owners[..]) == {} && Shared(shared[..]) == {};
    }

    // Page `p` has an owner already.
    method Share(p: nat, table: nat)
      requires Valid() && p < |db.pages| && owners[p] != NO_OWNER
      modifies this`sharedPages, this`calls, shared
      ensures Valid() && Claimed(db, old(Now()), Now(), [p], table)
    {
      ghost var before := Now();
      ClaimAgain(db, before, p, table);
      if !shared[p] {
        sharedPages := sharedPages + 1;
        assert Shared(before.shared[p := true]) == Shared(before.shared) + {p};
      }
      shared[p] := true;
      calls := calls + multiset{p};
      assert before.shared[p] ==> before.shared[p := true] == before.shared;
      assert Now() == before.(shared := before.shared[p := true], calls := before.calls + multiset{p});
    }

    method Take(p: nat, table: nat)
      requires Valid() && db.Claimable(p) && owners[p] == NO_OWNER && table < NO_OWNER
      modifies this`ownedPages, this`calls, owners
      ensures Valid() && Now() == Taken(old(Now()), p, table)
      ensures ownedPages == old(ownedPages) + 1
      ensures p !in old(Owned(owners[..])) && Owned(owners[..]) == old(Owned(owners[..])) + {p}
    {
      ghost var before := Now();
      TakenIsOk(db, before, p, table);
      owners[p], calls := table, calls + multiset{p};
      ownedPages := ownedPages + 1;
      assert Now() == Taken(before, p, table);
    }

    method Claim(p: nat, table: nat) returns (ok: bool, ghost t: Tree)
      requires Valid() && table < NO_OWNER
      modifies this, owners, shared
      ensures Valid() && Answered(db, old(Now()), Now(), [p], table, ok, [t])
      ensures ok ==> sharedPages == old(sharedPages)
      decreases |db.pages| - ownedPages, 0, 0
    {
      ghost var before, taken := Now(), Owned(owners[..]);
      ok, t := false, Tree(p, []);
      if p >= |db.pages| || p in db.free {
        ClaimRefused(db, before, p, table);
        VerdictRefused(db, taken, p);
        calls := calls + multiset{p};
        return;
      }
      if owners[p] != NO_OWNER {
        VerdictRefused(db, taken, p);
        Share(p, table);
        return;
      }
      Take(p, table);
      ok, t := ClaimBeneath(before, p, table);
    }

    // What follows once `p` has its owner.
    method ClaimBeneath(ghost before: Marks, p: nat, table: nat) returns (ok: bool, ghost t: Tree)
      requires Valid() && table < NO_OWNER && MarksOk(db, before)
      requires db.Claimable(p) && before.owners[p] == NO_OWNER && Now() == Taken(before, p, table)
      requires p !in Owned(before.owners) && Owned(owners[..]) == Owned(before.owners) + {p}
      modifies this, owners, shared
      ensures Valid() && Answered(db, before, Now(), [p], table, ok, [t])
      ensures ok ==> sharedPages == old(sharedPages)
      decreases |db.pages| - ownedPages, 2, 0
    {
      var page := db.pages[p];
      ok, t := false, Tree(p, []);
      if p in db.stuck || page.kind.Unknown? || (page.kind.Internal? && |page.cells| > INTERNAL_NODE_MAX_KEYS) {
        AnsweredUnfit(db, before, p, table, t);
        return;
      }
      if page.kind.Leaf? {
        AnsweredLeaf(db, before, p, table);
        ok := true;
        return;
      }
      ghost var f;
      ok, f := ClaimAll(page.Children(), table);
      AnsweredBelow(db, before, Now(), p, table, ok, f);
      walked, t := walked + {p}, Tree(p, f);
    }

    // Every child is claimed, whether or not an earlier one failed.
    method ClaimAll(children: seq<nat>, table: nat) returns (ok: bool, ghost f: seq<Tree>)
      requires Valid() && table < NO_OWNER
      modifies this, owners, shared
      ensures Valid() && Answered(db, old(Now()), Now(), children, table, ok, f)
      ensures ok ==> sharedPages == old(sharedPages)
      decreases |db.pages| - ownedPages, 1, |children|
    {
      ghost var before := Now();
      ok, f := true, [];
      AnsweredNothing(db, before, table);
      for k := 0 to |children|
        invariant Valid() && Answered(db, before, Now(), children[..k], table, ok, f)
        invariant ownedPages >= old(ownedPages)
        invariant ok ==> sharedPages == old(sharedPages)
      {
        ghost var mid := Now();
        var fine;
        ghost var t;
        fine, t := Claim(children[k], table);
        AnsweredNext(db, before, mid, Now(), children[..k], children[k], table, ok, f, fine, [t]);
        PrefixGrows(children, k);
        ok, f := ok && fine, f + [t];
      }
      PrefixAll(children);
    }
  }

  // After the trees of `roots`: who owns what.
  ghost predicate OwnerIsFirst(db: Db, roots: seq<nat>, owners: seq<nat>, q: nat) {
    && q < |owners| && owners[q] < |roots|
    && Reachable(db, roots[owners[q]], q)
    && forall j :: 0 <= j < owners[q] ==> !Reachable(db, roots[j], q)
  }

  ghost predicate Standing(db: Db, roots: seq<nat>, m: Marks, q: nat) {
    && OwnerIsFirst(db, roots, m.owners, q)
    && Followed(db, Owned(m.owners), q)
    && (q in m.walked <==> db.Opens(q))
  }

  ghost predicate Counted(db: Db, roots: seq<nat>, m: Marks, x: nat) {
    m.calls[x] == multiset(roots)[x] + References(db, m.walked, |db.pages|, x)
  }

  ghost predicate Stands(db: Db, roots: seq<nat>, m: Marks) {
    && MarksOk(db, m)
    && (forall q :: q in Owned(m.owners) ==> Standing(db, roots, m, q))
    && (forall r :: r in roots && db.Claimable(r) ==> r in Owned(m.owners))
    && (forall x :: Counted(db, roots, m, x))
  }

  lemma {:induction false} NoReferences(db: Db, n: nat, x: nat)
    ensures References(db, {}, n, x) == 0
  {
    if n > 0 {
      NoReferences(db, n - 1, x);
    }
  }

  // Owned means reachable.
  lemma StandsReachable(db: Db, roots: seq<nat>, m: Marks, q: nat)
    requires Stands(db, roots, m)
    ensures q in Owned(m.owners) <==> ReachableFrom(db, roots, q)
  {
    if q in Owned(m.owners) {
      assert Standing(db, roots, m, q);
    }
    if ReachableFrom(db, roots, q) {
      var r :| r in roots && Reachable(db, r, q);
      var n: nat :| Path(db, r, q, n);
      forall x | x in Owned(m.owners) ensures Followed(db, Owned(m.owners), x) {
        assert Standing(db, roots, m, x);
      }
      FollowedContains(db, Owned(m.owners), r, q, n);
    }
  }

  lemma StandingAfter(db: Db, roots: seq<nat>, r: nat, m: Marks, after: Marks, q: nat)
    requires Stands(db, roots, m) && Claimed(db, m, after, [r], |roots|) && q in Owned(after.owners)
    ensures Standing(db, roots + [r], after, q)
  {
    var all := roots + [r];
    OwnedGrows(db, m, after, [r], |roots|);
    assert OwnerKept(m.owners, after.owners, |roots|, q);
    if q in Owned(m.owners) {
      assert Standing(db, roots, m, q);
    } else {
      assert Settled(db, Owned(after.owners), after.walked, [r], q);
      assert after.owners[q] == |roots| && all[|roots|] == r;
      forall j | 0 <= j < |roots| ensures !Reachable(db, all[j], q) {
        StandsReachable(db, roots, m, q);
        assert roots[j] in roots;
      }
    }
  }

  lemma StandsAfter(db: Db, roots: seq<nat>, r: nat, m: Marks, after: Marks)
    requires Stands(db, roots, m) && Claimed(db, m, after, [r], |roots|)
    ensures Stands(db, roots + [r], after)
  {
    OwnedGrows(db, m, after, [r], |roots|);
    forall q | q in Owned(after.owners) ensures Standing(db, roots + [r], after, q) {
      StandingAfter(db, roots, r, m, after, q);
    }
    forall x ensures Counted(db, roots + [r], after, x) {
      assert Counted(db, roots, m, x) && ClaimsAt(db, m, after, [r], x);
    }
  }

  // The numbers the check reports.
  datatype Stats = Stats(total: nat, free: nat, owned: nat, orphan: nat, shared: nat)

  ghost function ReachablePages(db: Db, roots: seq<nat>): set<nat> {
    set p | 0 <= p < |db.pages| && ReachableFrom(db, roots, p)
  }

  ghost function OrphanPages(db: Db, roots: seq<nat>): set<nat> {
    set p | 0 <= p < |db.pages| && p !in db.free && !ReachableFrom(db, roots, p)
  }

  // Named twice or more by catalog roots and by reachable pages whose children are read.
  ghost function SharedPages(db: Db, roots: seq<nat>): set<nat> {
    set p | 0 <= p < |db.pages| && p !in db.free &&
      multiset(roots)[p] + References(db, WalkedPages(db, roots), |db.pages|, p) >= 2
  }

  ghost function WalkedPages(db: Db, roots: seq<nat>): set<nat> {
    set p | p in ReachablePages(db, roots) && db.Opens(p)
  }

  lemma StandsOwned(db: Db, roots: seq<nat>, m: Marks)
    requires Stands(db, roots, m)
    ensures Owned(m.owners) == ReachablePages(db, roots)
    ensures m.walked == WalkedPages(db, roots)
  {
    forall q: nat ensures q in Owned(m.owners) <==> q in ReachablePages(db, roots) {
      StandsReachable(db, roots, m, q);
    }
    forall q: nat ensures q in m.walked <==> q in WalkedPages(db, roots) {
      assert q in Owned(m.owners) ==> Standing(db, roots, m, q);
    }
  }

  lemma StandsShared(db: Db, roots: seq<nat>, m: Marks)
    requires Stands(db, roots, m)
    ensures Shared(m.shared) == SharedPages(db, roots)
  {
    StandsOwned(db, roots, m);
    forall q: nat | q < |db.pages| ensures q in Shared(m.shared) <==> q in SharedPages(db, roots) {
      assert Counted(db, roots, m, q) && MarkOk(db, m, q);
    }
  }

  lemma ReachableIsClaimable(db: Db, p: nat, q: nat, n: nat)
    requires Path(db, p, q, n)
    ensures db.Claimable(q)
    decreases n
  {
    if p != q {
      var e :| e in db.pages[p].Edges() && Path(db, e, q, n - 1);
      ReachableIsClaimable(db, e, q, n - 1);
    }
  }

  // Every page is counted exactly once.
  lemma PagesAreConserved(db: Db, roots: seq<nat>)
    requires FreeListFine(db)
    ensures |ReachablePages(db, roots)| + |db.free| + |OrphanPages(db, roots)| == |db.pages|
  {
    var owned, orphan, free := ReachablePages(db, roots), OrphanPages(db, roots), Elements(db.free);
    ReachableNotFree(db, roots);
    DistinctCardinality(db.free);
    BelowMeans(|db.pages|);
    forall p: nat ensures p in Below(|db.pages|) <==> p in owned + free + orphan {
    }
    assert Below(|db.pages|) == owned + free + orphan;
    assert |owned + free| == |owned| + |free|;
    assert |owned + free + orphan| == |owned + free| + |orphan|;
  }

  lemma ReachableNotFree(db: Db, roots: seq<nat>)
    ensures ReachablePages(db, roots) !! Elements(db.free)
  {
    forall q | q in ReachablePages(db, roots) ensures q !in db.free {
      var r :| r in roots && Reachable(db, r, q);
      var n: nat :| Path(db, r, q, n);
      ReachableIsClaimable(db, r, q, n);
    }
  }

  ghost function Below(n: nat): set<nat> {
    if n == 0 then {} else Below(n - 1) + {n - 1}
  }

  lemma {:induction false} BelowMeans(n: nat)
    ensures |Below(n)| == n && forall p: nat :: p in Below(n) <==> p < n
  {
    if n > 0 {
      BelowMeans(n - 1);
    }
  }

  method ValidateFreeList(db: Db) returns (ok: bool)
    ensures ok <==> FreeListFine(db)
  {
    for i := 0 to |db.free|
      invariant Distinct(db.free[..i]) && forall p :: p in db.free[..i] ==> p < |db.pages|
    {
      if db.free[i] >= |db.pages| {
        assert db.free[i] in db.free;
        return false;
      }
      for j := 0 to i
        invariant forall k :: 0 <= k < j ==> db.free[k] != db.free[i]
      {
        if db.free[j] == db.free[i] {
          return false;
        }
      }
      assert db.free[..i + 1] == db.free[..i] + [db.free[i]];
    }
    assert db.free[..|db.free|] == db.free;
    ok := true;
  }

  // Claims the tree of every catalog root, in catalog order.
  method ClaimTables(check: OwnershipCheck, roots: seq<nat>) returns (ok: bool, ghost f: seq<Tree>)
    requires check.Valid() && Stands(check.db, [], check.Now()) && Owned(check.owners[..]) == {}
    requires |roots| <= MAX_TABLES
    modifies check, check.owners, check.shared
    ensures check.Valid() && Stands(check.db, roots, check.Now())
    ensures Verdict(check.db, {}, Owned(check.owners[..]), roots, ok, f)
    ensures ok ==> check.sharedPages == old(check.sharedPages)
  {
    ok, f := true, [];
    for k := 0 to |roots|
      invariant check.Valid() && Stands(check.db, roots[..k], check.Now())
      invariant Verdict(check.db, {}, Owned(check.owners[..]), roots[..k], ok, f)
      invariant ok ==> check.sharedPages == old(check.sharedPages)
    {
      ghost var mid := check.Now();
      var fine;
      ghost var t;
      fine, t := check.Claim(roots[k], k);
      StandsAfter(check.db, roots[..k], roots[k], mid, check.Now());
      VerdictMore(check.db, {}, Owned(mid.owners), Owned(check.owners[..]), roots[..k], roots[k], ok, f, fine, [t]);
      PrefixGrows(roots, k);
      ok, f := ok && fine, f + [t];
    }
    PrefixAll(roots);
  }

  // The pages below `n` that are neither free nor owned.
  ghost function Orphans(db: Db, owners: seq<nat>, n: nat): set<nat> {
    set p | 0 <= p < n && p < |owners| && p !in db.free && owners[p] == NO_OWNER
  }

  method CountOrphans(db: Db, owners: array<nat>) returns (count: nat)
    requires owners.Length == |db.pages|
    ensures count == |Orphans(db, owners[..], |db.pages|)|
  {
    count := 0;
    assert Orphans(db, owners[..], 0) == {};
    for p := 0 to |db.pages|
      invariant count == |Orphans(db, owners[..], p)|
    {
      if p !in db.free && owners[p] == NO_OWNER {
        count := count + 1;
        assert Orphans(db, owners[..], p + 1) == Orphans(db, owners[..], p) + {p};
      } else {
        assert Orphans(db, owners[..], p + 1) == Orphans(db, owners[..], p);
      }
    }
  }

  // The verdict of the claims, with no page left over, is a partition.
  lemma PassIsPartition(db: Db, roots: seq<nat>, m: Marks, ok: bool, f: seq<Tree>)
    requires Stands(db, roots, m) && Verdict(db, {}, Owned(m.owners), roots, ok, f)
    ensures ok && Orphans(db, m.owners, |db.pages|) == {} <==> exists g :: Partitioned(db, roots, g)
  {
    if ok && Orphans(db, m.owners, |db.pages|) == {} {
      forall p | 0 <= p < |db.pages| ensures p in db.free || p in ForestBag(f) {
        assert p !in Orphans(db, m.owners, |db.pages|);
        assert p in Owned(m.owners) ==> p in Members(ForestBag(f));
      }
      assert Partitioned(db, roots, f);
    }
    if g :| Partitioned(db, roots, g) {
      assert ok;
      ForestUnique(db, roots, f, g);
      forall p | 0 <= p < |db.pages| ensures p !in Orphans(db, m.owners, |db.pages|) {
        assert p in ForestBag(f) ==> p in Members(ForestBag(f));
      }
    }
  }

  lemma OrphansAreUnreachable(db: Db, roots: seq<nat>, m: Marks)
    requires Stands(db, roots, m)
    ensures Orphans(db, m.owners, |db.pages|) == OrphanPages(db, roots)
  {
    forall p: nat | p < |db.pages| ensures p in Orphans(db, m.owners, |db.pages|) <==> p in OrphanPages(db, roots) {
      StandsReachable(db, roots, m, p);
    }
  }

  lemma FreshStands(db: Db, m: Marks)
    requires MarksOk(db, m) && Owned(m.owners) == {} && m.calls == multiset{} && m.walked == {}
    ensures Stands(db, [], m)
  {
    forall x ensures Counted(db, [], m, x) {
      NoReferences(db, |db.pages|, x);
    }
  }

  // The whole check.  The counts always add up when the free list is fine; it
  // passes exactly when the free pages and the tables' trees partition the file.
  method CheckOwnership(db: Db, roots: seq<nat>) returns (ok: bool, stats: Stats)
    requires |roots| <= MAX_TABLES
    ensures stats.total == |db.pages| && stats.free == |db.free|
    ensures |db.pages| == 0 ==> ok && stats.owned == stats.orphan == stats.shared == 0
    ensures |db.pages| > 0 ==>
      && stats.owned == |ReachablePages(db, roots)|
      && stats.orphan == |OrphanPages(db, roots)|
      && stats.shared == |SharedPages(db, roots)|
    ensures |db.pages| > 0 && FreeListFine(db) ==> stats.owned + stats.free + stats.orphan == stats.total
    ensures |db.pages| > 0 ==> (ok <==> FreeListFine(db) && exists f :: Partitioned(db, roots, f))
    ensures ok ==> stats.orphan == stats.shared == 0
  {
    if |db.pages| == 0 {
      return true, Stats(0, |db.free|, 0, 0, 0);
    }
    var check := new OwnershipCheck(db);
    FreshStands(db, check.Now());
    var listed := ValidateFreeList(db);
    ghost var f;
    ok, f := ClaimTables(check, roots);
    var orphans := CountOrphans(db, check.owners);
    PassIsPartition(db, roots, check.Now(), ok, f);
    OrphansAreUnreachable(db, roots, check.Now());
    StandsOwned(db, roots, check.Now());
    StandsShared(db, roots, check.Now());
    if FreeListFine(db) {
      PagesAreConserved(db, roots);
    }
    ok := listed && ok && orphans == 0;
    stats := Stats(|db.pages|, |db.free|, check.ownedPages, orphans, check.sharedPages);
  }
}
