/** How many internal pages a bottom-up build over a leaf chain needs, and how
    the nodes of one level are shared out among their parents
    (src/compact_v2_staging_hierarchy.h:61-86, 369-422). */
module StagingGeometry {
  import opened Pages

  const FANOUT: nat := INTERNAL_NODE_MAX_KEYS + 1
  const UINT32_MAX: nat := 0xFFFF_FFFF

  function Parents(n: nat, fanout: nat): nat
    requires fanout > 0
  {
    n / fanout + if n % fanout != 0 then 1 else 0
  }

  // Children of parent number `k` when `n` nodes are spread over `p` parents.
  function ChildCount(n: nat, p: nat, k: nat): nat
    requires p > 0
  {
    n / p + if k < n % p then 1 else 0
  }

  // As few parents as hold all nodes.
  lemma ParentsIs(n: nat, fanout: nat)
    requires fanout > 0 && n > 0
    ensures (Parents(n, fanout) - 1) * fanout < n <= Parents(n, fanout) * fanout
  {
    Division(n, fanout);
    assert (n / fanout - 1) * fanout == fanout * (n / fanout) - fanout;
    assert (n / fanout + 1) * fanout == fanout * (n / fanout) + fanout;
    assert n / fanout * fanout == fanout * (n / fanout);
  }

  // The shares differ by one child at most, the larger ones first.
  lemma SharesAreEven(n: nat, p: nat, i: nat, k: nat)
    requires i <= k < p
    ensures ChildCount(n, p, k) <= ChildCount(n, p, i) <= ChildCount(n, p, k) + 1
  {
  }

  lemma Division(n: nat, d: nat)
    requires d > 0
    ensures n == d * (n / d) + n % d && 0 <= n % d < d && 0 <= n / d
  {
  }

  lemma Grow(a: nat, b: nat, x: nat)
    ensures a <= b ==> a * x <= b * x
  {
  }

  // Fewer parents than nodes; with three or more ways, at most half as many.
  lemma ParentsShrink(n: nat, fanout: nat)
    requires n >= 2 && fanout >= 2
    ensures 1 <= Parents(n, fanout) < n
    ensures n <= Parents(n, fanout) * fanout
    ensures fanout >= 3 ==> 2 * Parents(n, fanout) <= n
  {
    Division(n, fanout);
    var q := n / fanout;
    Grow(if fanout >= 3 then 3 else 2, fanout, q);
    assert (q + 1) * fanout == q * fanout + fanout;
    if q == 0 {
      assert n % fanout == n;
    }
  }

  // A quotient is pinned down by the interval its dividend lies in.
  lemma QuotientAtLeast(n: nat, d: nat, q: nat)
    requires d > 0 && q * d <= n
    ensures q <= n / d
  {
    Division(n, d);
    assert (n / d + 1) * d == n / d * d + d;
    Grow(n / d + 1, q, d);
  }

  lemma QuotientAtMost(n: nat, d: nat, q: nat)
    requires d > 0 && n <= q * d
    ensures n / d <= q
    ensures n / d == q ==> n % d == 0
  {
    Division(n, d);
    assert (q + 1) * d == q * d + d;
    Grow(q + 1, n / d, d);
  }

  // The even split gives every parent between two and `fanout` children.
  lemma EvenSplit(n: nat, fanout: nat, k: nat)
    requires n >= 2 && fanout >= 3 && k < Parents(n, fanout)
    ensures 2 <= ChildCount(n, Parents(n, fanout), k) <= fanout
  {
    var p := Parents(n, fanout);
    ParentsShrink(n, fanout);
    QuotientAtLeast(n, p, 2);
    assert p * fanout == fanout * p;
    QuotientAtMost(n, p, fanout);
  }

  // Two children everywhere is exactly what a fanout of three or more buys:
  // three leaves under a fanout of two leave one parent with a single child.
  lemma TwoChildrenNeedsThreeWays(fanout: nat)
    requires fanout >= 2
    ensures (forall n: nat, k: nat :: n >= 2 && k < Parents(n, fanout) ==> ChildCount(n, Parents(n, fanout), k) >= 2)
       <==> fanout >= 3
  {
    if fanout >= 3 {
      forall n: nat, k: nat | n >= 2 && k < Parents(n, fanout) ensures ChildCount(n, Parents(n, fanout), k) >= 2 {
        EvenSplit(n, fanout, k);
      }
    } else {
      assert Parents(3, 2) == 2 && ChildCount(3, Parents(3, 2), 1) == 1;
    }
  }

  // Children of the first `k` parents together.
  function Offset(n: nat, p: nat, k: nat): nat
    requires p > 0
  {
    if k == 0 then 0 else Offset(n, p, k - 1) + ChildCount(n, p, k - 1)
  }

  lemma {:induction false} OffsetIs(n: nat, p: nat, k: nat)
    requires p > 0
    ensures Offset(n, p, k) == k * (n / p) + if k < n % p then k else n % p
  {
    if k > 0 {
      OffsetIs(n, p, k - 1);
      assert k * (n / p) == (k - 1) * (n / p) + n / p;
    }
  }

  // The split is a partition.
  lemma OffsetTotal(n: nat, p: nat)
    requires p > 0
    ensures Offset(n, p, p) == n
  {
    OffsetIs(n, p, p);
    Division(n, p);
  }

  lemma {:induction false} OffsetMonotone(n: nat, p: nat, j: nat, k: nat)
    requires p > 0 && j <= k
    ensures Offset(n, p, j) <= Offset(n, p, k)
    decreases k - j
  {
    if j < k {
      OffsetMonotone(n, p, j + 1, k);
    }
  }

  // The children of parent `k` end inside the level.
  lemma RoomInLevel(n: nat, p: nat, k: nat)
    requires k < p
    ensures Offset(n, p, k) + ChildCount(n, p, k) == Offset(n, p, k + 1) <= n
  {
    OffsetTotal(n, p);
    OffsetMonotone(n, p, k + 1, p);
  }

  // Internal pages and levels above a level of `n` nodes.
  function InternalPages(n: nat, fanout: nat): nat
    requires fanout >= 2
    decreases n
  {
    if n <= 1 then 0
    else
      ParentsShrink(n, fanout);
      Parents(n, fanout) + InternalPages(Parents(n, fanout), fanout)
  }

  function Levels(n: nat, fanout: nat): nat
    requires fanout >= 2
    decreases n
  {
    if n <= 1 then 0
    else
      ParentsShrink(n, fanout);
      1 + Levels(Parents(n, fanout), fanout)
  }

  // A hierarchy never needs as many internal pages as it has leaves.
  lemma {:induction false} FewInternalPages(n: nat, fanout: nat)
    requires n >= 1 && fanout >= 3
    ensures InternalPages(n, fanout) <= n - 1
    ensures n >= 2 ==> 1 <= Levels(n, fanout) <= InternalPages(n, fanout)
    decreases n
  {
    if n >= 2 {
      ParentsShrink(n, fanout);
      FewInternalPages(Parents(n, fanout), fanout);
    }
  }

  // The preflight; its overflow branch is dead.
  method RequiredInternalPages(leafCount: nat) returns (ok: bool, requiredPages: nat, requiredLevels: nat)
    requires leafCount <= UINT32_MAX
    ensures ok <==> leafCount >= 2
    ensures ok ==> requiredPages == InternalPages(leafCount, FANOUT) <= leafCount - 1
    ensures ok ==> 1 <= requiredLevels == Levels(leafCount, FANOUT)
  {
    ok, requiredPages, requiredLevels := false, 0, 0;
    if leafCount < 2 || FANOUT < 2 {
      return;
    }
    FewInternalPages(leafCount, FANOUT);
    var total, levels, nodes := 0, 0, leafCount;
    while nodes > 1
      invariant nodes >= 1
      invariant total + InternalPages(nodes, FANOUT) == InternalPages(leafCount, FANOUT)
      invariant levels + Levels(nodes, FANOUT) == Levels(leafCount, FANOUT)
      decreases nodes
    {
      var parents := Parents(nodes, FANOUT);
      ParentsShrink(nodes, FANOUT);
      if parents == 0 || parents >= nodes {
        return;
      }
      total := total + parents;
      if total > UINT32_MAX {
        return;
      }
      nodes := parents;
      levels := levels + 1;
    }
    return true, total, levels;
  }
}
