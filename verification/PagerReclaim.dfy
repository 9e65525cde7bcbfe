/** Returning claimed pages, or a whole retired tree, to the free list
    (src/compact_v2_migration_pager_reclaim.h:22-137,
    src/fixed_v1_tree_reclaim.h:371-460).  A concurrent pin is an adversary: it
    may make the preflight fail or a single page refuse to be freed. */
module PagerReclaim {
  import opened Pages
  import opened Trees
  import opened OldTree
  import opened Pager
  import opened OwnershipCollect

  // `busy` and `pinned` are seen by the preflight; freeing a page in `raced`
  // does nothing; `canWrite` says page zero can be pinned for writing.
  datatype Pins = Pins(busy: bool, pinned: set<nat>, raced: set<nat>, canWrite: bool)

  const NO_PINS: Pins := Pins(false, {}, {}, true)

  predicate Numbers(s: seq<nat>, n: nat) {
    Distinct(s) && forall x :: x in s ==> 0 < x < n
  }

  method CheckNumbers(s: seq<nat>, n: nat) returns (ok: bool)
    requires n <= INVALID_PAGE_NUM
    ensures ok <==> Numbers(s, n)
  {
    for i := 0 to |s|
      invariant forall k :: 0 <= k < i ==> 0 < s[k] < n
      invariant forall a, b :: 0 <= a < b < i ==> s[a] != s[b]
    {
      if s[i] == 0 || s[i] == INVALID_PAGE_NUM || s[i] >= n {
        assert s[i] in s;
        return false;
      }
      for j := 0 to i
        invariant forall k :: 0 <= k < j ==> s[k] != s[i]
      {
        if s[j] == s[i] {
          return false;
        }
      }
    }
    return true;
  }

  // All claims are usable and the free list is sound.
  ghost predicate ClaimsValid(image: Image, claims: seq<nat>) {
    && claims != []
    && Numbers(claims, |image.pages|)
    && FreeListOk(image)
  }

  // The claims that are actually appended to the free list, in order.
  function Freed(free: seq<nat>, claims: seq<nat>, raced: set<nat>): seq<nat> {
    if claims == [] then []
    else
      var last := claims[|claims| - 1];
      Freed(free, claims[..|claims| - 1], raced) + if last in free || last in raced then [] else [last]
  }

  lemma {:induction false} FreedElements(free: seq<nat>, claims: seq<nat>, raced: set<nat>)
    requires Distinct(claims) && Distinct(free)
    ensures Elements(Freed(free, claims, raced)) == Elements(claims) - Elements(free) - raced
    ensures Distinct(free + Freed(free, claims, raced))
  {
    if claims != [] {
      var rest, last := claims[..|claims| - 1], claims[|claims| - 1];
      FreedElements(free, rest, raced);
      assert claims == rest + [last];
      ElementsConcat(rest, [last]);
      assert Elements([last]) == {last} && last !in Elements(rest);
      var before := Freed(free, rest, raced);
      if last !in free && last !in raced {
        ElementsConcat(before, [last]);
        assert last !in Elements(before);
        assert free + Freed(free, claims, raced) == (free + before) + [last];
        assert last !in free + before;
      } else {
        assert Freed(free, claims, raced) == before;
      }
    }
  }

  ghost predicate Passes(pager: Pager, claims: seq<nat>, pins: Pins)
    reads pager
  {
    && pager.inTransaction && ClaimsValid(pager.Now(), claims) && !pins.busy
    && forall c :: c in claims && c !in pager.free ==> c !in pins.pinned
  }

  // The complete claim set and the free list are examined before the first free.
  method Preflight(pager: Pager, claims: seq<nat>, pins: Pins) returns (ok: bool)
    requires pager.Valid()
    ensures ok <==> Passes(pager, claims, pins)
  {
    if |claims| == 0 || !pager.inTransaction || |pager.free| > |pager.pages| {
      if FreeListOk(pager.Now()) { DistinctBelow(pager.free, |pager.pages|); }
      return false;
    }
    var claimsOk := CheckNumbers(claims, |pager.pages|);
    var freeOk := CheckNumbers(pager.free, |pager.pages|);
    if !claimsOk || !freeOk || pins.busy {
      return false;
    }
    for i := 0 to |claims|
      invariant forall k :: 0 <= k < i && claims[k] !in pager.free ==> claims[k] !in pins.pinned
    {
      if claims[i] !in pager.free && claims[i] in pins.pinned {
        return false;
      }
    }
    return true;
  }

  lemma FreedStep(free: seq<nat>, claims: seq<nat>, raced: set<nat>, i: nat)
    requires Distinct(claims) && Distinct(free) && i < |claims|
    ensures claims[i] in free + Freed(free, claims[..i], raced) <==> claims[i] in free
    ensures Freed(free, claims[..i + 1], raced)
         == Freed(free, claims[..i], raced) + if claims[i] in free || claims[i] in raced then [] else [claims[i]]
  {
    assert claims[..i + 1][..i] == claims[..i];
    FreedElements(free, claims[..i], raced);
    assert claims[i] !in claims[..i];
    assert claims[i] in Freed(free, claims[..i], raced) <==> claims[i] in Elements(Freed(free, claims[..i], raced));
  }

  // Frees every claim that is not free yet, or nothing at all when the
  // preflight fails; reports success only if all claims ended up free.
  method ReclaimClaims(pager: Pager, claims: seq<nat>, pins: Pins) returns (ok: bool)
    requires pager.Valid()
    modifies pager`free, pager`dirty
    ensures pager.free == old(pager.free) +
      if old(Passes(pager, claims, pins)) then Freed(old(pager.free), claims, pins.raced) else []
    ensures ok <==> old(Passes(pager, claims, pins))
                    && forall c :: c in claims ==> c in old(pager.free) || c !in pins.raced
    ensures pager.dirty == old(pager.dirty) - (Elements(pager.free) - old(Elements(pager.free)))
  {
    ok := Preflight(pager, claims, pins);
    if !ok {
      return;
    }
    ghost var free := pager.free;
    var i := 0;
    while i < |claims|
      invariant 0 <= i <= |claims|
      invariant pager.free == free + Freed(free, claims[..i], pins.raced)
      invariant pager.dirty == old(pager.dirty) - (Elements(pager.free) - Elements(free))
    {
      FreedStep(free, claims, pins.raced, i);
      if claims[i] !in pager.free && claims[i] !in pins.raced {
        pager.free := pager.free + [claims[i]];
        pager.dirty := pager.dirty - {claims[i]};
      }
      i := i + 1;
    }
    assert claims[..|claims|] == claims;
    ok := forall c | c in claims :: c in pager.free;
    FreedElements(free, claims, pins.raced);
    forall c | c in claims ensures c in pager.free <==> c in free || c !in pins.raced {
      assert c in Freed(free, claims, pins.raced) <==> c in Elements(Freed(free, claims, pins.raced));
      assert c in Elements(claims);
    }
  }

  // What an empty rooted leaf left in place of a retired page-zero root looks like.
  const TOMBSTONE: Page := Page(Leaf, true, 0, [], 0, [], 0, 0)

  predicate Retired(p: Page) {
    p.kind.Leaf? && p.isRoot && p.parent == 0 && p.keys == [] && p.prev == 0 && p.next == 0
  }

  // An earlier checkpointed reclaim of the tree at `root` is recognisable.
  predicate AlreadyReclaimed(image: Image, root: nat) {
    if root == 0 then |image.pages| > 0 && Retired(image.pages[0]) else root in image.free
  }

  // Reclaiming the tree at `root` turned `before` into `after`.
  ghost predicate TreeReclaimed(before: Image, after: Image, root: nat) {
    if AlreadyReclaimed(before, root) then after == before
    else
      exists t :: IsOldTree(before.pages, before.free, root, t)
        && |before.pages| > 0
        && after.pages == (if root == 0 then before.pages[0 := TOMBSTONE] else before.pages)
        && Elements(after.free) == Elements(before.free) + (NodePages(t) - {0})
        && (FreeListOk(before) ==> FreeListOk(after))
  }

  // A successful reclaim freed exactly the claims.
  lemma ReclaimedSet(before: Image, claims: seq<nat>, raced: set<nat>)
    requires FreeListOk(before) && Numbers(claims, |before.pages|)
    requires forall c :: c in claims ==> c in before.free || c !in raced
    ensures
      var after := before.free + Freed(before.free, claims, raced);
      Elements(after) == Elements(before.free) + Elements(claims) && FreeListOk(Image(before.pages, after))
  {
    var freed := Freed(before.free, claims, raced);
    FreedElements(before.free, claims, raced);
    ElementsConcat(before.free, freed);
    forall c | c in Elements(claims) ensures c in before.free || c in Elements(freed) {
      assert c in claims;
    }
    forall f | f in before.free + freed ensures 0 < f < |before.pages| {
      assert f in before.free || f in Elements(freed);
    }
  }

  // The pages of a tree at `root` other than page zero are usable claims.
  lemma OwnedAreClaims(pages: seq<Page>, free: seq<nat>, root: nat, t: Tree, owned: seq<nat>)
    requires IsOldTree(pages, free, root, t)
    requires owned != [] && owned[0] == root && Distinct(owned) && Elements(owned) == NodePages(t)
    ensures root != 0 ==> Numbers(owned, |pages|) && Elements(owned) == NodePages(t) - {0}
    ensures root == 0 ==> Numbers(owned[1..], |pages|) && Elements(owned[1..]) == NodePages(t) - {0}
    ensures forall x :: x in owned ==> x !in free
  {
    forall i | 0 <= i < |owned| ensures owned[i] < |pages| && owned[i] !in free && (i > 0 ==> owned[i] != 0) {
      assert owned[i] in NodePages(t);
      TreeFacts(pages, free, root, t, owned[i]);
      if i > 0 {
        var s :| s in Subtrees(t) && s.page == owned[i];
        NonRootNonZero(pages, free, root, t, s);
      }
    }
    assert owned == [root] + owned[1..];
    ElementsConcat([root], owned[1..]);
    assert Elements([root]) == {root};
    assert root !in Elements(owned[1..]);
  }

  // Frees the pages below a root, if there are any.
  method FreeBelow(pager: Pager, claims: seq<nat>, pins: Pins) returns (ok: bool)
    requires pager.Valid() && Numbers(claims, |pager.pages|)
    modifies pager`free, pager`dirty
    ensures pager.Valid()
    ensures ok ==> Elements(pager.free) == old(Elements(pager.free)) + Elements(claims)
    ensures ok && FreeListOk(old(pager.Now())) ==> FreeListOk(pager.Now())
    ensures pins == NO_PINS && old(pager.inTransaction) && FreeListOk(old(pager.Now())) ==> ok
    ensures pager.dirty <= old(pager.dirty)
  {
    if claims == [] {
      assert Elements(claims) == {};
      return true;
    }
    ghost var before := pager.Now();
    ok := ReclaimClaims(pager, claims, pins);
    if ok {
      ReclaimedSet(before, claims, pins.raced);
    }
  }

  // Turns page zero into an empty rooted leaf after freeing everything below it.
  method RetirePageZeroRoot(pager: Pager, pins: Pins) returns (ok: bool)
    requires pager.Valid()
    modifies pager`pages, pager`free, pager`dirty
    ensures pager.Valid()
    ensures ok ==> TreeReclaimed(old(pager.Now()), pager.Now(), 0)
    ensures ok ==> |pager.pages| > 0 && pager.pages[0].kind == Leaf && pager.pages[0].isRoot
    ensures ok ==> pager.pages[0].keys == []
    ensures ok ==> pager.pages[0].parent == pager.pages[0].prev == pager.pages[0].next == 0
    ensures ok && pager.pages != old(pager.pages) ==> pins.canWrite && 0 in pager.dirty
    ensures !ok ==> pager.pages == old(pager.pages)
    ensures !old(pager.inTransaction) ==> !ok && pager.free == old(pager.free)
    ensures ok && !AlreadyReclaimed(old(pager.Now()), 0) ==> pins.canWrite
    ensures (pins == NO_PINS && old(pager.inTransaction) && FreeListOk(old(pager.Now()))
             && (AlreadyReclaimed(old(pager.Now()), 0) || HasOldTree(old(pager.pages), old(pager.free), 0))) ==> ok
  {
    if !pager.inTransaction || |pager.pages| == 0 {
      if HasOldTree(pager.pages, pager.free, 0) { RootInRange(pager.pages, pager.free, 0); }
      return false;
    }
    if Retired(pager.pages[0]) {
      return true;
    }
    ghost var before := pager.Now();
    if FreeListOk(before) { DistinctBelow(pager.free, |pager.pages|); }
    var owned;
    ok, owned := CollectOwnership(pager, 0, true);
    if !ok {
      return;
    }
    ghost var t :| IsOldTree(pager.pages, pager.free, 0, t);
    OwnedAreClaims(pager.pages, pager.free, 0, t, owned);
    ok := FreeBelow(pager, owned[1..], pins);
    if !ok || !pins.canWrite {
      return false;
    }
    pager.pages := pager.pages[0 := TOMBSTONE];
    pager.dirty := pager.dirty + {0};
  }

  // Reclaims the old tree, or recognises that this was done before.
  method TreeReclaim(pager: Pager, root: nat, pins: Pins) returns (ok: bool)
    requires pager.Valid()
    modifies pager`pages, pager`free, pager`dirty
    ensures pager.Valid()
    ensures ok ==> TreeReclaimed(old(pager.Now()), pager.Now(), root)
    ensures ok && root != 0 ==> root in pager.free
    ensures ok && root == 0 ==>
      |pager.pages| > 0 && pager.pages[0].kind == Leaf && pager.pages[0].isRoot && pager.pages[0].keys == []
    ensures ok && root == 0 ==> pager.pages[0].parent == pager.pages[0].prev == pager.pages[0].next == 0
    ensures !ok ==> pager.pages == old(pager.pages)
    ensures !old(pager.inTransaction) || root == INVALID_PAGE_NUM ==> !ok && pager.free == old(pager.free)
    ensures (pins == NO_PINS && old(pager.inTransaction) && FreeListOk(old(pager.Now()))
             && (AlreadyReclaimed(old(pager.Now()), root)
                 || HasOldTree(old(pager.pages), old(pager.free), root))) ==> ok
  {
    if !pager.inTransaction || root == INVALID_PAGE_NUM {
      if HasOldTree(pager.pages, pager.free, root) { RootInRange(pager.pages, pager.free, root); }
      assert root == INVALID_PAGE_NUM && FreeListOk(pager.Now()) ==> root !in pager.free;
      return false;
    }
    if root == 0 {
      ok := RetirePageZeroRoot(pager, pins);
      return;
    }
    if root in pager.free {
      return true;
    }
    ghost var before := pager.Now();
    if FreeListOk(before) { DistinctBelow(pager.free, |pager.pages|); }
    var owned;
    ok, owned := CollectOwnership(pager, root, false);
    if !ok {
      return;
    }
    ghost var t :| IsOldTree(pager.pages, pager.free, root, t);
    OwnedAreClaims(pager.pages, pager.free, root, t, owned);
    RootInRange(pager.pages, pager.free, root);
    ok := ReclaimClaims(pager, owned, pins);
    if ok {
      ReclaimedSet(before, owned, pins.raced);
      assert root in Elements(owned) && root in Elements(pager.free);
    }
  }

  lemma RootInRange(pages: seq<Page>, free: seq<nat>, root: nat)
    requires HasOldTree(pages, free, root)
    ensures root < |pages|
  {
    var t :| IsOldTree(pages, free, root, t);
    assert t in Subtrees(t) && NodeOk(pages, free, root, t);
  }

  // A root whose tree holds a row is not taken as reclaimed.
  lemma RowsAreNotReclaimed(image: Image, root: nat, t: Tree, p: nat)
    requires IsOldTree(image.pages, image.free, root, t) && p in NodePages(t)
    requires p < |image.pages| && image.pages[p].kind.Leaf? && image.pages[p].keys != []
    ensures !AlreadyReclaimed(image, root)
  {
    assert t in Subtrees(t) && NodeOk(image.pages, image.free, root, t);
    if t.kids == [] {
      assert Subtrees(t) == {t};
    }
  }

  // Whatever tree hung at the root, afterwards its pages are free, page zero holds
  // no row, and no other page was written.
  lemma ReclaimedTreeIsGone(before: Image, after: Image, root: nat, t: Tree, p: nat)
    requires TreeReclaimed(before, after, root) && IsOldTree(before.pages, before.free, root, t)
    requires p in NodePages(t)
    ensures p != 0 ==> p in after.free
    ensures p == 0 ==>
      && root == 0 && |after.pages| > 0
      && after.pages[0].kind == Leaf && after.pages[0].isRoot && after.pages[0].keys == []
      && after.pages[0].parent == after.pages[0].prev == after.pages[0].next == 0
    ensures |after.pages| == |before.pages| && after.pages[1..] == before.pages[1..]
  {
    assert t in Subtrees(t) && NodeOk(before.pages, before.free, root, t);
    TreeFacts(before.pages, before.free, root, t, p);
    var s :| s in Subtrees(t) && s.page == p;
    if s != t {
      NonRootNonZero(before.pages, before.free, root, t, s);
    }
    if AlreadyReclaimed(before, root) {
      assert t.kids == [] && Subtrees(t) == {t};
    } else {
      var u :| IsOldTree(before.pages, before.free, root, u)
        && Elements(after.free) == Elements(before.free) + (NodePages(u) - {0});
      OldTreeShape(before.pages, before.free, root, t);
      OldTreeShape(before.pages, before.free, root, u);
      ShapeUnique(before.pages, t, u);
      assert p != 0 ==> p in Elements(after.free);
    }
  }

  // A reclaimed tree is recognised as such: repeating the reclaim changes nothing.
  lemma ReclaimIsIdempotent(before: Image, after: Image, again: Image, root: nat)
    requires TreeReclaimed(before, after, root) && TreeReclaimed(after, again, root)
    ensures again == after
  {
    if !AlreadyReclaimed(before, root) {
      var t :| IsOldTree(before.pages, before.free, root, t)
        && Elements(after.free) == Elements(before.free) + (NodePages(t) - {0});
      assert t in Subtrees(t);
      assert root != 0 ==> root in Elements(after.free);
    }
  }
}
