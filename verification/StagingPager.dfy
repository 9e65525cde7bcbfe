/** Putting a built hierarchy into the database file: claim page numbers, copy the
    images to the claimed pages, and make exactly those pages durable
    (src/compact_v2_staging_pager.h:21-223, src/compact_v2_staging_durable.h:25-139). */
module StagingPager {
  import opened Pages
  import opened Trees
  import opened LeafChains
  import opened LiveGuard
  import opened Manifest
  import opened Pager
  import opened StagingGeometry
  import opened StagingTree
  import opened StagingSound
  import opened Migration

  // A page fetched past the end of the file.
  const BLANK: Page := Page(Internal, false, 0, [], 0, [], 0, 0)

  // The allocator's metadata as claiming demands it.
  predicate AllocatorOk(image: Image) {
    |image.free| <= |image.pages| && FreeListOk(image)
  }

  // Claim number `i`: from the end of the free list, then past the end of the file.
  function Claim(image: Image, i: nat): nat {
    if i < |image.free| then image.free[|image.free| - 1 - i] else |image.pages| + (i - |image.free|)
  }

  function Claims(image: Image, count: nat): (c: seq<nat>)
    ensures |c| == count
  {
    seq(count, i requires 0 <= i < count => Claim(image, i))
  }

  // The image once `count` pages have been claimed from `before`.
  predicate Claimed(before: Image, now: Image, count: nat) {
    && now.free == before.free[..if count < |before.free| then |before.free| - count else 0]
    && now.pages == before.pages + seq(if count < |before.free| then 0 else count - |before.free|, _ => BLANK)
  }

  lemma ClaimsDiffer(image: Image, i: nat, j: nat)
    requires AllocatorOk(image) && i < j
    ensures Claim(image, i) != Claim(image, j)
    ensures |image.pages| > 0 || i >= |image.free|
  {
    if i < |image.free| {
      assert Claim(image, i) in image.free;
    }
  }

  lemma ClaimsDistinct(image: Image, count: nat)
    requires AllocatorOk(image)
    ensures Distinct(Claims(image, count))
  {
    forall i, j | 0 <= i < j < count ensures Claim(image, i) != Claim(image, j) {
      ClaimsDiffer(image, i, j);
    }
  }

  // What is left on the free list is what was there minus the claims.
  lemma ClaimsLeave(before: Image, now: Image, count: nat)
    requires AllocatorOk(before) && Claimed(before, now, count)
    ensures AllocatorOk(now)
    ensures Elements(now.free) == Elements(before.free) - Elements(Claims(before, count))
    ensures forall c :: c in Claims(before, count) ==> (c in before.free || c >= |before.pages|) && c < |now.pages|
    ensures forall p :: |before.pages| <= p < |now.pages| ==> p in Claims(before, count)
  {
    var claims, n := Claims(before, count), |now.free|;
    assert now.free == before.free[..n];
    forall i | 0 <= i < count
      ensures (claims[i] in before.free || claims[i] >= |before.pages|) && claims[i] < |now.pages|
    {
      if i < |before.free| {
        assert before.free[|before.free| - 1 - i] in before.free;
      }
    }
    forall p | |before.pages| <= p < |now.pages| ensures p in claims {
      assert claims[|before.free| + (p - |before.pages|)] == p;
    }
    forall f | f in before.free ensures f in now.free <==> f !in claims {
      var k :| 0 <= k < |before.free| && before.free[k] == f;
      if k < n {
        assert now.free[k] == f;
        forall i | 0 <= i < count ensures claims[i] != f {
        }
      } else {
        assert claims[|before.free| - 1 - k] == f;
      }
    }
    assert forall f :: f in now.free ==> f in before.free;
  }

  method ClaimPages(pager: Pager, count: nat, claimed: array<nat>) returns (ok: bool)
    requires pager.Valid() && count <= claimed.Length
    modifies pager`pages, pager`free, claimed
    ensures pager.Valid()
    ensures ok <==> old(
      && count > 0 && pager.inTransaction && AllocatorOk(pager.Now())
      && |pager.pages| + (if count > |pager.free| then count - |pager.free| else 0) < INVALID_PAGE_NUM
      && (|pager.pages| > 0))
    ensures ok ==> claimed[..count] == Claims(old(pager.Now()), count) && Claimed(old(pager.Now()), pager.Now(), count)
    ensures ok && old(pager.saved == pager.Now()) ==> StagingTransaction(pager, claimed[..count])
  {
    ghost var before := pager.Now();
    if count == 0 || !pager.inTransaction || |pager.free| > |pager.pages| {
      return false;
    }
    var i := 0;
    while i < |pager.free|
      invariant 0 <= i <= |pager.free|
      invariant Distinct(pager.free[..i]) && forall f :: f in pager.free[..i] ==> 0 < f < |pager.pages|
    {
      var pageNum := pager.free[i];
      if pageNum == 0 || pageNum == INVALID_PAGE_NUM || pageNum >= |pager.pages| || pageNum in pager.free[..i] {
        RejectedFreeList(before, i);
        return false;
      }
      assert pager.free[..i + 1] == pager.free[..i] + [pageNum];
      i := i + 1;
    }
    assert pager.free[..i] == pager.free;
    var appendNeeded := if count > |pager.free| then count - |pager.free| else 0;
    if |pager.pages| + appendNeeded >= INVALID_PAGE_NUM {
      return false;
    }
    ok := TakePages(pager, count, claimed);
    if ok {
      ClaimsDistinct(before, count);
      ClaimsLeave(before, pager.Now(), count);
      ok := forall a, b :: 0 <= a < b < count ==> claimed[a] != claimed[b];
    }
  }

  lemma RejectedFreeList(image: Image, i: nat)
    requires i < |image.free|
    requires image.free[i] == 0 || image.free[i] >= |image.pages| || image.free[i] in image.free[..i]
    ensures !FreeListOk(image)
  {
    assert image.free[i] in image.free;
    if image.free[i] in image.free[..i] {
      var k :| 0 <= k < i && image.free[..i][k] == image.free[i];
      assert image.free[k] == image.free[i];
    }
  }

  // Takes the pages one by one; fetching a page past the end extends the file.
  method TakePages(pager: Pager, count: nat, claimed: array<nat>) returns (ok: bool)
    requires pager.Valid() && count <= claimed.Length && AllocatorOk(pager.Now())
    requires |pager.pages| + (if count > |pager.free| then count - |pager.free| else 0) < INVALID_PAGE_NUM
    modifies pager`pages, pager`free, claimed
    ensures pager.Valid()
    ensures ok <==> |old(pager.pages)| > 0 || count == 0
    ensures ok ==> claimed[..count] == Claims(old(pager.Now()), count) && Claimed(old(pager.Now()), pager.Now(), count)
  {
    ghost var before := pager.Now();
    var i := 0;
    while i < count
      invariant 0 <= i <= count && pager.Valid()
      invariant i > 0 ==> |before.pages| > 0
      invariant forall k :: 0 <= k < i ==> claimed[k] == Claim(before, k)
      invariant Claimed(before, pager.Now(), i)
    {
      var pageNum;
      if |pager.free| > 0 {
        pageNum := pager.free[|pager.free| - 1];
        assert pageNum in before.free;
        pager.free := pager.free[..|pager.free| - 1];
      } else {
        pageNum := |pager.pages|;
        if pageNum == 0 || pageNum == INVALID_PAGE_NUM {
          return false;
        }
        pager.pages := pager.pages + [BLANK];
      }
      assert pageNum == Claim(before, i);
      claimed[i] := pageNum;
      i := i + 1;
    }
    return true;
  }

  // The claimed numbers are distinct, usable, and exactly those of the hierarchy.
  predicate ClaimMatches(nums: seq<nat>, claims: seq<nat>, i: nat)
    requires i < |claims|
  {
    claims[i] != 0 && claims[i] != INVALID_PAGE_NUM && claims[i] !in claims[..i] && claims[i] in nums
  }

  ghost predicate ClaimsMatch(h: Staging, claims: seq<nat>) {
    && Accepted(h)
    && |claims| == |h.nums|
    && forall i :: 0 <= i < |claims| ==> ClaimMatches(h.nums, claims, i)
  }

  // Matching claims name the nodes one for one, so no two leaves share a number.
  lemma MatchingClaims(h: Staging, claims: seq<nat>)
    requires ClaimsMatch(h, claims)
    ensures Distinct(claims) && Elements(claims) == Elements(h.nums)
    ensures Good(h) && NumbersOk(h.nums)
  {
    forall i, j | 0 <= i < j < |claims| ensures claims[i] != claims[j] {
      assert ClaimMatches(h.nums, claims, j) && claims[i] in claims[..j];
    }
    forall c | c in claims ensures c in h.nums && c != 0 {
      var i :| 0 <= i < |claims| && claims[i] == c;
      assert ClaimMatches(h.nums, claims, i);
    }
    DistinctCardinality(claims);
    AtMostLength(h.nums);
    SubsetCardinality(Elements(claims), Elements(h.nums));
    AllDifferent(h.nums);
    assert forall n :: n in h.nums ==> n in Elements(claims);
    forall n | n in h.nums[..h.LeafCount()] ensures n in h.nums && n != 0 {
    }
  }

  method CheckClaimsMatch(h: Staging, claims: seq<nat>) returns (ok: bool)
    requires h.Shaped() && h.LeafCount() <= UINT32_MAX && |h.nums| <= UINT32_MAX
    ensures ok <==> ClaimsMatch(h, claims)
  {
    ok := Validate(h);
    if !ok || |claims| != |h.nums| {
      return false;
    }
    var i := 0;
    while i < |claims|
      invariant 0 <= i <= |claims|
      invariant forall k :: 0 <= k < i ==> ClaimMatches(h.nums, claims, k)
    {
      if claims[i] == 0 || claims[i] == INVALID_PAGE_NUM || claims[i] in claims[..i] || claims[i] !in h.nums {
        assert !ClaimMatches(h.nums, claims, i);
        return false;
      }
      i := i + 1;
    }
  }

  predicate Allocated(image: Image, claims: seq<nat>) {
    forall c :: c in claims ==> c < |image.pages| && c !in image.free
  }

  method CheckAllocated(pager: Pager, claims: seq<nat>) returns (ok: bool)
    ensures ok <==> Allocated(pager.Now(), claims)
  {
    var i := 0;
    while i < |claims|
      invariant 0 <= i <= |claims|
      invariant forall c :: c in claims[..i] ==> c < |pager.pages| && c !in pager.free
    {
      assert claims[i] in claims;
      if claims[i] >= |pager.pages| || claims[i] in pager.free {
        return false;
      }
      assert claims[..i + 1] == claims[..i] + [claims[i]];
      i := i + 1;
    }
    assert claims[..i] == claims;
    return true;
  }

  // The file after the first `n` nodes have been copied.
  ghost predicate Copied(before: seq<Page>, pages: seq<Page>, h: Staging, n: nat) {
    && n <= |h.nums| == |h.images| && |pages| == |before|
    && (forall id :: 0 <= id < n ==> h.nums[id] < |pages| && pages[h.nums[id]] == h.images[id])
    && (forall p :: 0 <= p < |pages| && p !in h.nums ==> pages[p] == before[p])
  }

  lemma CopyNext(before: seq<Page>, pages: seq<Page>, h: Staging, n: nat)
    requires Copied(before, pages, h, n) && n < |h.nums| && NumbersOk(h.nums) && h.nums[n] < |pages|
    ensures Copied(before, pages[h.nums[n] := h.images[n]], h, n + 1)
  {
    var num := h.nums[n];
    forall id | 0 <= id < n ensures h.nums[id] != num {
    }
    assert num in h.nums;
  }

  // Reads every page back and compares.
  method Verify(pager: Pager, h: Staging, claims: seq<nat>) returns (ok: bool)
    requires h.Shaped() && h.LeafCount() <= UINT32_MAX && |h.nums| <= UINT32_MAX
    ensures ok <==>
      pager.inTransaction && ClaimsMatch(h, claims) && Allocated(pager.Now(), claims) && Holds(pager.pages, h)
  {
    ok := CheckClaimsMatch(h, claims);
    if !pager.inTransaction || !ok {
      return false;
    }
    ok := CheckAllocated(pager, claims);
    if !ok {
      return;
    }
    MatchingClaims(h, claims);
    var id := 0;
    while id < |h.nums|
      invariant 0 <= id <= |h.nums|
      invariant forall k :: 0 <= k < id ==> h.nums[k] < |pager.pages| && pager.pages[h.nums[k]] == h.images[k]
    {
      assert h.nums[id] in Elements(claims);
      if pager.pages[h.nums[id]] != h.images[id] {
        return false;
      }
      id := id + 1;
    }
  }

  method CopyNodes(pager: Pager, h: Staging)
    requires pager.Valid() && |h.nums| == |h.images| && NumbersOk(h.nums)
    requires forall n :: n in h.nums ==> n < |pager.pages|
    modifies pager`pages, pager`dirty
    ensures pager.Valid() && Copied(old(pager.pages), pager.pages, h, |h.nums|)
    ensures pager.dirty == old(pager.dirty) + Elements(h.nums)
  {
    ghost var before, wasDirty := pager.pages, pager.dirty;
    var id := 0;
    while id < |h.nums|
      invariant 0 <= id <= |h.nums| && pager.Valid()
      invariant Copied(before, pager.pages, h, id)
      invariant pager.dirty == wasDirty + Elements(h.nums[..id])
    {
      assert h.nums[id] in h.nums;
      CopyNext(before, pager.pages, h, id);
      assert h.nums[..id + 1] == h.nums[..id] + [h.nums[id]];
      pager.pages := pager.pages[h.nums[id] := h.images[id]];
      pager.dirty := pager.dirty + {h.nums[id]};
      id := id + 1;
    }
    assert h.nums[..id] == h.nums;
  }

  // Copies the nodes to their pages; nothing is written unless every check
  // passes first, and the read-back cannot fail.
  method Materialize(pager: Pager, h: Staging, claims: seq<nat>) returns (ok: bool, stagedRoot: nat)
    requires pager.Valid() && h.Shaped() && h.LeafCount() <= UINT32_MAX && |h.nums| <= UINT32_MAX
    modifies pager`pages, pager`dirty
    ensures pager.Valid()
    ensures ok <==> old(pager.inTransaction) && ClaimsMatch(h, claims) && Allocated(old(pager.Now()), claims)
    ensures ok ==> Good(h) && Copied(old(pager.pages), pager.pages, h, |h.nums|)
    ensures ok ==> pager.dirty == old(pager.dirty) + Elements(claims) && stagedRoot == h.root
    ensures old(StagingTransaction(pager, claims)) ==> StagingTransaction(pager, claims)
    ensures !ok ==> pager.pages == old(pager.pages) && pager.dirty == old(pager.dirty) && stagedRoot == 0
  {
    stagedRoot := 0;
    ok := CheckClaimsMatch(h, claims);
    if !pager.inTransaction || !ok {
      return false, 0;
    }
    ok := CheckAllocated(pager, claims);
    if !ok {
      return;
    }
    MatchingClaims(h, claims);
    ghost var before := pager.pages;
    assert forall n :: n in h.nums ==> n in Elements(claims);
    CopyNodes(pager, h);
    CopyStaysInTransaction(before, pager.pages, h, claims);
    ok := Verify(pager, h, claims);
    stagedRoot := h.root;
  }

  lemma CopyStaysInTransaction(before: seq<Page>, after: seq<Page>, h: Staging, claims: seq<nat>)
    requires ClaimsMatch(h, claims) && Copied(before, after, h, |h.nums|)
    ensures |after| == |before| && forall p :: 0 <= p < |before| && p !in Elements(claims) ==> after[p] == before[p]
  {
    MatchingClaims(h, claims);
    forall p | 0 <= p < |before| && p !in Elements(claims) ensures after[p] == before[p] {
      assert p !in Elements(h.nums);
    }
  }

  // Every claim is dirty and nothing else is.
  ghost predicate DirtyExactly(pager: Pager, claims: seq<nat>)
    reads pager
  {
    && claims != [] && pager.inTransaction
    && Distinct(claims)
    && (forall c :: c in claims ==> 0 < c < |pager.pages| && c in pager.dirty)
    && (forall p :: 0 <= p < |pager.pages| && p in pager.dirty ==> p in claims)
  }

  method DirtySetIsExact(pager: Pager, claims: seq<nat>) returns (ok: bool)
    requires pager.Valid()
    ensures ok <==> DirtyExactly(pager, claims)
  {
    if |claims| == 0 || !pager.inTransaction {
      return false;
    }
    var i := 0;
    while i < |claims|
      invariant 0 <= i <= |claims|
      invariant Distinct(claims[..i]) && forall c :: c in claims[..i] ==> 0 < c < |pager.pages| && c in pager.dirty
    {
      var pageNum := claims[i];
      assert pageNum in claims;
      if pageNum == 0 || pageNum == INVALID_PAGE_NUM || pageNum >= |pager.pages|
         || pageNum !in pager.dirty || pageNum in claims[..i] {
        if pageNum in claims[..i] {
          var k :| 0 <= k < i && claims[..i][k] == pageNum;
          assert claims[k] == claims[i];
        }
        return false;
      }
      assert claims[..i + 1] == claims[..i] + [pageNum];
      i := i + 1;
    }
    assert claims[..i] == claims;
    var p := 0;
    while p < |pager.pages|
      invariant 0 <= p <= |pager.pages|
      invariant forall x :: 0 <= x < p && x in pager.dirty ==> x in claims
    {
      if p in pager.dirty && p !in claims {
        return false;
      }
      p := p + 1;
    }
    return true;
  }

  // A transaction that claimed `claims` and marked whatever it wrote.
  ghost predicate StagingTransaction(pager: Pager, claims: seq<nat>)
    reads pager
  {
    && |pager.saved.pages| <= |pager.pages| < INVALID_PAGE_NUM
    && AllocatorOk(pager.saved) && AllocatorOk(pager.Now())
    && Elements(pager.free) == Elements(pager.saved.free) - Elements(claims)
    && (forall c :: c in claims ==> c in pager.saved.free || c >= |pager.saved.pages|)
    && (forall p :: |pager.saved.pages| <= p < |pager.pages| ==> p in claims)
    && (forall p :: 0 <= p < |pager.saved.pages| && p !in pager.dirty ==> pager.pages[p] == pager.saved.pages[p])
  }

  // What is made durable is a staged image in the sense of the protocol.
  lemma DurableIsStaged(before: Image, after: Image, h: Staging, claims: seq<u32>)
    requires ClaimsMatch(h, claims) && Holds(after.pages, h) && Allocated(after, claims)
    requires |before.pages| <= |after.pages| && FreeListOk(after)
    requires Elements(after.free) == Elements(before.free) - Elements(claims)
    requires forall c :: c in claims ==> c in before.free || c >= |before.pages|
    requires forall p :: |before.pages| <= p < |after.pages| ==> p in claims
    requires forall p :: 0 <= p < |before.pages| && p !in claims ==> after.pages[p] == before.pages[p]
    ensures StagedImage(before, after, claims, h.root)
  {
    MatchingClaims(h, claims);
    forall p | p in h.nums ensures p !in after.free {
      assert p in Elements(h.nums) && p in Elements(claims);
    }
    AcceptedIsLive(after.pages, after.free, {}, h);
  }

  // Commits and checkpoints only if the transaction is this staged tree and
  // nothing else; what then is on disk is what recovery and catalog
  // publication build on.
  method MakeDurable(pager: Pager, h: Staging, claims: seq<u32>) returns (ok: bool, durableRoot: nat)
    requires pager.Valid() && h.Shaped() && h.LeafCount() <= UINT32_MAX && |h.nums| <= UINT32_MAX
    requires StagingTransaction(pager, claims)
    modifies pager
    ensures pager.Valid()
    ensures ok <==> old(
      && pager.inTransaction && ClaimsMatch(h, claims) && Allocated(pager.Now(), claims)
      && Holds(pager.pages, h) && DirtyExactly(pager, claims))
    ensures ok ==> StagedImage(old(pager.saved), pager.disk, claims, h.root)
    ensures ok ==> durableRoot == h.root && !pager.inTransaction && pager.disk == pager.Now() == old(pager.Now())
    ensures !ok ==> durableRoot == 0 && pager.disk == old(pager.disk) && pager.Now() == old(pager.Now())
  {
    durableRoot := 0;
    ok := Verify(pager, h, claims);
    if !ok {
      return;
    }
    ok := DirtySetIsExact(pager, claims);
    if !ok {
      return;
    }
    DurableIsStaged(pager.saved, pager.Now(), h, claims);
    pager.CommitAndCheckpoint();
    var i := 0;
    while i < |claims|
      invariant 0 <= i <= |claims|
    {
      assert claims[i] in claims;
      if claims[i] >= |pager.pages| || claims[i] in pager.dirty {
        ok := false;
        return;
      }
      i := i + 1;
    }
    durableRoot := h.root;
  }
}
