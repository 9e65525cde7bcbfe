/** The migration manifest: the durable intent record of a tree replacement
    (src/compact_v2_migration_manifest.h:25-123). */
module Manifest {
  import opened Pages

  type u32 = x: int | 0 <= x < 0x1_0000_0000
  type u64 = x: int | 0 <= x < 0x1_0000_0000_0000_0000

  const MAX_CLAIMS: nat := 4096

  const DURABLE_UNPUBLISHED: u32 := 1
  const CATALOG_PUBLISHED: u32 := 2

  datatype Manifest = Manifest(tableId: u32, oldRoot: u32, stagedRoot: u32,
                               oldGeneration: u64, newGeneration: u64,
                               phase: u32, claims: seq<u32>)

  predicate IsValid(m: Manifest) {
    && m.tableId != 0
    && m.stagedRoot != 0
    && m.oldRoot != m.stagedRoot
    && m.oldGeneration < m.newGeneration
    && 1 <= |m.claims| <= MAX_CLAIMS
    && (m.phase == DURABLE_UNPUBLISHED || m.phase == CATALOG_PUBLISHED)
    && Distinct(m.claims)
    && 0 !in m.claims && m.oldRoot !in m.claims && m.stagedRoot in m.claims
  }

  // The nested loops of the source that decide validity.
  method CheckValid(m: Manifest) returns (ok: bool)
    ensures ok <==> IsValid(m)
  {
    if m.tableId == 0 || m.stagedRoot == 0 || m.oldRoot == m.stagedRoot
       || m.oldGeneration >= m.newGeneration || |m.claims| == 0 || |m.claims| > MAX_CLAIMS
       || (m.phase != DURABLE_UNPUBLISHED && m.phase != CATALOG_PUBLISHED) {
      return false;
    }
    var stagedRootClaimed := false;
    for i := 0 to |m.claims|
      invariant forall a, b :: 0 <= a < b < i ==> m.claims[a] != m.claims[b]
      invariant 0 !in m.claims[..i] && m.oldRoot !in m.claims[..i]
      invariant stagedRootClaimed <==> m.stagedRoot in m.claims[..i]
    {
      var page := m.claims[i];
      assert m.claims[..i + 1] == m.claims[..i] + [page];
      if page == 0 || page == m.oldRoot {
        assert page in m.claims;
        return false;
      }
      if page == m.stagedRoot {
        stagedRootClaimed := true;
      }
      for j := 0 to i
        invariant forall a :: 0 <= a < j ==> m.claims[a] != page
      {
        if page == m.claims[j] {
          return false;
        }
      }
    }
    assert m.claims[..|m.claims|] == m.claims;
    return stagedRootClaimed;
  }
}
