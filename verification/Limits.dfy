/** The sizes and limits of the program, derived from the layouts they follow from
    (src/table.h:76-154, src/slotted_leaf_v2.h:21-43). */
module Limits {
  import opened Pages
  import opened SlottedLeaves
  import opened Manifest
  import opened StagingGeometry
  import opened BooleanNodes
  import opened Statistics
  import opened PairStatistics
  import opened IndexPlanner
  import opened EpochCache

  // A page of 4096 bytes ends with a checksum of four.  A leaf has a header of type,
  // root flag, parent, count and two links, and cells of a key and a row of id, name
  // and address; an internal node a header of type, root flag, parent, count and right
  // child, and cells of a child and a key.
  lemma PageCapacities()
    ensures USABLE_SIZE + 4 == 4096
    ensures var (header, cell) := (1 + 1 + 4 + 4 + 4 + 4, 4 + (4 + 33 + 256));
      header + LEAF_NODE_MAX_CELLS * cell <= USABLE_SIZE < header + (LEAF_NODE_MAX_CELLS + 1) * cell
    ensures var (header, cell) := (1 + 1 + 4 + 4 + 4, 4 + 4);
      header + INTERNAL_NODE_MAX_KEYS * cell <= USABLE_SIZE < header + (INTERNAL_NODE_MAX_KEYS + 1) * cell
    ensures FANOUT == INTERNAL_NODE_MAX_KEYS + 1
  {
  }

  // A slotted page has a header of type, root flag, parent, magic number, version,
  // count, two bounds of the free space, two links and flags, and slots of a key, an
  // offset and a length.
  lemma SlottedSizes()
    ensures HEADER_SIZE == 1 + 1 + 4 + 4 + 2 + 2 + 2 + 2 + 4 + 4 + 2 && SLOT_SIZE == 4 + 2 + 2
    ensures VALUE_MAX + 1 == 256 * 256
    ensures SLOTTED_V2.version == 2
    ensures SLOTTED_V2.magic == 'T' as int + 256 * ('L' as int + 256 * ('F' as int + 256 * '2' as int))
  {
  }

  // How much of everything there may be.
  lemma Counts()
    ensures INVALID_PAGE_NUM + 1 == 0x1_0000_0000 == StagingGeometry.UINT32_MAX + 1 && MAX_TABLES == 16
    ensures MAX_CLAIMS == 4096 && DURABLE_UNPUBLISHED == 1 && CATALOG_PUBLISHED == 2
    ensures MAX_NODES == 64
    ensures SAMPLE_MAX == 33 && MCV_MAX == 16 && PAIR_MCV_MAX == 32
    ensures MAX_SOURCES == 16 && WORD == 0x1_0000_0000 * 0x1_0000_0000
    ensures EPOCH_MAX + 1 == 0x1_0000_0000 * 0x1_0000_0000
  {
  }
}
