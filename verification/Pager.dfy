/** The pager as the migration code uses it (src/pager.c:858-1110): current page
    images and free list, one transaction snapshot, and the durable image.  A
    commit followed by a checkpoint is one durable step. */
module Pager {
  import opened Pages

  datatype Image = Image(pages: seq<Page>, free: seq<nat>)

  // Page zero and page numbers past the end never enter the free list, nothing enters it twice.
  predicate FreeListOk(image: Image) {
    && Distinct(image.free)
    && forall f :: f in image.free ==> 0 < f < |image.pages|
  }

  class Pager {
    var pages: seq<Page>
    var free: seq<nat>
    var dirty: set<nat>
    var inTransaction: bool
    var saved: Image
    var disk: Image

    ghost predicate Valid()
      reads this
    {
      |pages| <= INVALID_PAGE_NUM
    }

    function Now(): Image
      reads this
    {
      Image(pages, free)
    }

    constructor (disk: Image)
      requires |disk.pages| <= INVALID_PAGE_NUM
      ensures Valid() && Now() == disk && this.disk == disk && !inTransaction && dirty == {}
    {
      pages, free := disk.pages, disk.free;
      this.disk, saved := disk, disk;
      dirty := {};
      inTransaction := false;
    }

    // Flushes everything outside a transaction, then snapshots.
    method Begin()
      requires Valid() && !inTransaction
      modifies this
      ensures Valid() && inTransaction && dirty == {}
      ensures Now() == old(Now()) && saved == disk == old(Now())
    {
      disk := Image(pages, free);
      saved := disk;
      dirty := {};
      inTransaction := true;
    }

    method CommitAndCheckpoint()
      requires Valid()
      modifies this
      ensures Valid() && !inTransaction && dirty == {} && saved == old(saved)
      ensures Now() == old(Now()) && disk == old(Now())
    {
      dirty := {};
      inTransaction := false;
      disk := Image(pages, free);
    }

    method Rollback()
      requires Valid() && |saved.pages| <= INVALID_PAGE_NUM
      modifies this
      ensures Valid() && !inTransaction && disk == old(disk)
      ensures Now() == if old(inTransaction) then old(saved) else old(Now())
      ensures dirty == if old(inTransaction) then {} else old(dirty)
    {
      if inTransaction {
        pages, free := saved.pages, saved.free;
        dirty := {};
        inTransaction := false;
      }
    }
  }
}
