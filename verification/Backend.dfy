/** The in-memory backend (include/memory/InMemoryBackend.h) and the pool's bump allocator
    (util/CacheAllocator.h). */
module Backend {
  import opened Types
  import opened CacheState

  /** The pages from offset start up to offset stop. */
  ghost function Span(blocks: seq<Page>, start: nat, stop: nat): (m: map<GlobalAddress, Page>)
    requires stop <= |blocks| * PAGE_SIZE && stop % PAGE_SIZE == 0
    ensures forall a :: a in m <==> a.nodeID == 0 && a.offset % PAGE_SIZE == 0 && start <= a.offset < stop
    ensures forall a | a in m :: a.offset / PAGE_SIZE < |blocks| && m[a] == blocks[a.offset / PAGE_SIZE]
  {
    map o: nat | start <= o < stop && o % PAGE_SIZE == 0 :: GlobalAddress(0, o) := blocks[o / PAGE_SIZE]
  }

  /** disk has exactly the page-aligned addresses from PAGE_SIZE up to stop. */
  ghost predicate DiskIs(blocks: seq<Page>, disk: map<GlobalAddress, Page>, stop: nat) {
    && (forall a :: a in disk <==> a.nodeID == 0 && a.offset % PAGE_SIZE == 0 && PAGE_SIZE <= a.offset < stop)
    && (forall a | a in disk :: a.offset / PAGE_SIZE < |blocks| && disk[a] == blocks[a.offset / PAGE_SIZE])
  }

  lemma DiskGrows(blocks: seq<Page>, disk: map<GlobalAddress, Page>, start: nat, stop: nat)
    requires DiskIs(blocks, disk, start) && PAGE_SIZE <= start <= stop <= |blocks| * PAGE_SIZE
    requires start % PAGE_SIZE == 0 && stop % PAGE_SIZE == 0
    ensures DiskIs(blocks, disk + Span(blocks, start, stop), stop)
    ensures GlobalAddress(0, start) !in disk
  {
  }

  /** What a write at page-aligned offset o, allocated or not, makes of the store. */
  ghost function AfterWrite(disk: map<GlobalAddress, Page>, o: nat, page: Page): map<GlobalAddress, Page> {
    if GlobalAddress(0, o) in disk then disk[GlobalAddress(0, o) := page] else disk
  }

  lemma DiskWritten(blocks: seq<Page>, disk: map<GlobalAddress, Page>, stop: nat, o: nat, page: Page)
    requires DiskIs(blocks, disk, stop) && o % PAGE_SIZE == 0 && o / PAGE_SIZE < |blocks|
    ensures DiskIs(blocks[o / PAGE_SIZE := page], AfterWrite(disk, o, page), stop)
    ensures o < stop && stop % PAGE_SIZE == 0 && BlankFrom(blocks, stop) ==>
            BlankFrom(blocks[o / PAGE_SIZE := page], stop)
  {
    forall x | x in disk && x != GlobalAddress(0, o) ensures x.offset / PAGE_SIZE != o / PAGE_SIZE {
      if x.offset / PAGE_SIZE == o / PAGE_SIZE {
        PageStart(o, x.offset);
      }
    }
  }

  /** Sizes are rounded up to whole pages. */
  function Rounded(size: nat): nat {
    (size + PAGE_SIZE - 1) / PAGE_SIZE * PAGE_SIZE
  }

  lemma RoundedIs(size: nat)
    ensures Rounded(size) % PAGE_SIZE == 0 && size <= Rounded(size) < size + PAGE_SIZE
    ensures size == PAGE_SIZE ==> Rounded(size) == size
  {
  }

  ghost predicate BlankFrom(blocks: seq<Page>, start: nat) {
    forall i | start / PAGE_SIZE <= i < |blocks| :: blocks[i] == BLANK
  }

  lemma PagesAdd(blocks: seq<Page>, x: nat, y: nat)
    requires x % PAGE_SIZE == 0 && y % PAGE_SIZE == 0
    ensures (x + y) % PAGE_SIZE == 0
    ensures BlankFrom(blocks, x) ==> BlankFrom(blocks, x + y)
  {
    assert x / PAGE_SIZE <= (x + y) / PAGE_SIZE;
  }

  /** A single new page is blank. */
  lemma OnePage(blocks: seq<Page>, disk: map<GlobalAddress, Page>, start: nat)
    requires start % PAGE_SIZE == 0 && start + PAGE_SIZE <= |blocks| * PAGE_SIZE && BlankFrom(blocks, start)
    ensures disk + Span(blocks, start, start + PAGE_SIZE) == disk[GlobalAddress(0, start) := BLANK]
  {
    var m := Span(blocks, start, start + PAGE_SIZE);
    forall a | a in m ensures a == GlobalAddress(0, start) {
      assert a.offset / PAGE_SIZE == start / PAGE_SIZE;
      PageStart(start, a.offset);
    }
    assert GlobalAddress(0, start) in m;
  }

  /** A whole number of pages follows those already handed out. */
  lemma AllocStep(blocks: seq<Page>, disk: map<GlobalAddress, Page>, start: nat, rounded: nat)
    requires DiskIs(blocks, disk, start) && rounded % PAGE_SIZE == 0
    requires PAGE_SIZE <= start && start % PAGE_SIZE == 0 && start + rounded <= |blocks| * PAGE_SIZE
    ensures var stop := start + rounded;
            && stop % PAGE_SIZE == 0
            && DiskIs(blocks, disk + Span(blocks, start, stop), stop)
            && (BlankFrom(blocks, start) ==> BlankFrom(blocks, stop))
            && GlobalAddress(0, start) !in disk
  {
    PagesAdd(blocks, start, rounded);
    DiskGrows(blocks, disk, start, start + rounded);
  }

  lemma PageStart(start: nat, o: nat)
    requires start % PAGE_SIZE == 0 && o % PAGE_SIZE == 0 && start / PAGE_SIZE == o / PAGE_SIZE
    ensures o == start
  {
  }

  /** The backend store, one array element per PAGE_SIZE block. */
  class InMemoryBackend {
    const capacityBytes: nat
    const store: array<Page>
    var curOffset: nat
    ghost var disk: map<GlobalAddress, Page>  // what the allocated addresses hold

    ghost predicate Valid()
      reads this, store
    {
      && capacityBytes == store.Length * PAGE_SIZE
      && curOffset % PAGE_SIZE == 0 && PAGE_SIZE <= curOffset
      && (curOffset <= capacityBytes || curOffset == PAGE_SIZE)
      && DiskIs(store[..], disk, curOffset)
    }

    /** Nothing beyond the allocated part has been written. */
    ghost predicate Unwritten()
      reads this, store
    {
      BlankFrom(store[..], curOffset)
    }

    constructor (pageNums: nat)
      ensures Valid() && Unwritten() && disk == map[] && capacityBytes == pageNums * PAGE_SIZE && fresh(store)
      ensures curOffset == PAGE_SIZE
    {
      capacityBytes := pageNums * PAGE_SIZE;
      curOffset := PAGE_SIZE;
      store := new Page[pageNums](_ => BLANK);
      disk := map[];
    }

    /** Fails exactly when the block would reach past the end of the store; the memory node of the
        address is not looked at. */
    method Read(a: GlobalAddress) returns (page: Option<Page>)
      requires Valid() && a.offset % PAGE_SIZE == 0
      ensures page.None? <==> a.offset + PAGE_SIZE > capacityBytes
      ensures page.Some? ==> page.value == store[a.offset / PAGE_SIZE]
      ensures GlobalAddress(0, a.offset) in disk ==> page == Some(disk[GlobalAddress(0, a.offset)])
    {
      if a.offset + PAGE_SIZE > capacityBytes {
        return None;
      }
      page := Some(store[a.offset / PAGE_SIZE]);
    }

    /** One block changes, whether it was allocated or not; what was written is what later reads return. */
    method Write(a: GlobalAddress, page: Page) returns (ok: bool)
      requires Valid() && a.offset % PAGE_SIZE == 0
      modifies this`disk, store
      ensures Valid() && (old(Unwritten()) && a.offset < curOffset ==> Unwritten())
      ensures ok <==> a.offset + PAGE_SIZE <= capacityBytes
      ensures store[..] == if ok then old(store[..])[a.offset / PAGE_SIZE := page] else old(store[..])
      ensures disk == if ok then AfterWrite(old(disk), a.offset, page) else old(disk)
    {
      if a.offset + PAGE_SIZE > capacityBytes {
        return false;
      }
      DiskWritten(store[..], disk, curOffset, a.offset, page);
      store[a.offset / PAGE_SIZE] := page;
      disk := AfterWrite(disk, a.offset, page);
      assert store[..] == old(store[..])[a.offset / PAGE_SIZE := page];
      return true;
    }

    /** Hands out whole pages, each address once; NULL when the store is used up. */
    method Alloc(size: nat) returns (a: GlobalAddress)
      requires Valid()
      modifies this
      ensures Valid() && (old(Unwritten()) ==> Unwritten())
      ensures if old(curOffset) + Rounded(size) > capacityBytes
              then a == NULL && curOffset == old(curOffset) && disk == old(disk)
              else a == GlobalAddress(0, old(curOffset)) && curOffset == old(curOffset) + Rounded(size)
                   && a !in old(disk)
                   && disk == old(disk) + Span(store[..], old(curOffset), curOffset)
      ensures old(Unwritten()) && a != NULL && size == PAGE_SIZE ==> disk == old(disk)[a := BLANK]
    {
      hide Rounded;
      hide BlankFrom;
      hide Span;
      hide DiskIs;
      var rounded := Rounded(size);
      if curOffset + rounded > capacityBytes {
        return NULL;
      }
      ghost var blocks, start := store[..], curOffset;
      RoundedIs(size);
      AllocStep(blocks, disk, start, rounded);
      if size == PAGE_SIZE && Unwritten() { OnePage(blocks, disk, start); }
      a := GlobalAddress(0, curOffset);
      curOffset := curOffset + rounded;
      disk := disk + Span(blocks, start, curOffset);
      assert store[..] == blocks;
    }
  }

  /** Hands out the pool's frames in order, each once, and flags the last one. */
  class CacheAllocator {
    const pageNum: nat
    var headIdx: nat

    ghost predicate Valid()
      reads this
    {
      headIdx <= pageNum
    }

    constructor (pageNum: nat)
      ensures Valid() && this.pageNum == pageNum && headIdx == 0
    {
      this.pageNum := pageNum;
      headIdx := 0;
    }

    method Allocate() returns (page: Option<FrameId>, last: bool)
      requires Valid()
      modifies this
      ensures Valid()
      ensures page == if old(headIdx) < pageNum then Some(old(headIdx)) else None
      ensures headIdx == if old(headIdx) < pageNum then old(headIdx) + 1 else old(headIdx)
      ensures last <==> page.Some? && headIdx == pageNum
    {
      if headIdx >= pageNum {
        return None, false;
      }
      var curIdx := headIdx;
      headIdx := headIdx + 1;
      return Some(curIdx), curIdx == pageNum - 1;
    }
  }
}
