/**
 * The index file handle's page allocator (IXFileHandle in ix/ix.cc): page
 * reads and writes against the file, page appends, the in-memory page cache
 * and the set of free page ids that deleted nodes leave behind.
 *
 * The file itself is a map from page number to the 4096 bytes stored for
 * it; a page whose bytes were never written is absent from the map.
 */
module IxFile {
  import opened Types
  import opened Wrappers

  /**
   * `IXFileManager::getPos` as written (ix/ix.h): the byte position of page
   * `n`, computed as `(n + 1) * PAGE_SIZE` in 32-bit `unsigned` arithmetic
   * before it is widened to `size_t`.
   */
  function GetPos32(n: u32): (r: u32)
    ensures r % PAGE_SIZE == 0
    ensures n + 1 < TWO_32 / PAGE_SIZE ==> r == (n + 1) * PAGE_SIZE
  {
    Wrap32((n + 1) * PAGE_SIZE)
  }

  /** The last page number whose position the 32-bit product still represents. */
  const LAST_SAFE_PAGE: u32 := TWO_32 / PAGE_SIZE - 2

  /**
   * Page `0xFFFFF` is placed at byte 0, on top of the header page that holds
   * the counters, and page `0x100000` lands on page 0.
   */
  lemma GetPos32WrapsOntoHeader()
    ensures GetPos32(LAST_SAFE_PAGE + 1) == 0
    ensures GetPos32(LAST_SAFE_PAGE + 2) == GetPos32(0)
  {
  }

  /** `getPos` computed in `size_t`, as its return type intends. */
  function GetPos(n: u32): u64
  {
    (n + 1) * PAGE_SIZE
  }

  /** Up to page `LAST_SAFE_PAGE` both computations agree. */
  lemma GetPosAgreesBelowWrap(n: u32)
    requires n <= LAST_SAFE_PAGE
    ensures GetPos32(n) == GetPos(n)
  {
  }

  /**
   * Every page region lies past the header page and is page-aligned, and the
   * regions of two different pages do not overlap.
   */
  lemma GetPosRegionsDisjoint(m: u32, n: u32)
    requires m != n
    ensures GetPos(n) >= PAGE_SIZE && GetPos(n) % PAGE_SIZE == 0
    ensures GetPos(m) + PAGE_SIZE <= GetPos(n) || GetPos(n) + PAGE_SIZE <= GetPos(m)
  {
    if m < n {
      assert GetPos(n) - GetPos(m) == (n - m) * PAGE_SIZE;
    } else {
      assert GetPos(m) - GetPos(n) == (m - n) * PAGE_SIZE;
    }
  }

  /** The contents of a `char *` page buffer. */
  datatype Buffer = Null | Uninitialised | Bytes(bytes: seq<byte>)

  /** A cached page (IXPage): its id, its buffer and its dirty flag. */
  class IxPage {
    const pid: u32
    var data: Buffer
    var modified: bool

    /** `IXPage(page_id)`: no buffer yet, not modified. */
    constructor(pageId: u32)
      ensures pid == pageId && data == Null && !modified
    {
      pid := pageId;
      data := Null;
      modified := false;
    }
  }

  /** What an index file holds on disk: the header counters, the free page list after the last page, and the pages. */
  datatype IxImage = IxImage(readCount: u32, writeCount: u32, appendCount: u32,
                             freeList: seq<i32>, blocks: map<u32, seq<byte>>)

  class IXFileHandle {
    var readPageCounter: u32
    var writePageCounter: u32
    var appendPageCounter: u32
    var isOpen: bool
    var metaModified: bool
    var freePages: set<i32>
    var pages: map<i32, IxPage>
    /** The pages of the open file. */
    var disk: map<u32, seq<byte>>

    /** The id of every cached page object is the one it is cached under. */
    ghost predicate Valid()
      reads this, pages.Values
    {
      forall pid | pid in pages :: pages[pid].pid == Wrap32(pid)
    }

    /** `IXFileHandle()`: zero counters, no file open. */
    constructor()
      ensures Valid()
      ensures readPageCounter == 0 && writePageCounter == 0 && appendPageCounter == 0
      ensures !isOpen && freePages == {} && pages == map[] && disk == map[]
    {
      readPageCounter := 0;
      writePageCounter := 0;
      appendPageCounter := 0;
      isOpen := false;
      metaModified := false;
      freePages := {};
      pages := map[];
      disk := map[];
    }

    /**
     * `openFile`: `image` is the named file, None when it does not exist,
     * and `streamGood` tells whether the stream opened. On success the
     * counters and the free page list are loaded from the image and the
     * page cache is emptied.
     */
    method OpenFile(image: Option<IxImage>, streamGood: bool) returns (rc: int)
      modifies this
      ensures image.None? || old(isOpen) || !streamGood ==> rc == -1 && unchanged(this)
      ensures image.Some? && !old(isOpen) && streamGood ==>
        rc == 0 && isOpen && !metaModified && Valid() &&
        readPageCounter == image.value.readCount && writePageCounter == image.value.writeCount &&
        appendPageCounter == image.value.appendCount &&
        freePages == (set i | 0 <= i < |image.value.freeList| :: image.value.freeList[i]) &&
        pages == map[] && disk == image.value.blocks
    {
      if image.None? || isOpen || !streamGood {
        return -1;
      }
      metaModified := false;
      pages := map[];
      readPageCounter := image.value.readCount;
      writePageCounter := image.value.writeCount;
      appendPageCounter := image.value.appendCount;
      disk := image.value.blocks;
      isOpen := true;
      var list := image.value.freeList;
      var loaded := {};
      var i := 0;
      while i < |list|
        invariant 0 <= i <= |list|
        invariant loaded == set j | 0 <= j < i :: list[j]
      {
        loaded := loaded + {list[i]};
        i := i + 1;
      }
      freePages := loaded;
      rc := 0;
    }

    /** `collectCounterValues`: the three counters, returning 0. */
    method CollectCounterValues() returns (rc: int, readCount: u32, writeCount: u32, appendCount: u32)
      ensures rc == 0
      ensures readCount == readPageCounter && writeCount == writePageCounter && appendCount == appendPageCounter
    {
      return 0, readPageCounter, writePageCounter, appendPageCounter;
    }

    /** `getNumberOfPages`: the append counter. */
    function GetNumberOfPages(): (n: u32)
      reads this
      ensures n == appendPageCounter
    {
      appendPageCounter
    }

    /**
     * `readPage`: fails with -1 for a page number past the page count or a
     * closed file; otherwise counts one read and yields the page's bytes
     * (indeterminate for a page never written).
     */
    method ReadPage(pageNum: u32) returns (rc: int, data: Buffer)
      modifies this
      ensures pageNum >= old(appendPageCounter) || !old(isOpen) ==> rc == -1 && unchanged(this)
      ensures pageNum < old(appendPageCounter) && old(isOpen) ==>
        rc == 0 && readPageCounter == Wrap32(old(readPageCounter) + 1) &&
        data == (if pageNum in disk then Bytes(disk[pageNum]) else Uninitialised)
      ensures writePageCounter == old(writePageCounter) && appendPageCounter == old(appendPageCounter)
      ensures isOpen == old(isOpen) && metaModified == old(metaModified) && freePages == old(freePages)
      ensures pages == old(pages) && disk == old(disk)
    {
      if pageNum >= GetNumberOfPages() || !isOpen {
        return -1, Null;
      }
      data := if pageNum in disk then Bytes(disk[pageNum]) else Uninitialised;
      readPageCounter := Wrap32(readPageCounter + 1);
      rc := 0;
    }

    /**
     * `writePage`: fails with -1 for a page number past the page count or a
     * closed file; otherwise stores the page, marks the metadata modified
     * and counts one write.
     */
    method WritePage(pageNum: u32, data: seq<byte>) returns (rc: int)
      requires |data| == PAGE_SIZE
      modifies this
      ensures pageNum >= old(appendPageCounter) || !old(isOpen) ==> rc == -1 && unchanged(this)
      ensures pageNum < old(appendPageCounter) && old(isOpen) ==>
        rc == 0 && metaModified && disk == old(disk)[pageNum := data] &&
        writePageCounter == Wrap32(old(writePageCounter) + 1)
      ensures readPageCounter == old(readPageCounter) && appendPageCounter == old(appendPageCounter)
      ensures isOpen == old(isOpen) && freePages == old(freePages) && pages == old(pages)
    {
      if pageNum >= GetNumberOfPages() || !isOpen {
        return -1;
      }
      metaModified := true;
      disk := disk[pageNum := data];
      writePageCounter := Wrap32(writePageCounter + 1);
      rc := 0;
    }

    /**
     * `appendPage`: fails with (-1, null) on a closed file. Otherwise writes
     * an uninitialised page at the end, caches a fresh page object whose id
     * is the old page count, and counts one append.
     */
    method AppendPage() returns (rc: int, page: IxPage?)
      requires Valid()
      modifies this
      ensures Valid()
      ensures !old(isOpen) ==> rc == -1 && page == null && unchanged(this)
      ensures old(isOpen) ==>
        rc == 0 && page != null && fresh(page) && page.pid == old(appendPageCounter) &&
        page.data == Null && !page.modified &&
        appendPageCounter == Wrap32(old(appendPageCounter) + 1) && metaModified &&
        pages == old(pages)[ToI32(old(appendPageCounter)) := page] &&
        disk == old(disk) - {old(appendPageCounter)}
      ensures readPageCounter == old(readPageCounter) && writePageCounter == old(writePageCounter)
      ensures isOpen == old(isOpen) && freePages == old(freePages)
    {
      if !isOpen {
        return -1, null;
      }
      metaModified := true;
      disk := disk - {appendPageCounter};
      page := new IxPage(appendPageCounter);
      appendPageCounter := Wrap32(appendPageCounter + 1);
      assert Wrap32(ToI32(page.pid)) == page.pid;
      pages := pages[ToI32(page.pid) := page];
      rc := 0;
    }

    /**
     * `getPage`: fails with (-1, null) when `pid`, read as `unsigned`, is
     * past the page count. Otherwise returns the cached page, first loading
     * it into a fresh page object when it is not cached.
     */
    method GetPage(pid: i32) returns (rc: int, page: IxPage?)
      requires Valid()
      modifies this
      ensures Valid()
      ensures Wrap32(pid) >= old(appendPageCounter) ==> rc == -1 && page == null && unchanged(this)
      ensures Wrap32(pid) < old(appendPageCounter) ==>
        rc == 0 && pid in pages && page == pages[pid] && page.pid == Wrap32(pid)
      ensures Wrap32(pid) < old(appendPageCounter) && pid in old(pages) ==>
        page == old(pages)[pid] && unchanged(this)
      ensures Wrap32(pid) < old(appendPageCounter) && pid !in old(pages) ==>
        fresh(page) && pages == old(pages)[pid := page] && !page.modified &&
        page.data == (if old(isOpen) && Wrap32(pid) in disk then Bytes(disk[Wrap32(pid)]) else Uninitialised) &&
        readPageCounter == (if old(isOpen) then Wrap32(old(readPageCounter) + 1) else old(readPageCounter))
      ensures writePageCounter == old(writePageCounter) && appendPageCounter == old(appendPageCounter)
      ensures isOpen == old(isOpen) && metaModified == old(metaModified) && freePages == old(freePages)
      ensures disk == old(disk)
    {
      if Wrap32(pid) >= GetNumberOfPages() {
        return -1, null;
      }
      if pid !in pages {
        var cur := new IxPage(Wrap32(pid));
        cur.data := Uninitialised;
        var r, bytes := ReadPage(Wrap32(pid));
        if r == 0 {
          cur.data := bytes;
        }
        pages := pages[pid := cur];
      }
      return 0, pages[pid];
    }

    /**
     * `requestNewPage`: appends a page when no page is free; otherwise takes
     * some free id out of the free set (even if loading it then fails) and
     * loads that page.
     */
    method RequestNewPage() returns (rc: int, page: IxPage?)
      requires Valid()
      modifies this
      ensures Valid()
      ensures old(freePages) == {} ==>
        freePages == {} &&
        (rc == 0 <==> old(isOpen)) &&
        (rc == 0 ==> page != null && fresh(page) && page.pid == old(appendPageCounter) &&
                     appendPageCounter == Wrap32(old(appendPageCounter) + 1)) &&
        (rc != 0 ==> page == null && unchanged(this))
      ensures old(freePages) != {} ==>
        exists pid :: pid in old(freePages) && freePages == old(freePages) - {pid} &&
          appendPageCounter == old(appendPageCounter) &&
          (rc == 0 <==> Wrap32(pid) < old(appendPageCounter)) &&
          (rc == 0 ==> pid in pages && page == pages[pid] && page.pid == Wrap32(pid)) &&
          (rc != 0 ==> page == null && pages == old(pages) && readPageCounter == old(readPageCounter)) &&
          (rc == 0 && pid in old(pages) ==> page == old(pages)[pid] && pages == old(pages) && readPageCounter == old(readPageCounter)) &&
          (rc == 0 && pid !in old(pages) ==>
            fresh(page) && pages == old(pages)[pid := page] && !page.modified &&
            page.data == (if old(isOpen) && Wrap32(pid) in disk then Bytes(disk[Wrap32(pid)]) else Uninitialised) &&
            readPageCounter == (if old(isOpen) then Wrap32(old(readPageCounter) + 1) else old(readPageCounter)))
      ensures old(freePages) != {} ==>
        writePageCounter == old(writePageCounter) && isOpen == old(isOpen) &&
        metaModified == old(metaModified) && disk == old(disk)
    {
      if freePages == {} {
        rc, page := AppendPage();
      } else {
        var freePid :| freePid in freePages;
        freePages := freePages - {freePid};
        rc, page := GetPage(freePid);
      }
    }

    /**
     * `releasePage`: -1 when the page's id (read as `int`) is already free;
     * otherwise clears the page's dirty flag and adds its id to the free set.
     */
    method ReleasePage(page: IxPage) returns (rc: int)
      modifies this, page
      ensures ToI32(page.pid) in old(freePages) ==> rc == -1 && unchanged(this, page)
      ensures ToI32(page.pid) !in old(freePages) ==>
        rc == 0 && !page.modified && freePages == old(freePages) + {ToI32(page.pid)}
      ensures page.data == old(page.data)
      ensures readPageCounter == old(readPageCounter) && writePageCounter == old(writePageCounter)
      ensures appendPageCounter == old(appendPageCounter) && isOpen == old(isOpen)
      ensures metaModified == old(metaModified) && pages == old(pages) && disk == old(disk)
    {
      if ToI32(page.pid) in freePages {
        return -1;
      }
      page.modified := false;
      freePages := freePages + {ToI32(page.pid)};
      rc := 0;
    }
  }

  /**
   * A page released into an otherwise empty free set is the one the next
   * request hands out again, without growing the file.
   */
  method ReleasedPageIsReused(fh: IXFileHandle, page: IxPage) returns (again: IxPage?)
    requires fh.Valid() && fh.freePages == {}
    requires page.pid < fh.appendPageCounter && page.pid < TWO_31
    modifies fh, page
    ensures fh.Valid()
    ensures again != null && again.pid == page.pid
    ensures fh.freePages == {} && fh.appendPageCounter == old(fh.appendPageCounter)
  {
    var rc := fh.ReleasePage(page);
    assert fh.freePages == {ToI32(page.pid)};
    rc, again := fh.RequestNewPage();
  }
}
