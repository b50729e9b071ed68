/**
 * The slotted record page of the record-based file manager (the Page class
 * of rbf/rbfm.h with the member functions defined in rbf/page.cc): record
 * bytes grow from the start of a 4096-byte buffer, a table of record sizes
 * sits at the end of the page with the slot count in its last `int`, and in
 * memory each slot holds its record's offset, -1 for a deleted slot.
 */
module RecordPage {
  import opened Wrappers
  import opened Types
  import PagedFile

  /** The largest page id a directory word can hold (20 bits). */
  const MAX_PID: u32 := 0xf_ffff

  /** The number of distinct in-page offsets a directory word can hold (12 bits). */
  const OFFSET_SPAN: int := 0x1000

  /** The offset a deleted slot holds. */
  const DELETED: int := -1

  // ---------------------------------------------------------------------
  // Slot directory words (rbf/rbfm.h:164-179)
  // ---------------------------------------------------------------------

  /**
   * `decodeDirectory`: `(d & 0xfffff000) >> 12` is the page id in the high
   * 20 bits and `d & 0xfff` the offset in the low 12 bits; on a 32-bit
   * `unsigned` these are the quotient and remainder by 2^12.
   */
  function DecodeDirectory(d: u32): (r: (u32, u32))
    ensures r.0 <= MAX_PID && r.1 < OFFSET_SPAN
    ensures r.0 * OFFSET_SPAN + r.1 == d
  {
    (d / OFFSET_SPAN, d % OFFSET_SPAN)
  }

  /**
   * `encodeDirectory`: throws for a page id above MAX_PID; otherwise
   * `(p << 12) + o`, an `unsigned` sum that wraps modulo 2^32.
   */
  function EncodeDirectory(p: u32, o: u32): (r: Result<u32>)
    ensures r.Throws? <==> p > MAX_PID
    ensures r.Throws? ==> r.message == "Page id overflow"
    ensures r.Ok? && o < OFFSET_SPAN ==> r.value / OFFSET_SPAN == p && r.value % OFFSET_SPAN == o
  {
    if p > MAX_PID then Throws("Page id overflow") else Ok(Wrap32(p * OFFSET_SPAN + o))
  }

  /** Decoding an encoded (page id, offset) pair gives it back when both fit their fields. */
  lemma DecodeEncode(p: u32, o: u32)
    requires p <= MAX_PID && o < OFFSET_SPAN
    ensures EncodeDirectory(p, o).Ok? && DecodeDirectory(EncodeDirectory(p, o).value) == (p, o)
  {
  }

  /** Every directory word is the encoding of its decoding. */
  lemma EncodeDecode(d: u32)
    ensures EncodeDirectory(DecodeDirectory(d).0, DecodeDirectory(d).1) == Ok(d)
  {
  }

  /** An offset that does not fit 12 bits spills into the page id: offset 4096 on page p decodes as offset 0 on page p + 1. */
  lemma EncodeSpillsLargeOffset(p: u32)
    requires p < MAX_PID
    ensures DecodeDirectory(EncodeDirectory(p, OFFSET_SPAN).value) == (p + 1, 0)
  {
  }

  // ---------------------------------------------------------------------
  // entryDirectoryOverheadLength (rbf/rbfm.h:321-323) and FreeSlot (rbf/rbfm.h:182-189)
  // ---------------------------------------------------------------------

  /** Conversion of an integer to `short` (two's complement, modulo 2^16). */
  function ToShort(x: int): (r: int)
    ensures -0x8000 <= r < 0x8000 && (x - r) % TWO_16 == 0
    ensures -0x8000 <= x < 0x8000 ==> r == x
  {
    var m := x % TWO_16;
    if m < 0x8000 then m else m - TWO_16
  }

  /**
   * `entryDirectoryOverheadLength(n)`: `sizeof(directory_t) * (n + 1)` as
   * a `short`. `n + 1` is an `int` sum, undefined for the largest `int`;
   * the product is a `size_t` that is then narrowed to `short`.
   */
  function EntryDirectoryOverheadLength(n: i32): (r: Outcome<int>)
    ensures r.Undefined? <==> n == TWO_31 - 1
    ensures !r.Undefined? ==> r.Returns?
    ensures -1 <= n < 0x3fff ==> r == Returns(2 * (n + 1))
    ensures r.Returns? ==> -0x8000 <= r.value < 0x8000 && (2 * (n + 1) - r.value) % TWO_16 == 0
  {
    if n == TWO_31 - 1 then Undefined
    else Returns(ToShort(Wrap64(2 * (n + 1))))
  }

  /** A FreeSlot: the page it is on (by address) and its size. */
  datatype FreeSlot = FreeSlot(page: nat, size: u64)

  /** `FreeSlot::operator<`. */
  predicate FreeSlotLess(a: FreeSlot, b: FreeSlot)
  {
    a.size < b.size
  }

  /**
   * The FreeSlot order is a strict weak order that looks at the size only:
   * slots of equal size are equivalent, whatever page they are on.
   */
  lemma FreeSlotOrder(a: FreeSlot, b: FreeSlot, c: FreeSlot, p: nat, q: nat)
    ensures !FreeSlotLess(a, a)
    ensures FreeSlotLess(a, b) && FreeSlotLess(b, c) ==> FreeSlotLess(a, c)
    ensures !FreeSlotLess(a, b) && !FreeSlotLess(b, a) <==> a.size == b.size
    ensures FreeSlotLess(a, b) == FreeSlotLess(a.(page := p), b.(page := q))
  {
  }

  // ---------------------------------------------------------------------
  // The slot table (rbf/page.cc:24-39, 72-77)
  // ---------------------------------------------------------------------

  /** The first deleted slot, or the number of slots when none is deleted. */
  function FirstDeleted(offsets: seq<int>): (k: nat)
    ensures k <= |offsets|
    ensures k < |offsets| ==> offsets[k] == DELETED
    ensures forall i | 0 <= i < k :: offsets[i] != DELETED
  {
    if |offsets| == 0 then 0
    else if offsets[0] == DELETED then 0
    else 1 + FirstDeleted(offsets[1..])
  }

  /** The number of deleted slots. */
  function CountDeleted(offsets: seq<int>): (n: nat)
    ensures n <= |offsets|
    ensures n == 0 <==> FirstDeleted(offsets) == |offsets|
  {
    if |offsets| == 0 then 0
    else (if offsets[0] == DELETED then 1 else 0) + CountDeleted(offsets[1..])
  }

  /** Slot sid set to `at`: a new slot appended when sid is the number of slots, else an existing one overwritten. */
  function PlaceSlot(offsets: seq<int>, sid: nat, at: int): (r: seq<int>)
    requires sid <= |offsets|
    ensures |r| == if sid == |offsets| then |offsets| + 1 else |offsets|
    ensures r[sid] == at
    ensures forall i | 0 <= i < |offsets| && i != sid :: r[i] == offsets[i]
  {
    if sid == |offsets| then offsets + [at] else offsets[sid := at]
  }

  /** The slot insertData picks: findNextSlotID's scan result narrowed to the 16-bit SID. */
  function InsertSlot(offsets: seq<int>): (sid: u16)
    ensures sid <= |offsets|
  {
    Wrap16(FirstDeleted(offsets))
  }

  /** Overwriting one slot with `at` changes the number of deleted slots by what the slot held and what `at` is. */
  lemma {:induction false} CountDeletedUpdate(offsets: seq<int>, k: nat, at: int)
    requires k < |offsets|
    ensures CountDeleted(offsets[k := at]) ==
      CountDeleted(offsets) - (if offsets[k] == DELETED then 1 else 0) + (if at == DELETED then 1 else 0)
  {
    if k > 0 {
      CountDeletedUpdate(offsets[1..], k - 1, at);
      assert offsets[k := at][1..] == offsets[1..][k - 1 := at];
    }
  }

  lemma {:induction false} CountDeletedAppend(offsets: seq<int>, at: int)
    ensures CountDeleted(offsets + [at]) == CountDeleted(offsets) + (if at == DELETED then 1 else 0)
  {
    if |offsets| > 0 {
      CountDeletedAppend(offsets[1..], at);
      assert (offsets + [at])[1..] == offsets[1..] + [at];
    }
  }

  /**
   * insertData on a slot table with no deleted slot and fewer than 2^16
   * slots appends a new slot holding the offset.
   */
  lemma InsertAppendsSlot(offsets: seq<int>, at: int)
    requires CountDeleted(offsets) == 0 && |offsets| < TWO_16
    ensures InsertSlot(offsets) == |offsets|
    ensures PlaceSlot(offsets, InsertSlot(offsets), at) == offsets + [at]
  {
    SmallWrap16(|offsets|);
  }

  /**
   * insertData on a slot table with a deleted slot among its first 2^16
   * reuses the first deleted slot: the table keeps its length, every other
   * slot keeps its offset, and one deleted slot fewer remains.
   */
  lemma InsertReusesFirstDeleted(offsets: seq<int>, at: int)
    requires CountDeleted(offsets) > 0 && FirstDeleted(offsets) < TWO_16 && at != DELETED
    ensures var k := FirstDeleted(offsets);
      InsertSlot(offsets) == k && offsets[k] == DELETED &&
      PlaceSlot(offsets, k, at) == offsets[k := at] &&
      CountDeleted(PlaceSlot(offsets, k, at)) == CountDeleted(offsets) - 1
  {
    var k := FirstDeleted(offsets);
    assert k < |offsets|;
    SmallWrap16(k);
    CountDeletedUpdate(offsets, k, at);
  }

  /**
   * With 2^16 live slots the 16-bit SID wraps to 0, so insertData
   * overwrites the offset of live slot 0 instead of adding a slot.
   */
  lemma InsertSlotWraps(offsets: seq<int>, at: int)
    requires |offsets| == TWO_16 && CountDeleted(offsets) == 0
    ensures InsertSlot(offsets) == 0 && offsets[0] != DELETED
    ensures PlaceSlot(offsets, 0, at) == offsets[0 := at]
  {
  }

  // ---------------------------------------------------------------------
  // The metadata at the page tail (rbf/page.cc:50-70, 88-91)
  // ---------------------------------------------------------------------

  /** The number of slot sizes a page can hold before the size table runs past the start of the buffer. */
  const MAX_SLOTS: int := (PAGE_SIZE - 4) / 4

  /** The `int` slot count in the last four bytes of a page. */
  function SlotCount(page: seq<byte>): i32
    requires |page| == PAGE_SIZE
  {
    BytesI32(page[PAGE_SIZE - 4..])
  }

  /** The n record sizes stored just before the slot count, first slot first. */
  function TailSizes(page: seq<byte>, n: nat): (sizes: seq<i32>)
    requires |page| == PAGE_SIZE && n <= MAX_SLOTS
    ensures |sizes| == n
  {
    seq(n, i requires 0 <= i < n => BytesI32(page[PAGE_SIZE - 4 - 4 * n + 4 * i..]))
  }

  /** The record sizes parseMeta reads: none for a negative slot count. */
  function Sizes(page: seq<byte>): (sizes: seq<int>)
    requires |page| == PAGE_SIZE && SlotCount(page) <= MAX_SLOTS
    ensures |sizes| == if SlotCount(page) < 0 then 0 else SlotCount(page)
  {
    if SlotCount(page) < 0 then [] else TailSizes(page, SlotCount(page))
  }

  /** The total size of the live records among the sizes (a -1 size marks a deleted slot). */
  function LiveSum(sizes: seq<int>): int
  {
    if |sizes| == 0 then 0
    else LiveSum(sizes[..|sizes| - 1]) + (if sizes[|sizes| - 1] == DELETED then 0 else sizes[|sizes| - 1])
  }

  /** The offsets parseMeta gives the slots: -1 for a deleted slot, otherwise the total size of the live records before it. */
  function ParsedOffsets(sizes: seq<int>): (r: seq<int>)
    ensures |r| == |sizes|
    ensures forall i | 0 <= i < |sizes| :: r[i] == if sizes[i] == DELETED then DELETED else LiveSum(sizes[..i])
  {
    seq(|sizes|, i requires 0 <= i < |sizes| => if sizes[i] == DELETED then DELETED else LiveSum(sizes[..i]))
  }

  /** Every running total of the live sizes fits an `int` (the `data_offset += *pt` sums do not overflow). */
  predicate SumsFit(sizes: seq<int>)
  {
    -TWO_31 <= LiveSum(sizes) < TWO_31 && (|sizes| == 0 || SumsFit(sizes[..|sizes| - 1]))
  }

  /** A prefix whose running totals do not all fit makes the whole sequence not fit. */
  lemma {:induction false} UnfitExtends(sizes: seq<int>, k: nat)
    requires k <= |sizes| && !SumsFit(sizes[..k])
    ensures !SumsFit(sizes)
    decreases |sizes| - k
  {
    if k < |sizes| {
      var init := sizes[..|sizes| - 1];
      assert init[..k] == sizes[..k];
      UnfitExtends(init, k);
    } else {
      assert sizes[..k] == sizes;
    }
  }

  /** The in-memory page metadata parseMeta computes. */
  datatype PageMeta = PageMeta(offsets: seq<int>, dataEnd: u64, freeSpace: u64)

  /**
   * `parseMeta` on the page bytes, with `prior` the slot offsets already in
   * memory (the vector is not cleared first). Undefined when the size
   * table would start before the buffer, when a running total overflows
   * `int`, or when `PAGE_SIZE - data_offset` does; a negative slot count
   * reads no sizes.
   */
  function Parse(page: seq<byte>, prior: seq<int>): (r: Outcome<PageMeta>)
    requires |page| == PAGE_SIZE
    ensures r.Returns? || r.Undefined?
    ensures SlotCount(page) > MAX_SLOTS ==> r.Undefined?
  {
    var n := SlotCount(page);
    if n > MAX_SLOTS then Undefined
    else
      var sizes := Sizes(page);
      var total := LiveSum(sizes);
      if !SumsFit(sizes) || PAGE_SIZE - total >= TWO_31 then Undefined
      else Returns(PageMeta(prior + ParsedOffsets(sizes), Wrap64(total),
                            Wrap64(PAGE_SIZE - total - 4 * (1 + |prior| + |sizes|))))
  }

  /**
   * The live records parseMeta finds are packed from offset 0: a live slot
   * starts where the live slot before it ends, and the data ends where the
   * last live record does.
   */
  lemma {:induction false} ParsedRecordsAdjacent(sizes: seq<int>, i: nat, j: nat)
    requires i < j < |sizes| && sizes[i] != DELETED && sizes[j] != DELETED
    requires forall k | i < k < j :: sizes[k] == DELETED
    ensures ParsedOffsets(sizes)[j] == ParsedOffsets(sizes)[i] + sizes[i]
  {
    LiveSumSkipsDeleted(sizes[..j], i + 1);
    assert sizes[..j][..i + 1] == sizes[..i + 1];
    assert sizes[..i + 1][..i] == sizes[..i];
  }

  /** Deleted sizes at the end add nothing to the live total. */
  lemma {:induction false} LiveSumSkipsDeleted(sizes: seq<int>, m: nat)
    requires m <= |sizes| && forall k | m <= k < |sizes| :: sizes[k] == DELETED
    ensures LiveSum(sizes) == LiveSum(sizes[..m])
  {
    if |sizes| > m {
      var init := sizes[..|sizes| - 1];
      LiveSumSkipsDeleted(init, m);
      assert init[..m] == sizes[..m];
    } else {
      assert sizes[..m] == sizes;
    }
  }

  /**
   * A page fresh from initPage parses to no new slots, no data, and the
   * whole page but the slot count and one slot word per known slot free.
   */
  lemma ParseAfterInit(page: seq<byte>, prior: seq<int>)
    requires |page| == PAGE_SIZE && page[PAGE_SIZE - 4..] == I32Bytes(0)
    ensures Parse(page, prior) == Returns(PageMeta(prior, 0, Wrap64(PAGE_SIZE - 4 * (1 + |prior|))))
  {
    I32RoundTrip(0, []);
    assert page[PAGE_SIZE - 4..] == I32Bytes(0) + [];
    assert SlotCount(page) == 0;
    assert prior + ParsedOffsets([]) == prior;
  }

  /** Parsing a freshly initialised page into an empty slot table: no slots, no data, PAGE_SIZE - 4 bytes free. */
  lemma ParseFreshPage(page: seq<byte>)
    requires |page| == PAGE_SIZE && page[PAGE_SIZE - 4..] == I32Bytes(0)
    ensures Parse(page, []) == Returns(PageMeta([], 0, PAGE_SIZE - 4))
  {
    ParseAfterInit(page, []);
  }

  // ---------------------------------------------------------------------
  // The Page class
  // ---------------------------------------------------------------------

  /**
   * Page of rbf/rbfm.h: the record bytes (`data`, null when not loaded),
   * where the data ends, the free-space accounting, the set of deleted
   * slots, the page id and the slot offsets.
   */
  class Page {
    var dataEnd: u64
    var data: array?<byte>
    var realFreeSpace: u64
    var invalidSlots: set<u16>
    const pid: u32
    var freeSpace: u64
    var recordsOffset: seq<int>

    /** A loaded buffer is one page long. */
    ghost predicate Valid()
      reads this
    {
      data != null ==> data.Length == PAGE_SIZE
    }

    /** `Page(page_id)`: the page id; the buffer is not loaded and the slot table is empty. */
    constructor(pageId: u32)
      ensures Valid() && pid == pageId && data == null
      ensures dataEnd == 0 && realFreeSpace == 0 && freeSpace == 0 && invalidSlots == {} && recordsOffset == []
    {
      pid := pageId;
      data := null;
      dataEnd := 0;
      realFreeSpace := 0;
      freeSpace := 0;
      invalidSlots := {};
      recordsOffset := [];
    }

    /**
     * `findNextSlotID` of rbf/rbfm.h:153-158: with no deleted slot the
     * number of slots (as a SID); otherwise some deleted slot, which is
     * taken out of the set.
     */
    method FindNextSlotIdInSet() returns (sid: u16)
      modifies this
      ensures old(invalidSlots) == {} ==> sid == Wrap16(|recordsOffset|) && invalidSlots == {}
      ensures old(invalidSlots) != {} ==> sid in old(invalidSlots) && invalidSlots == old(invalidSlots) - {sid}
      ensures recordsOffset == old(recordsOffset) && dataEnd == old(dataEnd) && data == old(data)
      ensures freeSpace == old(freeSpace) && realFreeSpace == old(realFreeSpace)
    {
      if invalidSlots == {} {
        return Wrap16(|recordsOffset|);
      }
      sid :| sid in invalidSlots;
      invalidSlots := invalidSlots - {sid};
    }

    /**
     * `maintainFreeSpace` (rbf/rbfm.h:160-162): the usable free space is
     * the real free space, less one `int` slot word when no deleted slot
     * can be reused (`size_t` arithmetic).
     */
    method MaintainFreeSpace()
      modifies this
      ensures freeSpace == if invalidSlots == {} then Wrap64(realFreeSpace - 4) else realFreeSpace
      ensures invalidSlots == old(invalidSlots) && realFreeSpace == old(realFreeSpace)
      ensures recordsOffset == old(recordsOffset) && dataEnd == old(dataEnd) && data == old(data)
    {
      freeSpace := if invalidSlots == {} then Wrap64(realFreeSpace - 4) else realFreeSpace;
    }

    /**
     * `findNextSlotID` of rbf/page.cc:72-77: the index of the first deleted
     * slot, or the number of slots, as a SID. The `int` loop counter
     * overflows when that index is 2^31 or more.
     */
    method FindNextSlotId() returns (r: Outcome<u16>)
      ensures FirstDeleted(recordsOffset) >= TWO_31 ==> r.Undefined?
      ensures FirstDeleted(recordsOffset) < TWO_31 ==> r == Returns(Wrap16(FirstDeleted(recordsOffset)))
    {
      var i := 0;
      while i < |recordsOffset|
        invariant 0 <= i <= |recordsOffset| && i < TWO_31
        invariant forall j | 0 <= j < i :: recordsOffset[j] != DELETED
      {
        if recordsOffset[i] == DELETED {
          return Returns(Wrap16(i));
        }
        if i == TWO_31 - 1 {
          // ++i overflows
          return Undefined;
        }
        i := i + 1;
      }
      return Returns(Wrap16(|recordsOffset|));
    }

    /**
     * `insertData(new_data, size)` (rbf/page.cc:24-39): the bytes are copied
     * to the end of the data, the slot findNextSlotID picks is set to the
     * old data end (appended when it is a new slot, which also costs four
     * bytes of free space), and the data end and free space move by size.
     * Undefined when no buffer is loaded, when the copy runs past the page
     * or past the source bytes, or when the slot scan overflows.
     */
    method InsertData(newData: seq<byte>, size: u64) returns (r: Outcome<RID>)
      requires Valid()
      modifies this, data
      ensures r.Returns? || r.Undefined?
      ensures old(data) == null || old(dataEnd) + size > PAGE_SIZE || size > |newData| ==> r.Undefined?
      ensures r.Returns? ==>
        var sid := InsertSlot(old(recordsOffset));
        var isNew := sid == |old(recordsOffset)|;
        Valid() && data == old(data) && data != null &&
        data[..] == old(data[..dataEnd]) + newData[..size] + old(data[dataEnd + size..]) &&
        recordsOffset == PlaceSlot(old(recordsOffset), sid, old(dataEnd)) &&
        dataEnd == old(dataEnd) + size &&
        freeSpace == Wrap64(old(freeSpace) - size - (if isNew then 4 else 0)) &&
        r.value == RID(pid, sid)
      ensures r.Returns? ==> invalidSlots == old(invalidSlots) && realFreeSpace == old(realFreeSpace)
    {
      if data == null || dataEnd + size > PAGE_SIZE || size > |newData| {
        return Undefined;
      }
      CopyBytes(data, dataEnd, newData[..size]);
      var found := FindNextSlotId();
      if found.Undefined? {
        return Undefined;
      }
      var sid := found.value;
      ghost var f0: int := freeSpace;
      if sid == |recordsOffset| {
        // new slot
        freeSpace := Wrap64(freeSpace - 4);
        recordsOffset := recordsOffset + [dataEnd];
        WrapSub(f0 - 4, size);
      } else {
        // use previous deleted slot
        recordsOffset := recordsOffset[sid := dataEnd];
      }
      dataEnd := dataEnd + size;
      freeSpace := Wrap64(freeSpace - size);
      return Returns(RID(pid, sid));
    }

    /**
     * `parseMeta` (rbf/page.cc:50-70): reads the slot count and the size
     * table from the page tail and appends one offset per slot to the slot
     * table, then sets the data end and the free space.
     */
    method ParseMeta() returns (r: Outcome<()>)
      requires Valid()
      modifies this
      ensures r.Returns? || r.Undefined?
      ensures old(data) == null ==> r.Undefined?
      ensures old(data) != null ==>
        var p := Parse(old(data[..]), old(recordsOffset));
        r.Undefined? == p.Undefined? &&
        (p.Returns? ==> recordsOffset == p.value.offsets && dataEnd == p.value.dataEnd && freeSpace == p.value.freeSpace)
      ensures data == old(data) && invalidSlots == old(invalidSlots) && realFreeSpace == old(realFreeSpace)
    {
      if data == null {
        return Undefined;
      }
      ghost var page, prior := data[..], recordsOffset;
      var slotNum := BytesI32(data[PAGE_SIZE - 4..]);
      if slotNum > MAX_SLOTS {
        // the size table would begin before the buffer
        return Undefined;
      }
      var n: nat := if slotNum < 0 then 0 else slotNum;
      ghost var sizes := Sizes(page);
      var scanned := ScanSizes(data[..], n);
      if scanned.Undefined? {
        assert Parse(page, prior).Undefined?;
        return Undefined;
      }
      var dataOffset := scanned.value.1;
      recordsOffset := recordsOffset + scanned.value.0;
      ParseOutcome(page, prior, sizes);
      if PAGE_SIZE - dataOffset >= TWO_31 {
        // PAGE_SIZE - data_offset overflows
        return Undefined;
      }
      dataEnd := Wrap64(dataOffset);
      var metaSize := Wrap64(4 * (1 + |recordsOffset|));
      freeSpace := Wrap64(PAGE_SIZE - dataOffset - metaSize);
      WrapSubFrom(PAGE_SIZE - dataOffset, 4 * (1 + |recordsOffset|));
      assert Parse(page, prior) == Returns(PageMeta(recordsOffset, dataEnd, freeSpace));
      return Returns(());
    }

    /** `initPage` (rbf/page.cc:88-91): the slot count of a page buffer is set to 0. */
    static method InitPage(pageData: array<byte>)
      requires pageData.Length == PAGE_SIZE
      modifies pageData
      ensures pageData[..] == old(pageData[..PAGE_SIZE - 4]) + I32Bytes(0)
      ensures pageData[PAGE_SIZE - 4..] == I32Bytes(0)
    {
      CopyBytes(pageData, PAGE_SIZE - 4, I32Bytes(0));
      assert pageData[..][PAGE_SIZE - 4..] == pageData[PAGE_SIZE - 4..];
    }

    /** `freeMem` (rbf/page.cc:19-22): the buffer is released. */
    method FreeMem()
      modifies this
      ensures data == null
      ensures recordsOffset == old(recordsOffset) && dataEnd == old(dataEnd) && freeSpace == old(freeSpace)
      ensures invalidSlots == old(invalidSlots) && realFreeSpace == old(realFreeSpace)
    {
      data := null;
    }

    /**
     * `dump` (rbf/page.cc:41-48): throws when no buffer is loaded; otherwise
     * the buffer is written as page pid through the handle (which ignores a
     * page number past its page count or a closed stream) and released.
     */
    method Dump(handle: PagedFile.FileHandle) returns (r: Outcome<()>)
      requires Valid()
      modifies this, handle, handle.store
      ensures old(data) == null ==> r == Raises("dump empty data") && unchanged(this) && unchanged(handle) && unchanged(handle.store)
      ensures old(data) != null ==>
        (r == Returns(()) && data == null &&
         recordsOffset == old(recordsOffset) && dataEnd == old(dataEnd) && freeSpace == old(freeSpace))
      ensures old(data) != null && pid < old(handle.appendPageCounter) && old(handle.file).Some? ==>
        handle.store.files == handle.PutPage(old(handle.store.files), old(handle.file).value, pid, old(data[..]))
      ensures old(data) != null && (pid >= old(handle.appendPageCounter) || old(handle.file).None?) ==>
        handle.store.files == old(handle.store.files)
      ensures old(data) != null ==> realFreeSpace == old(realFreeSpace) && invalidSlots == old(invalidSlots)
      ensures handle.file == old(handle.file) && handle.name == old(handle.name)
      ensures handle.readPageCounter == old(handle.readPageCounter) && handle.appendPageCounter == old(handle.appendPageCounter)
      ensures handle.writePageCounter ==
        if old(data) != null && pid < old(handle.appendPageCounter) && old(handle.file).Some?
        then Wrap32(old(handle.writePageCounter) + 1) else old(handle.writePageCounter)
    {
      if data == null {
        return Raises("dump empty data");
      }
      var rc := handle.WritePage(pid, data[..]);
      FreeMem();
      r := Returns(());
    }
  }

  /** ParsedOffsets of a longer prefix extends that of the shorter one by the new slot's offset. */
  lemma ParsedOffsetsAppend(sizes: seq<int>, s: int)
    ensures ParsedOffsets(sizes + [s]) == ParsedOffsets(sizes) + [if s == DELETED then DELETED else LiveSum(sizes)]
  {
    var a, b := ParsedOffsets(sizes + [s]), ParsedOffsets(sizes) + [if s == DELETED then DELETED else LiveSum(sizes)];
    forall i | 0 <= i < |a| ensures a[i] == b[i] {
      if i < |sizes| {
        assert (sizes + [s])[..i] == sizes[..i];
      } else {
        assert (sizes + [s])[..i] == sizes;
      }
    }
  }

  /**
   * The loop of `parseMeta` over the n record sizes at the page tail: the
   * offset of each slot (-1 for a deleted one) and the running total of
   * the live sizes, an `int` whose overflow is undefined.
   */
  method ScanSizes(page: seq<byte>, n: nat) returns (r: Outcome<(seq<int>, int)>)
    requires |page| == PAGE_SIZE && SlotCount(page) <= MAX_SLOTS && n == |Sizes(page)|
    ensures r.Returns? || r.Undefined?
    ensures r.Undefined? <==> !SumsFit(Sizes(page))
    ensures r.Returns? ==> r.value == (ParsedOffsets(Sizes(page)), LiveSum(Sizes(page)))
  {
    ghost var sizes := Sizes(page);
    var base := PAGE_SIZE - 4 - 4 * n;
    var offsets := [];
    var dataOffset := 0;
    var i := 0;
    while i < n
      invariant 0 <= i <= n
      invariant offsets == ParsedOffsets(sizes[..i])
      invariant dataOffset == LiveSum(sizes[..i])
      invariant SumsFit(sizes[..i])
    {
      var size := BytesI32(page[base + 4 * i..]);
      assert size == sizes[i];
      ParseStep(sizes, i);
      if size == DELETED {
        offsets := offsets + [DELETED];
      } else {
        offsets := offsets + [dataOffset];
        if !(-TWO_31 <= dataOffset + size < TWO_31) {
          // data_offset += *pt overflows
          UnfitExtends(sizes, i + 1);
          return Undefined;
        }
        dataOffset := dataOffset + size;
      }
      i := i + 1;
    }
    assert sizes[..n] == sizes;
    return Returns((offsets, dataOffset));
  }

  /** One more size: the live total and the parsed offsets grow by that slot. */
  lemma ParseStep(sizes: seq<int>, i: nat)
    requires i < |sizes|
    ensures LiveSum(sizes[..i + 1]) == LiveSum(sizes[..i]) + (if sizes[i] == DELETED then 0 else sizes[i])
    ensures ParsedOffsets(sizes[..i + 1]) ==
      ParsedOffsets(sizes[..i]) + [if sizes[i] == DELETED then DELETED else LiveSum(sizes[..i])]
    ensures SumsFit(sizes[..i + 1]) <==> SumsFit(sizes[..i]) && -TWO_31 <= LiveSum(sizes[..i + 1]) < TWO_31
  {
    assert sizes[..i + 1][..i] == sizes[..i];
    assert sizes[..i + 1] == sizes[..i] + [sizes[i]];
    ParsedOffsetsAppend(sizes[..i], sizes[i]);
  }

  /** What Parse gives once every running total fits: defined exactly when `PAGE_SIZE - total` fits an `int`. */
  lemma ParseOutcome(page: seq<byte>, prior: seq<int>, sizes: seq<int>)
    requires |page| == PAGE_SIZE && SlotCount(page) <= MAX_SLOTS
    requires sizes == Sizes(page)
    requires SumsFit(sizes)
    ensures var total := LiveSum(sizes);
      Parse(page, prior) ==
        if PAGE_SIZE - total >= TWO_31 then Undefined
        else Returns(PageMeta(prior + ParsedOffsets(sizes), Wrap64(total),
                              Wrap64(PAGE_SIZE - total - Wrap64(4 * (1 + |prior + ParsedOffsets(sizes)|)))))
  {
    var total := LiveSum(sizes);
    WrapSubFrom(PAGE_SIZE - total, 4 * (1 + |prior| + |sizes|));
  }

  /** `size_t` subtraction of a wrapped value: wrapping the subtrahend first changes nothing. */
  lemma WrapSubFrom(c: int, x: int)
    ensures Wrap64(c - Wrap64(x)) == Wrap64(c - x)
  {
    var q := x / TWO_64;
    assert Wrap64(x) == x - q * TWO_64;
    assert (c - x + q * TWO_64) % TWO_64 == (c - x) % TWO_64;
  }

  lemma SmallWrap16(x: int)
    requires 0 <= x < TWO_16
    ensures Wrap16(x) == x
  {
  }

  /** `size_t` subtraction: wrapping before or after subtracting gives the same result. */
  lemma WrapSub(x: int, s: int)
    ensures Wrap64(Wrap64(x) - s) == Wrap64(x - s)
  {
    var q := x / TWO_64;
    assert Wrap64(x) == x - q * TWO_64;
    assert (x - s - q * TWO_64) % TWO_64 == (x - s) % TWO_64;
  }
}
