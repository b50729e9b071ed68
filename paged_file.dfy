/**
 * The paged file layer of the record-based file manager (rbf/pfm.cc): a
 * file handle over an abstract file store. A file on disk is a header of
 * three little-endian `unsigned` counters (reads, writes, appends) followed
 * by its pages; the handle keeps the counters in memory while the file is
 * open and writes them back to the header when it is closed.
 */
module PagedFile {
  import opened Wrappers
  import opened Types

  /** What a paged file holds on disk: the header bytes, the pages by number, and the raw record writes in order. */
  datatype PagedImage = PagedImage(header: seq<byte>, pages: map<u32, seq<byte>>, records: seq<(nat, seq<byte>)>)

  /** The size of the counter header: three `unsigned`s. */
  const HEADER_SIZE: nat := 12

  /** The header bytes after the three counters are written over its first twelve bytes (seekp(0) and three writes). */
  function WriteHeader(h: seq<byte>, r: u32, w: u32, a: u32): (h': seq<byte>)
    ensures |h'| == if |h| > HEADER_SIZE then |h| else HEADER_SIZE
    ensures h'[HEADER_SIZE..] == if |h| > HEADER_SIZE then h[HEADER_SIZE..] else []
  {
    U32Bytes(r) + U32Bytes(w) + U32Bytes(a) + (if |h| > HEADER_SIZE then h[HEADER_SIZE..] else [])
  }

  /**
   * One `read((char *) &counter, sizeof(unsigned))` from a stream that has
   * `avail` bytes left: the bytes that are there overwrite the low-order
   * bytes of the counter, the others keep their old value.
   */
  function ReadCounter(prev: u32, avail: seq<byte>): (r: u32)
    ensures |avail| >= 4 ==> r == BytesU32(avail)
    ensures |avail| == 0 ==> r == prev
  {
    var k := if |avail| < 4 then |avail| else 4;
    U32RoundTrip(prev, []);
    assert U32Bytes(prev)[0..] == U32Bytes(prev);
    BytesU32(avail[..k] + U32Bytes(prev)[k..])
  }

  /**
   * The three counters after reading the header from offset 0: a read
   * that runs short puts the stream in a failed state, so the reads after
   * it leave their counters unchanged.
   */
  function ReadHeader(h: seq<byte>, r: u32, w: u32, a: u32): (c: (u32, u32, u32))
    ensures |h| >= HEADER_SIZE ==> c == (BytesU32(h), BytesU32(h[4..]), BytesU32(h[8..]))
    ensures |h| < 4 ==> c.1 == w && c.2 == a
  {
    var r' := ReadCounter(r, h);
    if |h| < 4 then (r', w, a)
    else
      var w' := ReadCounter(w, h[4..]);
      if |h| < 8 then (r', w', a)
      else (r', w', ReadCounter(a, h[8..]))
  }

  /** Reading the header back gives the counters last written to it, whatever the handle held before. */
  lemma HeaderRoundTrip(h: seq<byte>, r: u32, w: u32, a: u32, r0: u32, w0: u32, a0: u32)
    ensures ReadHeader(WriteHeader(h, r, w, a), r0, w0, a0) == (r, w, a)
  {
    var h' := WriteHeader(h, r, w, a);
    var rest := if |h| > HEADER_SIZE then h[HEADER_SIZE..] else [];
    assert h' == U32Bytes(r) + (U32Bytes(w) + (U32Bytes(a) + rest));
    assert h'[4..] == U32Bytes(w) + (U32Bytes(a) + rest);
    assert h'[8..] == U32Bytes(a) + rest;
    U32RoundTrip(r, U32Bytes(w) + (U32Bytes(a) + rest));
    U32RoundTrip(w, U32Bytes(a) + rest);
    U32RoundTrip(a, rest);
  }

  /** The file system the handles work on: which files exist and what they hold. */
  class FileStore {
    var files: map<string, PagedImage>

    constructor(initial: map<string, PagedImage>)
      ensures files == initial
    {
      files := initial;
    }

    /** `PagedFileManager::ifFileExists` (rbf/pfm.h:17-20). */
    predicate Exists(name: string)
      reads this
    {
      name in files
    }
  }

  /**
   * FileHandle of rbf/pfm.cc: the three counters, the `name` field, and
   * the stream `_file`, which is either closed (None) or open on a file
   * of the store.
   */
  class FileHandle {
    const store: FileStore
    var readPageCounter: u32
    var writePageCounter: u32
    var appendPageCounter: u32
    var name: string
    var file: Option<string>

    /** `FileHandle()` (rbf/pfm.cc:55-59): zero counters and a closed stream. */
    constructor(s: FileStore)
      ensures store == s && file.None? && name == ""
      ensures readPageCounter == 0 && writePageCounter == 0 && appendPageCounter == 0
    {
      store := s;
      readPageCounter := 0;
      writePageCounter := 0;
      appendPageCounter := 0;
      name := "";
      file := None;
    }

    /**
     * `openFile` (rbf/pfm.cc:63-86): -1 when the file does not exist, the
     * stream is already open, or the stream fails to open (`streamGood`
     * false); otherwise the stream is open on the file, `name` is set and
     * the counters are loaded from the header.
     */
    method OpenFile(fileName: string, streamGood: bool) returns (rc: int)
      modifies this
      ensures !store.Exists(fileName) || old(file).Some? || !streamGood ==> rc == -1 && unchanged(this)
      ensures store.Exists(fileName) && old(file).None? && streamGood ==>
        rc == 0 && file == Some(fileName) && name == fileName &&
        (readPageCounter, writePageCounter, appendPageCounter) ==
          ReadHeader(store.files[fileName].header, old(readPageCounter), old(writePageCounter), old(appendPageCounter))
    {
      if !store.Exists(fileName) {
        return -1;
      }
      if file.Some? {
        return -1;
      }
      if !streamGood {
        return -1;
      }
      file := Some(fileName);
      name := fileName;
      var header := store.files[fileName].header;
      var c := ReadHeader(header, readPageCounter, writePageCounter, appendPageCounter);
      readPageCounter, writePageCounter, appendPageCounter := c.0, c.1, c.2;
      rc := 0;
    }

    /**
     * `updateCounterToFile` (rbf/pfm.cc:100-108): -1 on a closed stream;
     * otherwise the counters are written over the header of the open file
     * (a file removed from the store meanwhile keeps nothing).
     */
    method UpdateCounterToFile() returns (rc: int)
      modifies store
      ensures old(file).None? ==> rc == -1 && unchanged(store)
      ensures file.Some? ==> (rc == 0 &&
        store.files == if file.value in old(store.files) then
          old(store.files)[file.value := old(store.files)[file.value].(header :=
            WriteHeader(old(store.files)[file.value].header, readPageCounter, writePageCounter, appendPageCounter))]
        else old(store.files))
    {
      if file.None? {
        return -1;
      }
      var f := file.value;
      if f in store.files {
        var img := store.files[f];
        store.files := store.files[f := img.(header := WriteHeader(img.header, readPageCounter, writePageCounter, appendPageCounter))];
      }
      rc := 0;
    }

    /**
     * `closeFile` (rbf/pfm.cc:88-98): -1 on a closed stream; otherwise the
     * counters are flushed to the header and the stream is closed.
     */
    method CloseFile() returns (rc: int)
      modifies this, store
      ensures old(file).None? ==> rc == -1 && unchanged(this) && unchanged(store)
      ensures old(file).Some? ==> (rc == 0 && file.None? &&
        var f := old(file).value;
        store.files == if f in old(store.files) then
          old(store.files)[f := old(store.files)[f].(header :=
            WriteHeader(old(store.files)[f].header, readPageCounter, writePageCounter, appendPageCounter))]
        else old(store.files))
      ensures readPageCounter == old(readPageCounter) && writePageCounter == old(writePageCounter)
      ensures appendPageCounter == old(appendPageCounter) && name == old(name)
    {
      if file.None? {
        return -1;
      }
      rc := UpdateCounterToFile();
      file := None;
      rc := 0;
    }

    /**
     * `createFile` (rbf/pfm.cc:110-127): -1 when the file exists, the
     * stream is open or fails to open; otherwise an empty file is created
     * and closing the stream writes the handle's counters as its header.
     */
    method CreateFile(fileName: string, streamGood: bool) returns (rc: int)
      modifies this, store
      ensures store.Exists(fileName) == (old(store.Exists(fileName)) || rc == 0)
      ensures old(store.Exists(fileName)) || old(file).Some? || !streamGood ==>
        rc == -1 && unchanged(this) && unchanged(store)
      ensures !old(store.Exists(fileName)) && old(file).None? && streamGood ==>
        rc == 0 && file.None? &&
        store.files == old(store.files)[fileName :=
          PagedImage(WriteHeader([], readPageCounter, writePageCounter, appendPageCounter), map[], [])]
      ensures readPageCounter == old(readPageCounter) && writePageCounter == old(writePageCounter)
      ensures appendPageCounter == old(appendPageCounter) && name == old(name)
    {
      if store.Exists(fileName) {
        return -1;
      }
      if file.Some? {
        return -1;
      }
      if !streamGood {
        return -1;
      }
      // std::ios::out creates the file empty
      store.files := store.files[fileName := PagedImage([], map[], [])];
      file := Some(fileName);
      rc := CloseFile();
    }

    /** `getNumberOfPages` (rbf/pfm.cc:159-161): the append counter. */
    function GetNumberOfPages(): (n: u32)
      reads this
      ensures n == appendPageCounter
    {
      appendPageCounter
    }

    /**
     * `readPage` (rbf/pfm.cc:129-137): -1 for a page number past the page
     * count or a closed stream; otherwise one more read is counted and the
     * page is read (None: a page the file does not hold, whose bytes are
     * indeterminate).
     */
    method ReadPage(pageNum: u32) returns (rc: int, data: Option<seq<byte>>)
      modifies this
      ensures pageNum >= old(appendPageCounter) || old(file).None? ==> rc == -1 && unchanged(this)
      ensures pageNum < old(appendPageCounter) && old(file).Some? ==>
        rc == 0 && readPageCounter == Wrap32(old(readPageCounter) + 1) &&
        var f := old(file).value;
        data == if f in store.files && pageNum in store.files[f].pages then Some(store.files[f].pages[pageNum]) else None
      ensures writePageCounter == old(writePageCounter) && appendPageCounter == old(appendPageCounter)
      ensures file == old(file) && name == old(name)
    {
      data := None;
      if pageNum >= GetNumberOfPages() || file.None? {
        return -1, data;
      }
      var f := file.value;
      if f in store.files && pageNum in store.files[f].pages {
        data := Some(store.files[f].pages[pageNum]);
      }
      readPageCounter := Wrap32(readPageCounter + 1);
      rc := 0;
    }

    /** The store with page `n` of the open file `f` set to `data`. */
    function PutPage(files: map<string, PagedImage>, f: string, n: u32, data: seq<byte>): (r: map<string, PagedImage>)
      ensures r.Keys == files.Keys
      ensures forall g | g in files && g != f :: r[g] == files[g]
      ensures f in files ==>
        r[f].header == files[f].header && r[f].records == files[f].records && r[f].pages == files[f].pages[n := data]
    {
      if f in files then files[f := files[f].(pages := files[f].pages[n := data])] else files
    }

    /**
     * `writePage` (rbf/pfm.cc:139-146): -1 for a page number past the page
     * count or a closed stream; otherwise the page is stored and one more
     * write is counted.
     */
    method WritePage(pageNum: u32, data: seq<byte>) returns (rc: int)
      requires |data| == PAGE_SIZE
      modifies this, store
      ensures pageNum >= old(appendPageCounter) || old(file).None? ==> rc == -1 && unchanged(this) && unchanged(store)
      ensures pageNum < old(appendPageCounter) && old(file).Some? ==>
        rc == 0 && writePageCounter == Wrap32(old(writePageCounter) + 1) &&
        store.files == PutPage(old(store.files), old(file).value, pageNum, data)
      ensures readPageCounter == old(readPageCounter) && appendPageCounter == old(appendPageCounter)
      ensures file == old(file) && name == old(name)
    {
      if pageNum >= GetNumberOfPages() || file.None? {
        return -1;
      }
      store.files := PutPage(store.files, file.value, pageNum, data);
      writePageCounter := Wrap32(writePageCounter + 1);
      rc := 0;
    }

    /**
     * `appendPage` (rbf/pfm.cc:148-157): -1 on a closed stream; otherwise
     * the page is stored at number appendPageCounter and one more append
     * is counted, which adds one page to the count.
     */
    method AppendPage(data: seq<byte>) returns (rc: int)
      requires |data| == PAGE_SIZE
      modifies this, store
      ensures old(file).None? ==> rc == -1 && unchanged(this) && unchanged(store)
      ensures old(file).Some? ==>
        rc == 0 && appendPageCounter == Wrap32(old(appendPageCounter) + 1) &&
        store.files == PutPage(old(store.files), old(file).value, old(appendPageCounter), data)
      ensures readPageCounter == old(readPageCounter) && writePageCounter == old(writePageCounter)
      ensures file == old(file) && name == old(name)
    {
      if file.None? {
        return -1;
      }
      store.files := PutPage(store.files, file.value, appendPageCounter, data);
      appendPageCounter := Wrap32(appendPageCounter + 1);
      rc := 0;
    }

    /** `collectCounterValues` (rbf/pfm.cc:163-168): the three counters, returning 0. */
    method CollectCounterValues() returns (rc: int, readCount: u32, writeCount: u32, appendCount: u32)
      ensures rc == 0
      ensures readCount == readPageCounter && writeCount == writePageCounter && appendCount == appendPageCounter
    {
      return 0, readPageCounter, writePageCounter, appendPageCounter;
    }

    /**
     * `writeRecord(pos, record, size)` (rbf/pfm.cc:170-178): -1 on a
     * closed stream; otherwise the first `size` bytes of the record are
     * written at byte position `pos` of the file.
     */
    method WriteRecord(pos: nat, record: seq<byte>, size: u32) returns (rc: Outcome<int>)
      modifies store
      ensures file.None? ==> rc == Returns(-1) && unchanged(store)
      ensures file.Some? && size > |record| ==> rc.Undefined?
      ensures file.Some? && size <= |record| ==> (rc == Returns(0) &&
        var f := file.value;
        store.files == if f in old(store.files) then
          old(store.files)[f := old(store.files)[f].(records := old(store.files)[f].records + [(pos, record[..size])])]
        else old(store.files))
    {
      if file.None? {
        return Returns(-1);
      }
      if size > |record| {
        // the write reads past the end of the record buffer
        return Undefined;
      }
      var f := file.value;
      if f in store.files {
        var img := store.files[f];
        store.files := store.files[f := img.(records := img.records + [(pos, record[..size])])];
      }
      rc := Returns(0);
    }
  }

  /**
   * Closing a handle and opening the same file again gives back the
   * counters it had, and the page count with them.
   */
  method ReopenRestoresCounters(h: FileHandle) returns (rc: int)
    requires h.file.Some? && h.file.value in h.store.files
    modifies h, h.store
    ensures rc == 0 && h.file == old(h.file)
    ensures h.readPageCounter == old(h.readPageCounter) && h.writePageCounter == old(h.writePageCounter)
    ensures h.appendPageCounter == old(h.appendPageCounter) && h.GetNumberOfPages() == old(h.GetNumberOfPages())
  {
    var f := h.file.value;
    var r, w, a := h.readPageCounter, h.writePageCounter, h.appendPageCounter;
    var closed := h.CloseFile();
    HeaderRoundTrip(old(h.store.files)[f].header, r, w, a, r, w, a);
    rc := h.OpenFile(f, true);
  }

  /** PagedFileManager of rbf/pfm.cc over the file store. */
  class PagedFileManager {
    const store: FileStore

    constructor(s: FileStore)
      ensures store == s
    {
      store := s;
    }

    /**
     * `createFile` (rbf/pfm.cc:30-33): a fresh handle creates the file, so
     * a new file starts with all three counters 0, and hence no pages.
     */
    method CreateFile(fileName: string, streamGood: bool) returns (rc: int)
      modifies store
      ensures old(store.Exists(fileName)) || !streamGood ==> rc == -1 && store.files == old(store.files)
      ensures !old(store.Exists(fileName)) && streamGood ==>
        rc == 0 && store.files == old(store.files)[fileName := PagedImage(NewHeader(), map[], [])]
    {
      var handler := new FileHandle(store);
      rc := handler.CreateFile(fileName, streamGood);
    }

    /**
     * `destroyFile` (rbf/pfm.cc:35-41): -1 for a file that does not exist;
     * otherwise the file is removed (`remove` is taken to succeed).
     */
    method DestroyFile(fileName: string) returns (rc: int)
      modifies store
      ensures !old(store.Exists(fileName)) ==> rc == -1 && store.files == old(store.files)
      ensures old(store.Exists(fileName)) ==> rc == 0 && store.files == old(store.files) - {fileName}
      ensures !store.Exists(fileName)
    {
      if !store.Exists(fileName) {
        return -1;
      }
      store.files := store.files - {fileName};
      rc := 0;
    }
  }

  /** The header of a newly created file: three zero counters. */
  function NewHeader(): (h: seq<byte>)
    ensures |h| == HEADER_SIZE
    ensures ReadHeader(h, 0, 0, 0) == (0, 0, 0)
  {
    HeaderRoundTrip([], 0, 0, 0, 0, 0, 0);
    WriteHeader([], 0, 0, 0)
  }

  /** A newly created file, once opened, has no pages: its read, write and append counters are all 0. */
  lemma NewFileHasNoPages(r0: u32, w0: u32, a0: u32)
    ensures ReadHeader(NewHeader(), r0, w0, a0) == (0, 0, 0)
  {
    HeaderRoundTrip([], 0, 0, 0, r0, w0, a0);
  }
}
