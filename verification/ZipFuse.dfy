/**
 zipfuse's open files and directories: shared buffers, reads from them, and directory listing page by page.
 */
module ZipFuse {
  import opened Common
  import opened InodeModel
  import opened Inode
  import opened OpenBuffers

  const U32_MAX: nat := 0xFFFF_FFFF

  /** A directory entry as it is kept in an open directory. */
  datatype Item = Item(name: Name, entry: DirectoryEntry)

  /** An entry as `DirIter::next` reports it; `offset` is where to resume after it. */
  datatype DirEntry = DirEntry(ino: nat, offset: nat, kind: Kind, name: Name)

  // ---------------------------------------------------------------------------------------
  // Pages
  // ---------------------------------------------------------------------------------------

  /** Room one entry takes in the reply, rounded up to a multiple of 8. */
  function EntrySize(direntSize: nat, item: Item): nat { (direntSize + |item.name| + 7) / 8 * 8 }

  /** Room for the entries `start..end`. */
  function Estimate(direntSize: nat, buf: seq<Item>, start: nat, end: nat): nat
    requires start <= end <= |buf|
  {
    if start == end then 0 else Estimate(direntSize, buf, start, end - 1) + EntrySize(direntSize, buf[end - 1])
  }

  /** `end` closes the page: the entries before the last do not fill `size`, and they do or none is left after. */
  predicate ClosesPage(direntSize: nat, buf: seq<Item>, size: nat, start: nat, end: nat)
  {
    && start <= end <= |buf|
    && (end < |buf| ==> Estimate(direntSize, buf, start, end) >= size)
    && (end > start ==> Estimate(direntSize, buf, start, end - 1) < size)
  }

  /**
   The room for several entries is the sum, and for one entry it is the least multiple of 8 that holds the
   fixed part and the name.
   */
  lemma {:induction false} RoomForEntries(direntSize: nat, buf: seq<Item>, start: nat, mid: nat, end: nat)
    requires start <= mid <= end <= |buf|
    ensures Estimate(direntSize, buf, start, end) ==
              Estimate(direntSize, buf, start, mid) + Estimate(direntSize, buf, mid, end)
    ensures end == start + 1 ==>
              var room, needed := Estimate(direntSize, buf, start, end), direntSize + |buf[start].name|;
              room % 8 == 0 && needed <= room < needed + 8
    decreases end
  {
    if mid < end { RoomForEntries(direntSize, buf, start, mid, end - 1); }
  }

  lemma {:induction false} EstimateMonotone(direntSize: nat, buf: seq<Item>, start: nat, a: nat, b: nat)
    requires start <= a <= b <= |buf|
    ensures Estimate(direntSize, buf, start, a) <= Estimate(direntSize, buf, start, b)
    decreases b
  {
    if a < b { EstimateMonotone(direntSize, buf, start, a, b - 1); }
  }

  /** There is one such end. */
  lemma PageEndUnique(direntSize: nat, buf: seq<Item>, size: nat, start: nat, a: nat, b: nat)
    requires ClosesPage(direntSize, buf, size, start, a) && ClosesPage(direntSize, buf, size, start, b)
    ensures a == b
  {
    if a < b { EstimateMonotone(direntSize, buf, start, a, b - 1); }
    if b < a { EstimateMonotone(direntSize, buf, start, b, a - 1); }
  }

  /** With some room offered, a page before the end of the directory has at least one entry. */
  lemma PageAdvances(direntSize: nat, buf: seq<Item>, size: nat, start: nat, end: nat)
    requires ClosesPage(direntSize, buf, size, start, end)
    ensures start <= end <= |buf|
    ensures size > 0 && start < |buf| ==> start < end
  {}

  class DirIter {
    const inner: seq<Item>
    const offset: nat
    var cur: nat

    ghost predicate Valid() reads this { cur <= |inner| }

    constructor (inner: seq<Item>, offset: nat)
      ensures Valid() && this.inner == inner && this.offset == offset && cur == 0
    {
      this.inner, this.offset, cur := inner, offset, 0;
    }

    method Next() returns (r: Option<DirEntry>)
      requires Valid()
      modifies this
      ensures Valid()
      ensures r.None? <==> old(cur) == |inner|
      ensures r.None? ==> cur == old(cur)
      ensures r.Some? ==> cur == old(cur) + 1 && r.value == Yielded(inner, offset, old(cur))
    {
      if cur >= |inner| { return None; }
      var item := inner[cur];
      cur := cur + 1;
      r := Some(DirEntry(item.entry.inode, offset + cur, item.entry.kind, item.name));
    }
  }

  /** What `DirIter::next` yields at position `cur` of an iterator that began at `offset`. */
  function Yielded(inner: seq<Item>, offset: nat, cur: nat): DirEntry
    requires cur < |inner|
  {
    DirEntry(inner[cur].entry.inode, offset + (cur + 1), inner[cur].entry.kind, inner[cur].name)
  }

  /** Computes the end of a page. */
  method PageEnd(direntSize: nat, buf: seq<Item>, size: nat, start: nat) returns (end: nat)
    requires start <= |buf|
    ensures ClosesPage(direntSize, buf, size, start, end)
    ensures size > 0 && start < |buf| ==> start < end
    ensures start <= end <= |buf|
    ensures forall k: nat :: start <= k < end ==> Estimate(direntSize, buf, start, k) < size
    ensures end < |buf| ==> Estimate(direntSize, buf, start, end) >= size
  {
    var estimate := 0;
    end := start;
    while estimate < size && end < |buf|
      invariant start <= end <= |buf| && estimate == Estimate(direntSize, buf, start, end)
      invariant forall k: nat :: start <= k < end ==> Estimate(direntSize, buf, start, k) < size
    {
      estimate := estimate + EntrySize(direntSize, buf[end]);
      end := end + 1;
    }
  }

  // ---------------------------------------------------------------------------------------
  // Listing a directory
  // ---------------------------------------------------------------------------------------

  /** One `readdir`: the buffer it found, the room offered, where the page ends, how many entries the reader uses. */
  datatype PageCall = PageCall(buf: seq<Item>, size: nat, end: nat, take: nat)

  /** The call, made at `start`, gets a page with some room offered and uses at most that page. */
  predicate CallFits(direntSize: nat, call: PageCall, start: nat)
  {
    call.size > 0 && ClosesPage(direntSize, call.buf, call.size, start, call.end) && call.take <= call.end - start
  }

  /** The entries that the reader uses, as the iterator yields them. */
  function Used(call: PageCall, start: nat): seq<DirEntry>
    requires start <= call.end <= |call.buf| && call.take <= call.end - start
  {
    seq(call.take, j requires 0 <= j < call.take => Yielded(call.buf[start..call.end], start, j))
  }

  /** Where the reader resumes: the offset reported with the last entry it used. */
  function Resume(start: nat, used: seq<DirEntry>): nat
  {
    if used == [] then start else used[|used| - 1].offset
  }

  /** What the reader has after some calls: the offset to resume at, and all entries it used, in order. */
  datatype Progress = Progress(cursor: nat, consumed: seq<DirEntry>)

  /** Every call starts at the offset reported with the last entry used before it. `None` if a call does not fit. */
  function ListingRun(direntSize: nat, calls: seq<PageCall>): Option<Progress>
  {
    if calls == [] then Some(Progress(0, []))
    else
      var before, call := ListingRun(direntSize, calls[..|calls| - 1]), calls[|calls| - 1];
      if before.None? || !CallFits(direntSize, call, before.value.cursor) then None
      else
        var used := Used(call, before.value.cursor);
        Some(Progress(Resume(before.value.cursor, used), before.value.consumed + used))
  }

  /** The first `n` entries of a directory, each with the position after it. */
  function Listing(buf: seq<Item>, n: nat): seq<DirEntry>
    requires n <= |buf|
  {
    seq(n, k requires 0 <= k < n => DirEntry(buf[k].entry.inode, k + 1, buf[k].entry.kind, buf[k].name))
  }

  /**
   Paging loses and repeats nothing: if all calls find the same buffer, the entries used after any run of
   calls are the first ones of that buffer, each once and in order, and the reader stands right after them.
   */
  lemma {:induction false} PagingIsExact(direntSize: nat, buf: seq<Item>, calls: seq<PageCall>)
    requires ListingRun(direntSize, calls).Some? && forall call :: call in calls ==> call.buf == buf
    ensures var p := ListingRun(direntSize, calls).value;
            p.cursor <= |buf| && p.consumed == Listing(buf, p.cursor)
  {
    hide ClosesPage, Estimate;
    if calls != [] {
      var before, call := calls[..|calls| - 1], calls[|calls| - 1];
      PagingIsExact(direntSize, buf, before);
      var start := ListingRun(direntSize, before).value.cursor;
      PageAdvances(direntSize, buf, call.size, start, call.end);
      UsedContinuesListing(call, start);
    }
  }

  lemma UsedContinuesListing(call: PageCall, start: nat)
    requires start <= call.end <= |call.buf| && call.take <= call.end - start
    ensures Resume(start, Used(call, start)) == start + call.take
    ensures Listing(call.buf, start) + Used(call, start) == Listing(call.buf, start + call.take)
  {
    var used := Used(call, start);
    var page := call.buf[start..call.end];
    assert forall j: nat :: j < call.take ==> used[j] == Yielded(page, start, j) && page[j] == call.buf[start + j];
  }

  /** Call `k` uses something of its page, if the page has entries. */
  ghost predicate UsesPage(direntSize: nat, calls: seq<PageCall>, k: nat)
    requires k < |calls|
  {
    var p := ListingRun(direntSize, calls[..k]);
    p.Some? && p.value.cursor < calls[k].end ==> calls[k].take > 0
  }

  /** A reader that uses something of every page that has entries is through after enough calls. */
  lemma {:induction false} PagingFinishes(direntSize: nat, buf: seq<Item>, calls: seq<PageCall>)
    requires ListingRun(direntSize, calls).Some? && forall call :: call in calls ==> call.buf == buf
    requires forall k: nat :: k < |calls| ==> UsesPage(direntSize, calls, k)
    ensures ListingRun(direntSize, calls).value.cursor >= Min(|calls|, |buf|)
    ensures |calls| >= |buf| ==> ListingRun(direntSize, calls).value.consumed == Listing(buf, |buf|)
  {
    hide ListingRun, Listing, ClosesPage, Used;
    PagingIsExact(direntSize, buf, calls);
    if calls != [] {
      var n := |calls| - 1;
      var before := calls[..n];
      LastCall(direntSize, calls);
      forall k: nat | k < n ensures UsesPage(direntSize, before, k) {
        assert before[..k] == calls[..k] && UsesPage(direntSize, calls, k);
      }
      PagingFinishes(direntSize, buf, before);
      assert UsesPage(direntSize, calls, n);
    }
  }

  /** What the last call of a run adds. */
  lemma LastCall(direntSize: nat, calls: seq<PageCall>)
    requires calls != [] && ListingRun(direntSize, calls).Some?
    ensures ListingRun(direntSize, calls[..|calls| - 1]).Some?
    ensures var call, start := calls[|calls| - 1], ListingRun(direntSize, calls[..|calls| - 1]).value.cursor;
            && ListingRun(direntSize, calls).value.cursor == start + call.take
            && start <= call.end <= |call.buf| && (start < |call.buf| ==> start < call.end)
  {
    hide Used, Listing;
    var call, start := calls[|calls| - 1], ListingRun(direntSize, calls[..|calls| - 1]).value.cursor;
    PageAdvances(direntSize, call.buf, call.size, start, call.end);
    UsedContinuesListing(call, start);
  }

  /** Each call is made at some point of the run from `k` on, and finds the buffer that is open then. */
  ghost predicate CallsDuring(ops: seq<Op<Item>>, k: nat, h: nat, calls: seq<PageCall>, times: seq<nat>)
  {
    && |times| == |calls|
    && forall c: nat :: c < |calls| ==> k <= times[c] <= |ops| && FoundAt(ops, times[c], h, calls[c].buf)
  }

  ghost predicate FoundAt(ops: seq<Op<Item>>, t: nat, h: nat, buf: seq<Item>)
  {
    t <= |ops| && h in Run(ops[..t]) && Run(ops[..t])[h].buf == buf
  }

  /**
   A reader that holds a directory open sees one and the same buffer in all its calls, whatever opens and
   releases others make in between; so its listing is exact.
   */
  lemma SessionListsOneBuffer(
    direntSize: nat, ops: seq<Op<Item>>, k: nat, h: nat, calls: seq<PageCall>, times: seq<nat>)
    requires Matched(ops) && Held(ops, k, h) && CallsDuring(ops, k, h, calls, times)
    requires ListingRun(direntSize, calls).Some?
    ensures h in Run(ops[..k])
    ensures var buf, p := Run(ops[..k])[h].buf, ListingRun(direntSize, calls).value;
            p.cursor <= |buf| && p.consumed == Listing(buf, p.cursor)
  {
    hide Run, Outstanding, ListingRun;
    HeldBufferIsStable(ops, k, h);
    var buf := Run(ops[..k])[h].buf;
    forall c: nat | c < |calls| ensures calls[c].buf == buf {
      assert FoundAt(ops, times[c], h, calls[c].buf);
      StableUpTo(ops, k, times[c], h);
    }
    PagingIsExact(direntSize, buf, calls);
  }

  lemma StableUpTo(ops: seq<Op<Item>>, k: nat, t: nat, h: nat)
    requires Matched(ops) && Held(ops, k, h) && k <= t <= |ops|
    ensures h in Run(ops[..k]) && h in Run(ops[..t]) && Run(ops[..k])[h].buf == Run(ops[..t])[h].buf
  {
    hide Run, Outstanding;
    MatchedPrefix(ops, t);
    assert forall j: nat :: j <= t ==> ops[..t][..j] == ops[..j];
    HeldBufferIsStable(ops[..t], k, h);
  }

  /** Every entry of the directory is listed exactly once, under its name, with its inode and kind. */
  ghost predicate ListsDirectory(listed: seq<DirEntry>, entries: map<Name, DirectoryEntry>)
  {
    && |listed| == |entries|
    && (forall k :: 0 <= k < |listed| ==>
          listed[k].name in entries && entries[listed[k].name] == DirectoryEntry(listed[k].ino, listed[k].kind))
    && (forall j, k :: 0 <= j < k < |listed| ==> listed[j].name != listed[k].name)
    && (forall name :: name in entries ==> exists k :: 0 <= k < |listed| && listed[k].name == name)
  }

  lemma SnapshotListing(buf: seq<Item>, entries: map<Name, DirectoryEntry>)
    requires Snapshots(buf, entries)
    ensures ListsDirectory(Listing(buf, |buf|), entries)
  {
    var listed := Listing(buf, |buf|);
    forall name | name in entries ensures exists k :: 0 <= k < |listed| && listed[k].name == name {
      var k :| 0 <= k < |buf| && buf[k] == Item(name, entries[name]);
      assert listed[k].name == name;
    }
  }

  /**
   From `opendir` to the end of the listing: if every open of the directory reads some snapshot of it, a
   reader that holds it open and pages to the end has listed every entry exactly once, no matter in
   which order each snapshot is and what others do meanwhile.
   */
  lemma DirectoryListedOnce(
    direntSize: nat, ops: seq<Op<Item>>, k: nat, h: nat, calls: seq<PageCall>, times: seq<nat>,
    entries: map<Name, DirectoryEntry>)
    requires Matched(ops) && Held(ops, k, h) && CallsDuring(ops, k, h, calls, times)
    requires forall op ::
               op in ops && op.Open? && op.h == h && op.content.Some? ==> Snapshots(op.content.value, entries)
    requires ListingRun(direntSize, calls).Some? && ListingRun(direntSize, calls).value.cursor >= |entries|
    ensures ListsDirectory(ListingRun(direntSize, calls).value.consumed, entries)
  {
    hide Run, Outstanding, ListingRun, ListsDirectory, Listing;
    SessionListsOneBuffer(direntSize, ops, k, h, calls, times);
    var i := BufferHasInserter(ops[..k], h);
    assert ops[..k][i] in ops;
    SnapshotListing(Run(ops[..k])[h].buf, entries);
  }

  // ---------------------------------------------------------------------------------------
  // The file system
  // ---------------------------------------------------------------------------------------

  /** Outcome of a read: a value, an error for a handle that is not open, or the end of the program. */
  datatype Access<+T> = Done(value: T) | NotOpen | Stopped

  /** The items of a snapshot are the entries of the directory, each once. */
  ghost predicate Snapshots(buf: seq<Item>, entries: map<Name, DirectoryEntry>)
  {
    && |buf| == |entries|
    && (forall k :: 0 <= k < |buf| ==> buf[k].name in entries && entries[buf[k].name] == buf[k].entry)
    && (forall j, k :: 0 <= j < k < |buf| ==> buf[j].name != buf[k].name)
    && (forall name :: name in entries ==> Item(name, entries[name]) in buf)
  }

  /** Copies the entries of a directory in some order. */
  method Snapshot(entries: map<Name, DirectoryEntry>) returns (buf: seq<Item>)
    ensures Snapshots(buf, entries)
  {
    buf := [];
    var rest := entries.Keys;
    while rest != {}
      invariant rest <= entries.Keys && |buf| + |rest| == |entries|
      invariant forall k :: 0 <= k < |buf| ==> buf[k].name in entries && entries[buf[k].name] == buf[k].entry
      invariant forall k :: 0 <= k < |buf| ==> buf[k].name !in rest
      invariant forall j, k :: 0 <= j < k < |buf| ==> buf[j].name != buf[k].name
      invariant forall name :: name in entries && name !in rest ==> Item(name, entries[name]) in buf
      decreases |rest|
    {
      var name :| name in rest;
      buf := buf + [Item(name, entries[name])];
      rest := rest - {name};
    }
  }

  class FileSystem {
    const table: seq<InodeData>
    const direntSize: nat
    /** What decompressing an archive member yields, or `None` if that fails. */
    const unzip: nat -> Option<seq<byte>>
    var openFiles: Buffers<byte>
    var openDirs: Buffers<Item>

    constructor (table: seq<InodeData>, direntSize: nat, unzip: nat -> Option<seq<byte>>)
      ensures openFiles == map[] && openDirs == map[] && HoldsMembers()
      ensures this.table == table && this.unzip == unzip && this.direntSize == direntSize
    {
      this.table, this.direntSize, this.unzip, openFiles, openDirs := table, direntSize, unzip, map[], map[];
    }

    /** The inode is a file. */
    predicate IsFile(inode: nat) { 1 <= inode < |table| && table[inode].data.File? }

    /** The content an `open` of this inode would read: none for a missing inode or a directory. */
    function FileContent(inode: nat): Option<seq<byte>>
    {
      if IsFile(inode) then unzip(table[inode].data.zipIndex) else None
    }

    /** Every open file holds the archive member of its inode. */
    ghost predicate HoldsMembers()
      reads this
    {
      forall h :: h in openFiles ==>
        1 <= h < |table| && table[h].data.File? && unzip(table[h].data.zipIndex) == Some(openFiles[h].buf)
    }

    /**
     `open`: shares a buffer that is there, or reads the member that the inode names, which fails exactly when
     the inode is missing or a directory or the member cannot be read.
     */
    method Open(inode: nat) returns (handle: Option<nat>)
      requires inode in openFiles ==> openFiles[inode].openCount < U32_MAX
      modifies this`openFiles
      ensures var o := Opened(old(openFiles), inode, FileContent(inode));
              if o.Some? then handle == Some(inode) && openFiles == o.value
              else handle == None && openFiles == old(openFiles)
      ensures inode in old(openFiles) ==> (handle.Some? <==> old(openFiles)[inode].openCount > 0)
      ensures inode in old(openFiles) && handle.Some? ==>
                var was := old(openFiles)[inode];
                openFiles == old(openFiles)[inode := OpenBuf(was.openCount + 1, was.buf)]
      ensures inode !in old(openFiles) ==>
                (handle.Some? <==>
                   1 <= inode < |table| && table[inode].data.File? && unzip(table[inode].data.zipIndex).Some?)
      ensures inode !in old(openFiles) && handle.Some? ==>
                && openFiles == old(openFiles)[inode := OpenBuf(1, openFiles[inode].buf)]
                && unzip(table[inode].data.zipIndex) == Some(openFiles[inode].buf)
      ensures old(HoldsMembers()) ==> HoldsMembers()
    {
      if inode in openFiles {
        var ofb := openFiles[inode];
        if ofb.openCount == 0 { return None; }
        openFiles := openFiles[inode := ofb.(openCount := ofb.openCount + 1)];
      } else {
        var data := Get(table, inode);
        if data.None? { return None; }
        if data.value.IsDir() { return None; }
        var buf := unzip(data.value.data.zipIndex);
        if buf.None? { return None; }
        openFiles := openFiles[inode := OpenBuf(1, buf.value)];
      }
      handle := Some(inode);
    }

    method ReleaseFile(inode: nat) returns (ok: bool)
      modifies this`openFiles
      ensures var o := Released(old(openFiles), inode);
              ok == o.Some? && openFiles == if o.Some? then o.value else old(openFiles)
      ensures ok <==> inode in old(openFiles) && old(openFiles)[inode].openCount > 0
      ensures openFiles == if ok && old(openFiles)[inode].openCount == 1 then old(openFiles) - {inode}
                           else old(openFiles)
      ensures old(HoldsMembers()) ==> HoldsMembers()
    {
      if inode !in openFiles { return false; }
      if openFiles[inode].openCount < 1 { return false; }
      if openFiles[inode].openCount - 1 == 0 { openFiles := openFiles - {inode}; }
      ok := true;
    }

    /** Bytes of an open file, clipped at its end; an offset past the end stops the program. */
    method Read(handle: nat, size: nat, offset: nat) returns (r: Access<seq<byte>>)
      ensures r.NotOpen? <==> handle !in openFiles || openFiles[handle].openCount == 0
      ensures r.Stopped? <==> !r.NotOpen? && |openFiles[handle].buf| < offset
      ensures r.Done? ==> r.value <= openFiles[handle].buf[offset..]
      ensures r.Done? ==> |r.value| == Min(size, |openFiles[handle].buf| - offset)
    {
      if handle !in openFiles { return NotOpen; }
      var ofb := openFiles[handle];
      if ofb.openCount == 0 { return NotOpen; }
      var end := Min(offset + size, |ofb.buf|);
      if end < offset { return Stopped; }
      r := Done(ofb.buf[offset..end]);
    }

    method OpenDir(inode: nat) returns (handle: Option<nat>)
      requires inode in openDirs ==> openDirs[inode].openCount < U32_MAX
      modifies this`openDirs
      ensures handle.None? ==> openDirs == old(openDirs)
      ensures handle.Some? ==> handle.value == inode && inode in openDirs
      ensures handle.Some? ==> Opened(old(openDirs), inode, Some(openDirs[inode].buf)) == Some(openDirs)
      ensures inode !in old(openDirs) ==>
                (handle.Some? <==> 1 <= inode < |table| && table[inode].data.Directory?)
      ensures handle.Some? && inode !in old(openDirs) ==>
                && openDirs == old(openDirs)[inode := OpenBuf(1, openDirs[inode].buf)]
                && Snapshots(openDirs[inode].buf, table[inode].data.entries)
      ensures inode in old(openDirs) ==> (handle.Some? <==> old(openDirs)[inode].openCount > 0)
      ensures inode in old(openDirs) && handle.Some? ==>
                var was := old(openDirs)[inode];
                openDirs == old(openDirs)[inode := OpenBuf(was.openCount + 1, was.buf)]
    {
      if inode in openDirs {
        var odb := openDirs[inode];
        if odb.openCount == 0 { return None; }
        openDirs := openDirs[inode := odb.(openCount := odb.openCount + 1)];
      } else {
        var data := Get(table, inode);
        if data.None? { return None; }
        if !data.value.IsDir() { return None; }
        var buf := Snapshot(data.value.data.entries);
        openDirs := openDirs[inode := OpenBuf(1, buf)];
      }
      handle := Some(inode);
    }

    method ReleaseDir(inode: nat) returns (ok: bool)
      modifies this`openDirs
      ensures var o := Released(old(openDirs), inode);
              ok == o.Some? && openDirs == if o.Some? then o.value else old(openDirs)
      ensures ok <==> inode in old(openDirs) && old(openDirs)[inode].openCount > 0
      ensures openDirs == if ok && old(openDirs)[inode].openCount == 1 then old(openDirs) - {inode}
                          else old(openDirs)
    {
      if inode !in openDirs { return false; }
      if openDirs[inode].openCount < 1 { return false; }
      if openDirs[inode].openCount - 1 == 0 { openDirs := openDirs - {inode}; }
      ok := true;
    }

    /** One page of an open directory, starting at `offset`; an offset past the end stops the program. */
    method ReadDir(inode: nat, size: nat, offset: nat) returns (r: Access<DirIter>)
      ensures r.NotOpen? <==> inode !in openDirs || openDirs[inode].openCount == 0
      ensures r.Stopped? <==> !r.NotOpen? && |openDirs[inode].buf| < offset
      ensures r.Done? ==> fresh(r.value) && r.value.Valid() && r.value.cur == 0 && r.value.offset == offset
      ensures r.Done? ==> ClosesPage(direntSize, openDirs[inode].buf, size, offset, offset + |r.value.inner|)
      ensures r.Done? ==> r.value.inner == openDirs[inode].buf[offset..offset + |r.value.inner|]
    {
      if inode !in openDirs { return NotOpen; }
      var odb := openDirs[inode];
      if odb.openCount == 0 { return NotOpen; }
      if |odb.buf| < offset { return Stopped; }
      var end := PageEnd(direntSize, odb.buf, size, offset);
      var it := new DirIter(odb.buf[offset..end], offset);
      r := Done(it);
    }
  }

  /**
   A reader of an open directory: it asks for pages with any room, uses any positive number of entries of
   each, and resumes at the offset of the last entry it used, until a page is empty. It ends, with every
   entry of the snapshot once and in order.
   */
  method ListDirectory(fs: FileSystem, inode: nat, rooms: nat -> nat, takes: nat -> nat) returns (listed: seq<DirEntry>)
    requires inode in fs.openDirs && fs.openDirs[inode].openCount > 0
    requires forall n: nat :: rooms(n) > 0 && takes(n) > 0
    ensures listed == Listing(fs.openDirs[inode].buf, |fs.openDirs[inode].buf|)
  {
    hide ClosesPage, Estimate;
    ghost var buf := fs.openDirs[inode].buf;
    listed := [];
    var cursor, n := 0, 0;
    while true
      invariant cursor <= |buf| && listed == Listing(buf, cursor)
      decreases |buf| - cursor
    {
      var page := fs.ReadDir(inode, rooms(n), cursor);
      var it := page.value;
      ghost var end := cursor + |it.inner|;
      PageAdvances(fs.direntSize, buf, rooms(n), cursor, end);
      var entry := it.Next();
      if entry.None? { break; }
      listed, cursor := listed + [entry.value], entry.value.offset;
      var used := 1;
      while used < takes(n)
        invariant it.Valid() && fresh(it) && it.offset + it.cur == cursor <= end && 1 <= it.cur
        invariant listed == Listing(buf, cursor)
      {
        entry := it.Next();
        if entry.None? { break; }
        listed, cursor := listed + [entry.value], entry.value.offset;
        used := used + 1;
      }
      n := n + 1;
    }
    assert cursor == |buf|;
  }

  /**
   From the archive to the bytes: over a table built from the archive, opening the inode of a path whose first
   entry is a file, and reading from it, yields the bytes of exactly that archive member, or fails because
   that member cannot be read.
   */
  method ReadMember(
    fs: FileSystem, archive: seq<ZipEntry>, ghost y: Layout, p: Path, f: nat, inode: nat, size: nat, offset: nat)
    returns (r: Access<seq<byte>>)
    requires ArchiveOutcome(archive, |archive|).Built? && f < |archive| && FirstAt(archive, p, f)
    requires archive[f].name == Some(p) && archive[f].isFile
    requires Represents(fs.table, y, ArchiveOutcome(archive, |archive|).tree) && Resolve(fs.table, p) == Some(inode)
    requires fs.HoldsMembers() && (inode in fs.openFiles ==> 0 < fs.openFiles[inode].openCount < U32_MAX)
    modifies fs`openFiles
    ensures fs.HoldsMembers()
    ensures r.NotOpen? <==> fs.unzip(f).None?
    ensures r.Stopped? <==> fs.unzip(f).Some? && |fs.unzip(f).value| < offset
    ensures r.Done? ==> r.value <= fs.unzip(f).value[offset..] && |r.value| == Min(size, |fs.unzip(f).value| - offset)
  {
    hide ArchiveOutcome, Represents, Resolve, FirstAt;
    InodeFromArchive(archive, fs.table, y, p, f);
    var handle := fs.Open(inode);
    if handle.None? { return NotOpen; }
    r := fs.Read(handle.value, size, offset);
  }
}
