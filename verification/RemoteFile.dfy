/**
 Files behind the FD server: the server's request checks, and the client's chunk reads, writes and
 resizes on top of them.
 */
module RemoteFile {
  import opened Common
  import opened Verifier
  import opened FuseRead

  const I64_MAX: nat := 0x7FFF_FFFF_FFFF_FFFF
  const I32_MAX: nat := 0x7FFF_FFFF
  const MAX_REQUESTING_DATA: int := 16384

  datatype Status = IllegalArgument | UnknownFd | InvalidOperation | ErrorIo

  datatype BinderResult<+T> = Fine(value: T) | Exception(status: Status)

  datatype FdConfig = Readonly(file: seq<byte>) | ReadWrite(file: seq<byte>)

  type FdPool = map<int, FdConfig>

  /** The largest values of the signed types on the wire. */
  lemma WireLimits()
    ensures I64_MAX == 9223372036854775807 && I32_MAX == 2147483647
  {}

  // ---------------------------------------------------------------------------------------
  // Server
  // ---------------------------------------------------------------------------------------

  function ValidateAndCastOffset(offset: int): BinderResult<nat>
  {
    if offset < 0 then Exception(IllegalArgument) else Fine(offset)
  }

  function ValidateAndCastSize(size: int): BinderResult<nat>
  {
    if size > MAX_REQUESTING_DATA || size < 0 then Exception(IllegalArgument) else Fine(size)
  }

  /** Reads from `offset` up to `maxSize` bytes or the end of the file. */
  function ReadIntoBuf(file: seq<byte>, maxSize: nat, offset: nat): (s: seq<byte>)
    ensures s == FileRange(file, offset, maxSize)
    ensures |s| <= maxSize && (s == [] || offset + |s| <= |file|)
    ensures forall p: nat :: offset <= p < offset + maxSize && p < |file| ==>
              p - offset < |s| && s[p - offset] == file[p]
  {
    RangeIsExact(file, offset, maxSize, FileRange(file, offset, maxSize));
    var remaining := if |file| < offset then 0 else |file| - offset;
    var bufSize := Min(remaining, maxSize);
    if bufSize == 0 then [] else file[offset..offset + bufSize]
  }

  /** `readFile`; `io` says whether reading the file itself goes well. */
  function ReadFile(pool: FdPool, id: int, offset: int, size: int, io: bool): BinderResult<seq<byte>>
  {
    match ValidateAndCastSize(size)
    case Exception(status) => Exception(status)
    case Fine(n) =>
      match ValidateAndCastOffset(offset)
      case Exception(status) => Exception(status)
      case Fine(off) =>
        if id !in pool then Exception(UnknownFd)
        else if !io then Exception(ErrorIo)
        else Fine(ReadIntoBuf(pool[id].file, n, off))
  }

  /** When a read request is answered, and each refusal; sizes up to 16384 are allowed. */
  lemma ReadFileAnswers(pool: FdPool, id: int, offset: int, size: int, io: bool)
    ensures var r := ReadFile(pool, id, offset, size, io);
            var fits := 0 <= size <= 16384 && 0 <= offset;
            && (r.Fine? <==> fits && id in pool && io)
            && (r == Exception(IllegalArgument) <==> !fits)
            && (r == Exception(UnknownFd) <==> fits && id !in pool)
            && (r == Exception(ErrorIo) <==> fits && id in pool && !io)
            && (r.Fine? ==> r.value == FileRange(pool[id].file, offset, size))
  {}

  /** A writable descriptor of the pool. */
  predicate Writable(pool: FdPool, id: int) { id in pool && pool[id].ReadWrite? }

  class FdService {
    var pool: FdPool

    /** Writes to a writable file; the file system takes at most `io.value` bytes, or fails (`None`). */
    method WriteFile(id: int, buf: seq<byte>, offset: int, io: Option<nat>) returns (r: BinderResult<nat>)
      modifies this
      ensures r.Fine? <==> Writable(old(pool), id) && 0 <= offset && |buf| <= I32_MAX && io.Some?
      ensures r.Fine? ==> r.value == Min(|buf|, io.value)
      ensures r.Fine? ==> pool == old(pool)[id := ReadWrite(Splice(old(pool)[id].file, offset, buf[..r.value]))]
      ensures r.Exception? ==> pool == old(pool)
      ensures r == Exception(UnknownFd) <==> id !in old(pool)
      ensures r == Exception(InvalidOperation) <==> id in old(pool) && old(pool)[id].Readonly?
      ensures r == Exception(IllegalArgument) <==> Writable(old(pool), id) && (offset < 0 || |buf| > I32_MAX)
      ensures r == Exception(ErrorIo) <==> Writable(old(pool), id) && 0 <= offset && |buf| <= I32_MAX && io.None?
    {
      if id !in pool { return Exception(UnknownFd); }
      match pool[id] {
        case Readonly(_) => return Exception(InvalidOperation);
        case ReadWrite(file) =>
          if offset < 0 { return Exception(IllegalArgument); }
          if |buf| > I32_MAX { return Exception(IllegalArgument); }
          if io.None? { return Exception(ErrorIo); }
          var n := Min(|buf|, io.value);
          pool := pool[id := ReadWrite(Splice(file, offset, buf[..n]))];
          return Fine(n);
      }
    }

    method Resize(id: int, size: int, io: bool) returns (r: BinderResult<()>)
      modifies this
      ensures r.Fine? <==> Writable(old(pool), id) && 0 <= size && io
      ensures r.Fine? ==> pool == old(pool)[id := ReadWrite(Truncate(old(pool)[id].file, size))]
      ensures r.Exception? ==> pool == old(pool)
      ensures r == Exception(UnknownFd) <==> id !in old(pool)
      ensures r == Exception(InvalidOperation) <==> id in old(pool) && old(pool)[id].Readonly?
      ensures r == Exception(IllegalArgument) <==> Writable(old(pool), id) && size < 0
      ensures r == Exception(ErrorIo) <==> Writable(old(pool), id) && 0 <= size && !io
    {
      if id !in pool { return Exception(UnknownFd); }
      match pool[id] {
        case Readonly(_) => return Exception(InvalidOperation);
        case ReadWrite(file) =>
          if size < 0 { return Exception(IllegalArgument); }
          if !io { return Exception(ErrorIo); }
          pool := pool[id := ReadWrite(Truncate(file, size))];
          return Fine(());
      }
    }
  }

  // ---------------------------------------------------------------------------------------
  // Clients
  // ---------------------------------------------------------------------------------------

  /**
   `LocalFileReader::read_chunk`: the chunk of the file as it is now, cut at the size recorded when it was
   opened. Fails when the file has become too short for that, or when reading it fails.
   */
  method LocalReadChunk(file: seq<byte>, recordedSize: nat, index: nat, buf: array<byte>, io: bool)
    returns (size: Option<nat>)
    requires buf.Length == 4096 && 4096 * index <= U64_MAX
    modifies buf
    ensures size.None? <==> 4096 * index < recordedSize && (!io || |file| < Min(recordedSize, 4096 * index + 4096))
    ensures size.Some? ==> size.value == |ChunkBytes(Truncate(file, recordedSize), index)|
    ensures size.Some? ==> buf[..] == ChunkBytes(Truncate(file, recordedSize), index) + old(buf[..])[size.value..]
    ensures recordedSize == |file| && io ==> size.Some? && Truncate(file, recordedSize) == file
  {
    ghost var cut := Truncate(file, recordedSize);
    assert recordedSize == |file| ==> cut == file;
    var start := index * 4096;
    if start >= recordedSize {
      assert ChunkBytes(cut, index) == [];
      return Some(0);
    }
    var end := Min(recordedSize, start + 4096);
    if !io { return None; }
    if |file| < end {
      if start < |file| { CopyInto(buf, file[start..]); }
      return None;
    }
    CopyInto(buf, file[start..end]);
    assert ChunkBytes(cut, index) == file[start..end];
    return Some(end - start);
  }

  /** Outcome of a remote chunk read, as a chunk source would report it. */
  function RemoteReply(pool: FdPool, fd: int, index: nat, io: bool): Reply
  {
    if 4096 * index > I64_MAX then Failed
    else match ReadFile(pool, fd, 4096 * index, 4096, io)
      case Exception(_) => Failed
      case Fine(chunk) => Got(chunk[..Min(4096, |chunk|)])
  }

  /** `remote_read_chunk`. */
  method RemoteReadChunk(service: FdService, fd: int, index: nat, buf: array<byte>, io: bool)
    returns (size: Option<nat>)
    requires buf.Length == 4096 && 4096 * index <= U64_MAX
    modifies buf
    ensures size.None? <==> RemoteReply(service.pool, fd, index, io).Failed?
    ensures size.Some? <==> fd in service.pool && 4096 * index <= I64_MAX && io
    ensures size.Some? ==> var bytes := ChunkBytes(service.pool[fd].file, index);
                           size.value == |bytes| && buf[..] == bytes + old(buf[..])[|bytes|..]
    ensures size.None? ==> buf[..] == old(buf[..])
    ensures size.Some? ==> var bytes := RemoteReply(service.pool, fd, index, io).bytes;
                           size.value == |bytes| && buf[..] == bytes + old(buf[..])[|bytes|..]
  {
    var offset := index * 4096;
    if fd in service.pool { RemoteRefinesLocal(service.pool, fd, index, io); }
    if offset > I64_MAX { return None; }
    var chunk := ReadFile(service.pool, fd, offset, buf.Length, io);
    if chunk.Exception? { return None; }
    var n := Min(buf.Length, |chunk.value|);
    CopyInto(buf, chunk.value[..n]);
    return Some(n);
  }

  /**
   Remote refines local: for a file the server knows, a remote chunk read yields exactly what a local
   one does, up to the last partial chunk and past the end, if and only if the offset fits in 63 bits
   and the server can read its file.
   */
  lemma RemoteRefinesLocal(pool: FdPool, fd: int, index: nat, io: bool)
    requires fd in pool
    ensures RemoteReply(pool, fd, index, io) == Got(ChunkBytes(pool[fd].file, index)) <==> 4096 * index <= I64_MAX && io
  {
    var file, off := pool[fd].file, 4096 * index;
    var chunk := ReadIntoBuf(file, 4096, off);
    assert chunk[..Min(4096, |chunk|)] == chunk;
    assert chunk == ChunkBytes(file, index);
  }

  /** `RemoteFileEditor::write_at`: one splice of a prefix, or an error that changes nothing. */
  method RemoteWriteAt(service: FdService, fd: int, buf: seq<byte>, offset: nat, io: Option<nat>)
    returns (r: Option<nat>)
    modifies service
    ensures r.Some? <==> Writable(old(service.pool), fd) && offset <= I64_MAX && |buf| <= I32_MAX && io.Some?
    ensures r.Some? ==> r.value == Min(|buf|, io.value)
    ensures r.Some? ==>
              var file := Splice(old(service.pool)[fd].file, offset, buf[..r.value]);
              service.pool == old(service.pool)[fd := ReadWrite(file)]
    ensures r.None? ==> service.pool == old(service.pool)
  {
    if offset > I64_MAX { return None; }
    var n := service.WriteFile(fd, buf, offset, io);
    r := if n.Fine? then Some(n.value) else None;
  }

  /** `RemoteFileEditor::resize`. */
  method RemoteResize(service: FdService, fd: int, size: nat, io: bool) returns (ok: bool)
    modifies service
    ensures ok <==> Writable(old(service.pool), fd) && size <= I64_MAX && io
    ensures ok ==> service.pool == old(service.pool)[fd := ReadWrite(Truncate(old(service.pool)[fd].file, size))]
    ensures !ok ==> service.pool == old(service.pool)
  {
    if size > I64_MAX { return false; }
    var r := service.Resize(fd, size, io);
    ok := r.Fine?;
  }
}
