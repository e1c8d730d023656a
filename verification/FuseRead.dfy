/**
 The FUSE read path: any byte range, assembled from whole chunks of a chunk source.
 */
module FuseRead {
  import opened Common
  import opened Crypto
  import opened Geometry
  import opened Merkle
  import opened Verifier

  datatype Errno = ENODATA | EIO | ReaderError | WriterError

  datatype IoResult = Ok(n: nat) | Err(errno: Errno)

  /** What the reply writer does with the bytes of its `t`-th call: refuses, or takes at most `n` of them. */
  datatype WriteReply = Refused | Takes(n: nat)

  /** Number of bytes a read may return: the request clipped at the end of the file. */
  function SizeToRead(fileSize: nat, offset: nat, size: nat): nat
  {
    Min(size, if fileSize < offset then 0 else fileSize - offset)
  }

  /** The bytes a read of a plain file returns. */
  function FileRange(content: seq<byte>, offset: nat, size: nat): (s: seq<byte>)
    ensures |s| == SizeToRead(|content|, offset, size)
  {
    if |content| < offset then [] else content[offset..offset + SizeToRead(|content|, offset, size)]
  }

  /** `s` holds no more than was asked for, nothing past the end, and every byte that was asked for in its place. */
  ghost predicate HasRange(content: seq<byte>, offset: nat, size: nat, s: seq<byte>)
  {
    && |s| <= size && (s == [] || offset + |s| <= |content|)
    && forall p: nat :: offset <= p < offset + size && p < |content| ==>
         p - offset < |s| && s[p - offset] == content[p]
  }

  /** The range of a file, byte by byte; nothing else is it. */
  lemma RangeIsExact(content: seq<byte>, offset: nat, size: nat, s: seq<byte>)
    ensures s == FileRange(content, offset, size) <==> HasRange(content, offset, size, s)
  {
    hide FileRange, HasRange;
    var range := FileRange(content, offset, size);
    RangeHasRange(content, offset, size);
    if HasRange(content, offset, size, s) {
      SameLength(content, offset, size, s, range);
      forall j: nat | j < |s| ensures s[j] == range[j] { SameByte(content, offset, size, s, range, j); }
    }
  }

  lemma RangeHasRange(content: seq<byte>, offset: nat, size: nat)
    ensures HasRange(content, offset, size, FileRange(content, offset, size))
  {}

  lemma SameByte(content: seq<byte>, offset: nat, size: nat, s: seq<byte>, t: seq<byte>, j: nat)
    requires HasRange(content, offset, size, s) && HasRange(content, offset, size, t) && j < |s| && j < |t|
    ensures s[j] == t[j]
  {
    var p := offset + j;
    assert content[p] == s[p - offset];
  }

  lemma NotShorter(content: seq<byte>, offset: nat, size: nat, s: seq<byte>, t: seq<byte>)
    requires HasRange(content, offset, size, s) && HasRange(content, offset, size, t)
    ensures |s| <= |t|
  {
    if s != [] {
      var p := offset + |s| - 1;
      assert content[p] == s[p - offset];
    }
  }

  lemma SameLength(content: seq<byte>, offset: nat, size: nat, s: seq<byte>, t: seq<byte>)
    requires HasRange(content, offset, size, s) && HasRange(content, offset, size, t)
    ensures |s| == |t|
  {
    hide HasRange;
    NotShorter(content, offset, size, s, t);
    NotShorter(content, offset, size, t, s);
  }

  /** Nothing is to be read exactly for an empty request or one that starts at or past the end. */
  lemma NothingToReadIff(fileSize: nat, offset: nat, size: nat)
    ensures SizeToRead(fileSize, offset, size) == 0 <==> size == 0 || fileSize <= offset
  {}

  /** The pieces that `read_chunks` asks for. */
  function ReadTiles(fileSize: nat, offset: nat, size: nat): seq<Tile>
  {
    Tiles(SizeToRead(fileSize, offset, size), offset, 4096)
  }

  function OffsetToChunkIndex(offset: nat): nat { offset / 4096 }

  /** Every reply to the calls of this read that is not an error is the padded chunk of `content`. */
  ghost predicate RepliesTrue(file: Source, content: seq<byte>, tiles: seq<Tile>)
  {
    forall t: nat :: t < |tiles| ==>
      var i := OffsetToChunkIndex(tiles[t].offset);
      file(t, i).Got? ==> Buffer(file(t, i)) == ChunkBlock(content, i)
  }

  /** What goes wrong with piece `t`, if anything: the checks in the order they are made. */
  function FailureAt(file: Source, tiles: seq<Tile>, accept: nat -> WriteReply, t: nat): Option<Errno>
    requires t < |tiles|
  {
    var reply := file(t, OffsetToChunkIndex(tiles[t].offset));
    if reply.Failed? then Some(ReaderError)
    else if |reply.bytes| < tiles[t].size then Some(ENODATA)
    else if accept(t).Refused? then Some(WriterError)
    else if accept(t).n < tiles[t].size then Some(EIO)
    else None
  }

  /** What each error number of a piece stands for. */
  lemma FailureMeans(file: Source, tiles: seq<Tile>, accept: nat -> WriteReply, t: nat)
    requires t < |tiles|
    ensures var reply := file(t, tiles[t].offset / 4096);
            var served := reply.Got? && |reply.bytes| >= tiles[t].size;
            && (FailureAt(file, tiles, accept, t) == Some(ReaderError) <==> reply.Failed?)
            && (FailureAt(file, tiles, accept, t) == Some(ENODATA) <==> reply.Got? && |reply.bytes| < tiles[t].size)
            && (FailureAt(file, tiles, accept, t) == Some(WriterError) <==> served && accept(t).Refused?)
            && (FailureAt(file, tiles, accept, t) == Some(EIO) <==>
                  served && accept(t).Takes? && accept(t).n < tiles[t].size)
            && (FailureAt(file, tiles, accept, t) == None <==>
                  served && accept(t).Takes? && accept(t).n >= tiles[t].size)
  {}

  /** Nothing goes wrong before piece `n`. */
  ghost predicate NoFailureBefore(file: Source, tiles: seq<Tile>, accept: nat -> WriteReply, n: nat)
    requires n <= |tiles|
  {
    forall t: nat :: t < n ==> FailureAt(file, tiles, accept, t).None?
  }

  /** The first `n` pieces, each cut out of the zero-padded reply to its call, one after the other. */
  function Assembled(file: Source, tiles: seq<Tile>, n: nat): seq<byte>
    requires n <= |tiles|
  {
    if n == 0 then [] else Assembled(file, tiles, n - 1) + PieceOf(file, tiles, n - 1)
  }

  function PieceOf(file: Source, tiles: seq<Tile>, t: nat): seq<byte>
    requires t < |tiles|
  {
    var reply, begin := file(t, OffsetToChunkIndex(tiles[t].offset)), tiles[t].offset % 4096;
    if reply.Failed? || begin + tiles[t].size > 4096 then [] else Buffer(reply)[begin..begin + tiles[t].size]
  }

  ghost predicate FirstFailureIs(file: Source, tiles: seq<Tile>, accept: nat -> WriteReply, errno: Errno)
  {
    exists t: nat ::
      t < |tiles| && NoFailureBefore(file, tiles, accept, t) && FailureAt(file, tiles, accept, t) == Some(errno)
  }

  lemma RepliesAt(file: Source, content: seq<byte>, tiles: seq<Tile>, t: nat)
    requires t < |tiles|
    ensures var i := OffsetToChunkIndex(tiles[t].offset);
            RepliesTrue(file, content, tiles) && file(t, i).Got? ==> Buffer(file(t, i)) == ChunkBlock(content, i)
  {}

  lemma TileOfBlock(content: seq<byte>, off: nat, k: nat)
    requires off % 4096 + k <= 4096 && off + k <= |content|
    ensures ChunkBlock(content, off / 4096)[off % 4096..off % 4096 + k] == content[off..off + k]
    ensures k <= |ChunkBytes(content, off / 4096)|
  {
    var block, begin := ChunkBlock(content, off / 4096), off % 4096;
    var piece, wanted := block[begin..begin + k], content[off..off + k];
    forall j | 0 <= j < k ensures piece[j] == wanted[j] {
      assert block[begin + j] == ByteAt(content, 4096 * (off / 4096) + (begin + j));
    }
  }

  lemma NoneBeforeFirst(file: Source, tiles: seq<Tile>, accept: nat -> WriteReply)
    ensures NoFailureBefore(file, tiles, accept, 0) && AnsweredBefore(file, tiles, 0)
  {}

  lemma FailureOrNext(file: Source, tiles: seq<Tile>, accept: nat -> WriteReply, t: nat)
    requires t < |tiles| && NoFailureBefore(file, tiles, accept, t)
    ensures FailureAt(file, tiles, accept, t).None? ==> NoFailureBefore(file, tiles, accept, t + 1)
    ensures AnsweredBefore(file, tiles, t) && file(t, OffsetToChunkIndex(tiles[t].offset)).Got? ==>
              AnsweredBefore(file, tiles, t + 1)
    ensures FailureAt(file, tiles, accept, t).Some? ==> !NoFailureBefore(file, tiles, accept, |tiles|)
  {}

  /** Copies a reply over the front of a chunk buffer. */
  method CopyInto(buf: array<byte>, bytes: seq<byte>)
    requires |bytes| <= buf.Length
    modifies buf
    ensures buf[..] == bytes + old(buf[..])[|bytes|..]
  {
    forall j | 0 <= j < |bytes| { buf[j] := bytes[j]; }
  }

  /** Reads the chunk of one piece into a zeroed buffer and cuts the piece out of it. */
  method ReadPiece(file: Source, t: nat, tile: Tile) returns (e: Option<Errno>, piece: seq<byte>)
    requires tile.offset % 4096 + tile.size <= 4096
    ensures var reply := file(t, OffsetToChunkIndex(tile.offset));
            && (e == if reply.Failed? then Some(ReaderError)
                     else if |reply.bytes| < tile.size then Some(ENODATA) else None)
            && (e.None? ==> piece == Buffer(reply)[tile.offset % 4096..tile.offset % 4096 + tile.size])
  {
    piece := [];
    var buf := new byte[4096](_ => 0);
    var reply := file(t, OffsetToChunkIndex(tile.offset));
    if reply.Failed? { return Some(ReaderError), []; }
    assert buf[..] == Zeros(4096);
    assert Zeros(4096)[|reply.bytes|..] == Zeros(4096 - |reply.bytes|);
    CopyInto(buf, reply.bytes);
    assert buf[..] == Buffer(reply);
    if |reply.bytes| < tile.size { return Some(ENODATA), []; }
    var begin := tile.offset % 4096;
    var end := begin + tile.size;
    return None, buf[begin..end];
  }

  /** A piece cut out of the true block continues the range that was read so far. */
  lemma PieceContinuesRange(content: seq<byte>, offset: nat, size: nat, total: nat, tile: Tile)
    requires tile.offset == offset + total && total + tile.size <= SizeToRead(|content|, offset, size)
    requires tile.size > 0 && tile.offset % 4096 + tile.size <= 4096
    ensures var range := FileRange(content, offset, size);
            var begin := tile.offset % 4096;
            range[..total + tile.size]
            == range[..total] + ChunkBlock(content, OffsetToChunkIndex(tile.offset))[begin..begin + tile.size]
    ensures tile.size <= |ChunkBytes(content, OffsetToChunkIndex(tile.offset))|
  {
    hide ChunkBlock, ChunkBytes, FileRange;
    TileOfBlock(content, tile.offset, tile.size);
    RangeSlice(content, offset, size, total, total + tile.size);
  }

  lemma RangeSlice(content: seq<byte>, offset: nat, size: nat, a: nat, b: nat)
    requires a <= b <= SizeToRead(|content|, offset, size)
    ensures a < b ==> offset + b <= |content|
    ensures a < b ==> FileRange(content, offset, size)[a..b] == content[offset + a..offset + b]
    ensures var range := FileRange(content, offset, size); range[..b] == range[..a] + range[a..b]
  {}

  /** The first `n` calls were answered. */
  ghost predicate AnsweredBefore(file: Source, tiles: seq<Tile>, n: nat)
    requires n <= |tiles|
  {
    forall t: nat :: t < n ==> file(t, OffsetToChunkIndex(tiles[t].offset)).Got?
  }

  /** Over true replies, the pieces so far are the beginning of the requested range, up to the next piece. */
  lemma {:induction false} AssembledIsRange(file: Source, content: seq<byte>, offset: nat, size: nat, n: nat)
    requires var tiles := ReadTiles(|content|, offset, size);
             n <= |tiles| && AnsweredBefore(file, tiles, n) && RepliesTrue(file, content, tiles)
    ensures var tiles := ReadTiles(|content|, offset, size);
            var total := |Assembled(file, tiles, n)|;
            && total <= SizeToRead(|content|, offset, size)
            && Assembled(file, tiles, n) == FileRange(content, offset, size)[..total]
            && (if n < |tiles| then tiles[n].offset == offset + total else total == SizeToRead(|content|, offset, size))
  {
    hide FileRange, ChunkBlock, ChunkBytes, RepliesTrue, Tiles, Assembled, Buffer, OffsetToChunkIndex, SizeToRead;
    var tiles := ReadTiles(|content|, offset, size);
    if n == 0 {
      NothingAssembled(file, tiles);
      FirstTile(SizeToRead(|content|, offset, size), offset);
    } else {
      AssembledIsRange(file, content, offset, size, n - 1);
      TileFacts(SizeToRead(|content|, offset, size), offset, n - 1);
      RepliesAt(file, content, tiles, n - 1);
      PieceContinuesRange(content, offset, size, |Assembled(file, tiles, n - 1)|, tiles[n - 1]);
      var begin := tiles[n - 1].offset % 4096;
      var block := ChunkBlock(content, OffsetToChunkIndex(tiles[n - 1].offset));
      AssembledOneMore(file, tiles, n - 1, block[begin..begin + tiles[n - 1].size]);
    }
  }

  lemma PrefixOfRange(file: Source, content: seq<byte>, offset: nat, size: nat, n: nat)
    requires n <= |ReadTiles(|content|, offset, size)| && AnsweredBefore(file, ReadTiles(|content|, offset, size), n)
    ensures RepliesTrue(file, content, ReadTiles(|content|, offset, size)) ==>
              && Assembled(file, ReadTiles(|content|, offset, size), n) <= FileRange(content, offset, size)
              && (n == |ReadTiles(|content|, offset, size)| ==>
                    Assembled(file, ReadTiles(|content|, offset, size), n) == FileRange(content, offset, size))
  {
    hide Assembled, FileRange, RepliesTrue, ReadTiles, AnsweredBefore;
    if RepliesTrue(file, content, ReadTiles(|content|, offset, size)) {
      AssembledIsRange(file, content, offset, size, n);
    }
  }

  lemma NothingAssembled(file: Source, tiles: seq<Tile>)
    ensures Assembled(file, tiles, 0) == []
  {}

  lemma AssembledOneMore(file: Source, tiles: seq<Tile>, t: nat, piece: seq<byte>)
    requires t < |tiles| && tiles[t].offset % 4096 + tiles[t].size <= 4096
    requires var reply, begin := file(t, OffsetToChunkIndex(tiles[t].offset)), tiles[t].offset % 4096;
             reply.Got? && piece == Buffer(reply)[begin..begin + tiles[t].size]
    ensures Assembled(file, tiles, t + 1) == Assembled(file, tiles, t) + piece
  {}

  lemma FirstTile(length: nat, offset: nat)
    ensures Tiles(length, offset, 4096) == [] <==> length == 0
    ensures length > 0 ==> Tiles(length, offset, 4096)[0].offset == offset
  {}

  lemma TileFacts(length: nat, offset: nat, t: nat)
    requires t < |Tiles(length, offset, 4096)|
    ensures var tiles := Tiles(length, offset, 4096);
            && tiles[t].size > 0 && tiles[t].offset % 4096 + tiles[t].size <= 4096
            && tiles[t].offset + tiles[t].size <= offset + length
            && (t + 1 < |tiles| ==> tiles[t + 1].offset == tiles[t].offset + tiles[t].size)
            && (t + 1 == |tiles| ==> tiles[t].offset + tiles[t].size == offset + length)
  {
    hide Tiles;
    var tiles := Tiles(length, offset, 4096);
    TilingIsExact(length, offset, 4096);
    EndsBound(tiles, t);
    assert InWindow(tiles[t], 4096);
  }

  /**
   `read_chunks`. A read that succeeds has written its pieces as they were served. If every chunk that was
   served is the padded chunk of `content`, then a read that succeeds has written exactly the
   requested range of `content`, and one that fails a prefix of it. The read succeeds exactly when
   nothing goes wrong with any piece, and otherwise reports the first failure.
   */
  method ReadChunks(
    file: Source, fileSize: nat, offset: nat, size: nat, accept: nat -> WriteReply, ghost content: seq<byte>)
    returns (r: IoResult, written: seq<byte>)
    requires |content| == fileSize
    ensures RepliesTrue(file, content, ReadTiles(fileSize, offset, size)) ==>
              && written <= FileRange(content, offset, size)
              && (r.Ok? ==> written == FileRange(content, offset, size))
    ensures r.Ok? && RepliesTrue(file, content, ReadTiles(fileSize, offset, size)) ==>
              && |written| <= size && (written == [] || offset + |written| <= |content|)
              && forall p: nat :: offset <= p < offset + size && p < |content| ==>
                   p - offset < |written| && written[p - offset] == content[p]
    ensures r.Ok? ==> r.n == |written| == SizeToRead(fileSize, offset, size)
    ensures r.Ok? ==> var tiles := ReadTiles(fileSize, offset, size); written == Assembled(file, tiles, |tiles|)
    ensures r.Ok? <==>
              NoFailureBefore(file, ReadTiles(fileSize, offset, size), accept, |ReadTiles(fileSize, offset, size)|)
    ensures r.Err? ==> FirstFailureIs(file, ReadTiles(fileSize, offset, size), accept, r.errno)
  {
    hide Tiles, FileRange, Buffer, OffsetToChunkIndex, RepliesTrue, NoFailureBefore, AnsweredBefore, Assembled;
    var remaining := if fileSize < offset then 0 else fileSize - offset;
    var sizeToRead := Min(size, remaining);
    ghost var tiles := ReadTiles(fileSize, offset, size);
    var it := new ChunkedSizeIter(sizeToRead, offset, 4096);
    var total, t := 0, 0;
    written := [];
    NothingAssembled(file, tiles);
    NoneBeforeFirst(file, tiles, accept);
    while true
      invariant t <= |tiles| && NoFailureBefore(file, tiles, accept, t) && AnsweredBefore(file, tiles, t)
      invariant it.Valid() && it.alignment == 4096 && it.Pending() == tiles[t..]
      invariant total == |written| && it.remaining + total == sizeToRead
      invariant written == Assembled(file, tiles, t)
      decreases it.remaining
    {
      var next := it.Next();
      if next.None? { break; }
      var tile := next.value;
      assert tile == tiles[t];
      FailureOrNext(file, tiles, accept, t);
      PrefixOfRange(file, content, offset, size, t);
      var e, piece := ReadPiece(file, t, tile);
      if e.Some? { return Err(e.value), written; }
      PrefixOfRange(file, content, offset, size, t + 1);
      var taken := accept(t);
      if taken.Refused? { return Err(WriterError), written; }
      var s := Min(taken.n, tile.size);
      AssembledOneMore(file, tiles, t, piece);
      written := written + piece[..s];
      if s != tile.size { return Err(EIO), written; }
      assert piece[..s] == piece;
      total := total + s;
      t := t + 1;
    }
    PrefixOfRange(file, content, offset, size, t);
    RangeIsExact(content, offset, size, written);
    r := Ok(total);
  }

  /** Somewhere during this read, the data or a tree page that was served collides with the true one. */
  ghost predicate DeceivedDuring(H: HashFn, content: seq<byte>, data: Source, tree: nat -> Source, tiles: seq<Tile>)
    requires content != []
  {
    exists t: nat :: t < |tiles| && OffsetToChunkIndex(tiles[t].offset) < ChunkCount(|content|)
      && DeceivedAt(H, content, data, tree, t, OffsetToChunkIndex(tiles[t].offset))
  }

  lemma TilesInsideFile(content: seq<byte>, offset: nat, size: nat, t: nat)
    requires t < |ReadTiles(|content|, offset, size)|
    ensures OffsetToChunkIndex(ReadTiles(|content|, offset, size)[t].offset) < ChunkCount(|content|)
    ensures ReadTiles(|content|, offset, size)[t].size
         <= |ChunkBytes(content, OffsetToChunkIndex(ReadTiles(|content|, offset, size)[t].offset))|
  {
    hide Tiles, ChunkBytes, ChunkBlock;
    var tiles := ReadTiles(|content|, offset, size);
    TilesEmptyIff(|content|, offset, size);
    TileFacts(SizeToRead(|content|, offset, size), offset, t);
    TileOfBlock(content, tiles[t].offset, tiles[t].size);
  }

  lemma VerifiedRepliesTrue(H: HashFn, content: seq<byte>, data: Source, tree: nat -> Source, offset: nat, size: nat)
    requires content != [] && !DeceivedDuring(H, content, data, tree, ReadTiles(|content|, offset, size))
    ensures RepliesTrue(VerifiedSource(H, Reader(|content|, VerifierRoot(H, content)), data, tree), content,
                        ReadTiles(|content|, offset, size))
  {
    hide VerifiedSource, VerifierRoot, DeceivedAt, ReadTiles, Buffer, ChunkBlock;
    var tiles := ReadTiles(|content|, offset, size);
    forall t: nat | t < |tiles|
      ensures var i := OffsetToChunkIndex(tiles[t].offset);
              var reply := VerifiedSource(H, Reader(|content|, VerifierRoot(H, content)), data, tree)(t, i);
              reply.Got? ==> Buffer(reply) == ChunkBlock(content, i)
    {
      TilesInsideFile(content, offset, size, t);
      VerifiedReadSound(H, content, data, tree, t, OffsetToChunkIndex(tiles[t].offset));
    }
  }

  /** Over honest sources no piece fails, if and only if the file has at most 2^61 bytes or nothing is read. */
  lemma HonestReadsDoNotFail(
    H: HashFn, content: seq<byte>, data: Source, tree: nat -> Source, offset: nat, size: nat, accept: nat -> WriteReply)
    requires content != [] && AllHonest(H, content, data, tree, ReadTiles(|content|, offset, size), accept)
    ensures NoFailureBefore(VerifiedSource(H, Reader(|content|, VerifierRoot(H, content)), data, tree),
                            ReadTiles(|content|, offset, size), accept, |ReadTiles(|content|, offset, size)|)
       <==> |content| <= MAX_WALK_SIZE || ReadTiles(|content|, offset, size) == []
  {
    hide VerifiedSource, VerifierRoot, ReadTiles, ChunkBytes, ServesTree, ServesFile;
    var tiles := ReadTiles(|content|, offset, size);
    var file := VerifiedSource(H, Reader(|content|, VerifierRoot(H, content)), data, tree);
    forall t: nat | t < |tiles| ensures FailureAt(file, tiles, accept, t).None? <==> |content| <= MAX_WALK_SIZE {
      TilesInsideFile(content, offset, size, t);
      VerifiedReadComplete(H, content, data, tree, t, OffsetToChunkIndex(tiles[t].offset));
    }
    if tiles != [] && |content| > MAX_WALK_SIZE { assert FailureAt(file, tiles, accept, 0).Some?; }
  }

  /** Data and tree are served truthfully throughout, and the reply writer takes everything. */
  ghost predicate AllHonest(
    H: HashFn, content: seq<byte>, data: Source, tree: nat -> Source, tiles: seq<Tile>, accept: nat -> WriteReply)
    requires content != []
  {
    && ServesFile(content, data)
    && (forall t: nat :: ServesTree(H, content, tree(t)))
    && (forall t: nat :: t < |tiles| ==> accept(t) == Takes(tiles[t].size))
  }

  /**
   End to end, from the signature to the bytes. A reader was opened on an arbitrary tree source, for
   an arbitrary claimed size, with a signature for `content`. Whatever the data source and the tree
   source answer, a read that succeeds returns exactly the requested range of `content`, or the two
   descriptors collide, or a block served during this read collides with the true one. Over honest
   sources the read succeeds if and only if the file has at most 2^61 bytes or nothing is to be read.
   */
  method ReadSigned(
    H: HashFn, verify: Authenticator, sig: seq<byte>, first: Reply, reader: VerifiedFileReader,
    data: Source, tree: nat -> Source, offset: nat, size: nat, accept: nat -> WriteReply, ghost content: seq<byte>)
    returns (r: IoResult, written: seq<byte>)
    requires reader.fileSize <= U64_MAX && OpenReader(H, verify, reader.fileSize, sig, first) == Opened(reader)
    ensures r.Ok? && 0 < |content| <= U64_MAX && Signs(H, verify, sig, content) ==>
              || written == FileRange(content, offset, size)
              || Collide(H, Descriptor(reader.rootHash, reader.fileSize),
                         Descriptor(VerifierRoot(H, content), |content|))
              || DeceivedDuring(H, content, data, tree, ReadTiles(|content|, offset, size))
    ensures content != [] && reader == Reader(|content|, VerifierRoot(H, content))
            && AllHonest(H, content, data, tree, ReadTiles(|content|, offset, size), accept)
            ==> (r.Ok? <==> |content| <= MAX_WALK_SIZE || SizeToRead(|content|, offset, size) == 0)
                && (r.Ok? ==> written == FileRange(content, offset, size))
    ensures r.Ok? ==> r.n == |written|
    ensures r.Ok? ==>
              ServedInFull(VerifiedSource(H, reader, data, tree), reader.fileSize, offset, size, accept, written)
  {
    hide VerifiedSource, VerifierRoot, Descriptor, ReadTiles, RepliesTrue, NoFailureBefore, DeceivedDuring, OpenReader;
    hide FileRange, ServesFile, Signs, Assembled;
    if 0 < |content| <= U64_MAX && Signs(H, verify, sig, content) {
      OpenedReaderIsSigned(H, verify, reader.fileSize, sig, first, content);
    }
    ghost var claimed := if reader.fileSize == |content| then content else Zeros(reader.fileSize);
    r, written := ReadChunks(VerifiedSource(H, reader, data, tree), reader.fileSize, offset, size, accept, claimed);
    if content != [] && reader == Reader(|content|, VerifierRoot(H, content)) {
      if !DeceivedDuring(H, content, data, tree, ReadTiles(|content|, offset, size)) {
        VerifiedRepliesTrue(H, content, data, tree, offset, size);
      }
      if AllHonest(H, content, data, tree, ReadTiles(|content|, offset, size), accept) {
        TilesEmptyIff(|content|, offset, size);
        HonestReadsDoNotFail(H, content, data, tree, offset, size, accept);
        HonestNeverDeceives(H, content, data, tree, ReadTiles(|content|, offset, size));
      }
    }
  }

  /** Nothing failed, and what was written is what the source served. */
  ghost predicate ServedInFull(
    file: Source, fileSize: nat, offset: nat, size: nat, accept: nat -> WriteReply, written: seq<byte>)
  {
    var tiles := ReadTiles(fileSize, offset, size);
    NoFailureBefore(file, tiles, accept, |tiles|) && written == Assembled(file, tiles, |tiles|)
  }

  lemma TilesEmptyIff(fileSize: nat, offset: nat, size: nat)
    ensures ReadTiles(fileSize, offset, size) == [] <==> SizeToRead(fileSize, offset, size) == 0
  {}

  lemma HonestNeverDeceives(H: HashFn, content: seq<byte>, data: Source, tree: nat -> Source, tiles: seq<Tile>)
    requires content != [] && ServesFile(content, data) && forall t: nat :: ServesTree(H, content, tree(t))
    ensures !DeceivedDuring(H, content, data, tree, tiles)
  {
    hide TreePages, ChunkBytes, PathStep;
    forall t: nat, i: nat | i < ChunkCount(|content|) ensures !DeceivedAt(H, content, data, tree, t, i) {
      assert ServesTree(H, content, tree(t));
      forall level: nat | level <= Height(|content|) ensures !PageCollides(H, content, tree(t), i, level) {
        TruePageOnPath(H, content, i, level);
      }
    }
  }
}
