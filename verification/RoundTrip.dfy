/**
 From a trusted writer, through a store and sources that are not trusted, to a verifying reader.
 */
module RoundTrip {
  import opened Common
  import opened Crypto
  import opened Geometry
  import opened Merkle
  import opened Verifier
  import opened OneChunk
  import opened SizeAhead
  import opened FuseRead
  import opened Builder
  import opened EditorModel
  import opened Editor

  /**
   From two chunks on: a file signed over the writer's root, served with its serialised tree, opens
   with that root, and every one of its chunks is accepted if it has at most 2^61 bytes.
   */
  lemma SealedFileIsReadable(
    H: HashFn, content: seq<byte>, verify: Authenticator, sig: seq<byte>, page: Block,
    data: Source, tree: nat -> Source, t: nat, index: nat)
    requires ChunkCount(|content|) >= 2 && index < ChunkCount(|content|)
    requires SignsStandard(H, verify, sig, content)
    requires page == TreePages(H, content)[0] && ServesFile(content, data) && ServesTree(H, content, tree(t))
    ensures OpenReader(H, verify, |content|, sig, Got(page)) == Opened(Reader(|content|, StandardRoot(H, content)))
    ensures VerifiedSource(H, Reader(|content|, StandardRoot(H, content)), data, tree)(t, index)
         == if |content| <= MAX_WALK_SIZE then Got(ChunkBytes(content, index)) else Failed
  {
    hide TreePages, StandardRoot, VerifierRoot, ServesTree, ServesFile, FormattedDigest, OpenReader, VerifiedSource;
    RootsAgree(H, content);
    SignedFileOpens(H, verify, sig, page, content);
    VerifiedReadComplete(H, content, data, tree, t, index);
  }

  /** The digest that an editor reports for its file is the one the reader will ask the authenticator about. */
  method SealedDigest(editor: VerifiedFileEditor) returns (d: Digest)
    requires editor.Valid()
    ensures editor.file.Faithful() && ChunkCount(|editor.file.data|) >= 2 ==>
              d == FormattedDigest(editor.H, VerifierRoot(editor.H, editor.file.data), |editor.file.data|)[12..]
  {
    hide VerifierRoot, StandardRoot, FormattedDigest, Descriptor;
    d := editor.CalculateFsverityDigest();
    if editor.file.Faithful() && ChunkCount(|editor.file.data|) >= 2 { RootsAgree(editor.H, editor.file.data); }
  }

  /** The signature verifies exactly the formatted digest of this leaf list. */
  ghost predicate SignsLeaves(H: HashFn, verify: Authenticator, sig: seq<byte>, l: LeafList)
  {
    forall signed: seq<byte> ::
      verify(sig, signed) == Some(true) <==> signed == FormattedDigest(H, LeafRoot(H, l.leaves), l.fileSize)
  }

  /** The leaves of the run and the size it recorded, which may be ahead of the content's, were signed. */
  ghost predicate Sealed(H: HashFn, events: seq<Event>, verify: Authenticator, sig: seq<byte>)
    requires AllWellFormed(events)
  {
    Run(H, events).fileSize <= U64_MAX && SignsLeaves(H, verify, sig, Run(H, events))
  }

  /** Some event of the run misled the editor. */
  ghost predicate Misled(H: HashFn, events: seq<Event>)
    requires AllWellFormed(events)
  {
    exists k: nat :: k < |events| && Misleads(H, Run(H, events[..k]), Trusted(H, events[..k]), events[k])
  }

  /** Extending a file with zeros inside its last chunk leaves its leaves as they are, and only that does. */
  lemma ExtendedLeavesIff(H: HashFn, content: seq<byte>, size: nat)
    requires |content| <= size
    ensures Leaves(H, Truncate(content, size)) == Leaves(H, content) <==> ChunkCount(|content|) == ChunkCount(size)
  {
    hide ChunkBlock, Truncate;
    var x, y := Leaves(H, Truncate(content, size)), Leaves(H, content);
    assert |x| == ChunkCount(size) && |y| == ChunkCount(|content|);
    if |x| == |y| {
      forall i: nat | i < |x| ensures x[i] == y[i] { BlockAfterTruncate(content, size, i); }
    }
  }

  /**
   A signed leaf list is that of the content, extended with zeros to the recorded size, if and only if it has
   one leaf for each chunk of that size. The signature is then one for that file, and from two chunks on
   for the root the reader computes.
   */
  lemma LeafSignatureSignsFile(H: HashFn, verify: Authenticator, sig: seq<byte>, l: LeafList, content: seq<byte>)
    requires Tracks(H, l, content) && SignsLeaves(H, verify, sig, l)
    ensures l.leaves == Leaves(H, Truncate(content, l.fileSize)) <==> |l.leaves| == ChunkCount(l.fileSize)
    ensures |l.leaves| == ChunkCount(l.fileSize) ==> SignsStandard(H, verify, sig, Truncate(content, l.fileSize))
    ensures |l.leaves| == ChunkCount(l.fileSize) >= 2 ==>
              && Signs(H, verify, sig, Truncate(content, l.fileSize))
              && VerifierRoot(H, Truncate(content, l.fileSize)) == StandardRoot(H, Truncate(content, l.fileSize))
    ensures l.fileSize == |content| ==>
              |l.leaves| == ChunkCount(l.fileSize) && Truncate(content, l.fileSize) == content
  {
    hide VerifierRoot, StandardRoot, FormattedDigest, LeafRoot;
    var extended := Truncate(content, l.fileSize);
    ExtendedLeavesIff(H, content, l.fileSize);
    LeafRootIsStandard(H, extended);
    if ChunkCount(|extended|) >= 2 { RootsAgree(H, extended); }
  }

  /** A reader that opens with a signature over leaves has their root and size, or two descriptors collide. */
  lemma OpenedWithLeafSignature(
    H: HashFn, verify: Authenticator, fileSize: nat, sig: seq<byte>, first: Reply, l: LeafList, content: seq<byte>)
    requires l.fileSize <= U64_MAX && fileSize <= U64_MAX && Tracks(H, l, content) && SignsLeaves(H, verify, sig, l)
    ensures var r := OpenReader(H, verify, fileSize, sig, first);
            r.Opened? ==>
              || r.reader == Reader(l.fileSize, StandardRoot(H, content))
              || Collide(H, Descriptor(r.reader.rootHash, fileSize), Descriptor(StandardRoot(H, content), l.fileSize))
  {
    hide StandardRoot, Descriptor, FormattedDigest, LeafRoot, Leaves;
    LeafRootIsStandard(H, content);
    if OpenReader(H, verify, fileSize, sig, first).Opened? {
      DigestBindsRoot(H, H(Buffer(first)), fileSize, StandardRoot(H, content), l.fileSize);
    }
  }

  /**
   What a successful read of a one-chunk file returns: the range of the chunk that was served, which the
   content's block begins with the hash of, or else the page that was served collides with that block.
   */
  ghost predicate OneChunkRead(
    H: HashFn, content: seq<byte>, data: Source, tree: nat -> Source, offset: nat, size: nat, written: seq<byte>)
  {
    var page, served := tree(0)(0, 0), data(0, 0);
    && page.Got? && served.Got?
    && (BlockEndorses(H, content, page, served) || Collide(H, Buffer(page), ChunkBlock(content, 0)))
    && |written| == SizeToRead(|content|, offset, size) && offset + |written| <= 4096
    && written == Buffer(served)[offset..offset + |written|]
  }

  lemma OneTile(size: nat, offset: nat)
    requires 0 < size && offset + size <= 4096
    ensures Tiles(size, offset, 4096) == [Tile(offset, size)]
  {
    assert Tiles(0, offset + size, 4096) == [];
  }

  /** A non-empty read of a one-chunk file with the writer's root is such a read. */
  lemma OneChunkServed(
    H: HashFn, content: seq<byte>, data: Source, tree: nat -> Source,
    offset: nat, size: nat, accept: nat -> WriteReply, written: seq<byte>)
    requires ChunkCount(|content|) == 1
    requires ServedInFull(VerifiedSource(H, Reader(|content|, StandardRoot(H, content)), data, tree),
                          |content|, offset, size, accept, written)
    ensures written == FileRange(content, offset, size) || OneChunkRead(H, content, data, tree, offset, size, written)
  {
    hide VerifiedSource, StandardRoot, ChunkBlock, Buffer, BlockEndorses, FileRange, Tiles;
    var file := VerifiedSource(H, Reader(|content|, StandardRoot(H, content)), data, tree);
    var tiles := ReadTiles(|content|, offset, size);
    if SizeToRead(|content|, offset, size) > 0 {
      OneTile(SizeToRead(|content|, offset, size), offset);
      assert FailureAt(file, tiles, accept, 0).None?;
      OneChunkReadIff(H, content, data, tree, 0);
      assert Assembled(file, tiles, 0) == [];
      assert written == PieceOf(file, tiles, 0);
    } else {
      NothingServed(file, content, offset, size, accept, written);
    }
  }

  /** In some call of this read, a block that was served collides or has the zero hash. */
  ghost predicate DeviatesDuring(
    H: HashFn, content: seq<byte>, size: nat, data: Source, tree: nat -> Source, tiles: seq<Tile>)
  {
    0 < |content| <= size && exists t: nat :: t < |tiles| && DeviatesIn(H, content, size, data, tree, tiles, t)
  }

  ghost predicate DeviatesIn(
    H: HashFn, content: seq<byte>, size: nat, data: Source, tree: nat -> Source, tiles: seq<Tile>, t: nat)
    requires 0 < |content| <= size && t < |tiles|
  {
    var i := OffsetToChunkIndex(tiles[t].offset);
    Deviates(H, content, size, data(t, i), tree(t), i)
  }

  /** There is a gap, and in some call of this read a block of the content was taken for a page. */
  ghost predicate PagedDuring(
    H: HashFn, content: seq<byte>, size: nat, data: Source, tree: nat -> Source, tiles: seq<Tile>)
  {
    && 0 < |content| <= size && Gap(|content|, size) > 0
    && exists t: nat :: t < |tiles| && PagedIn(H, content, size, data, tree, tiles, t)
  }

  ghost predicate PagedIn(
    H: HashFn, content: seq<byte>, size: nat, data: Source, tree: nat -> Source, tiles: seq<Tile>, t: nat)
    requires 0 < |content| <= size && t < |tiles|
  {
    var i := OffsetToChunkIndex(tiles[t].offset);
    ContentAsPage(H, content, size, data(t, i), tree(t), i)
  }

  lemma AheadRepliesTrue(
    H: HashFn, content: seq<byte>, extended: seq<byte>, data: Source, tree: nat -> Source, offset: nat, size: nat)
    requires content != [] && |content| <= |extended| && extended == Truncate(content, |extended|)
    requires var tiles := ReadTiles(|extended|, offset, size);
             && !DeviatesDuring(H, content, |extended|, data, tree, tiles)
             && !PagedDuring(H, content, |extended|, data, tree, tiles)
    ensures RepliesTrue(VerifiedSource(H, Reader(|extended|, StandardRoot(H, content)), data, tree), extended,
                        ReadTiles(|extended|, offset, size))
  {
    hide VerifiedSource, StandardRoot, Deviates, ContentAsPage, ReadTiles, Buffer, ChunkBlock, Gap, Truncate;
    var tiles := ReadTiles(|extended|, offset, size);
    var file := VerifiedSource(H, Reader(|extended|, StandardRoot(H, content)), data, tree);
    forall t: nat | t < |tiles|
      ensures var i := OffsetToChunkIndex(tiles[t].offset);
              file(t, i).Got? ==> Buffer(file(t, i)) == ChunkBlock(extended, i)
    {
      var i := OffsetToChunkIndex(tiles[t].offset);
      TilesInsideFile(extended, offset, size, t);
      assert !DeviatesIn(H, content, |extended|, data, tree, tiles, t);
      assert Gap(|content|, |extended|) > 0 ==> !PagedIn(H, content, |extended|, data, tree, tiles, t);
      AheadReadSound(H, content, |extended|, data, tree, t, i);
      BlockAfterTruncate(content, |extended|, i);
    }
  }

  lemma ServedTruly(
    file: Source, content: seq<byte>, offset: nat, size: nat, accept: nat -> WriteReply, written: seq<byte>)
    requires ServedInFull(file, |content|, offset, size, accept, written)
    requires RepliesTrue(file, content, ReadTiles(|content|, offset, size))
    ensures written == FileRange(content, offset, size)
  {
    hide Assembled, FileRange, RepliesTrue, ReadTiles;
    var tiles := ReadTiles(|content|, offset, size);
    forall t: nat | t < |tiles| ensures file(t, OffsetToChunkIndex(tiles[t].offset)).Got? {
      assert FailureAt(file, tiles, accept, t).None?;
    }
    PrefixOfRange(file, content, offset, size, |ReadTiles(|content|, offset, size)|);
  }

  /** A read with the writer's root and size returns the extended content, or one of the named things happened. */
  lemma AheadServed(
    H: HashFn, content: seq<byte>, extended: seq<byte>, data: Source, tree: nat -> Source,
    offset: nat, size: nat, accept: nat -> WriteReply, written: seq<byte>)
    requires |content| <= |extended| && extended == Truncate(content, |extended|) && (content == [] ==> extended == [])
    requires ServedInFull(VerifiedSource(H, Reader(|extended|, StandardRoot(H, content)), data, tree),
                          |extended|, offset, size, accept, written)
    ensures || written == FileRange(extended, offset, size)
            || DeviatesDuring(H, content, |extended|, data, tree, ReadTiles(|extended|, offset, size))
            || PagedDuring(H, content, |extended|, data, tree, ReadTiles(|extended|, offset, size))
  {
    hide VerifiedSource, StandardRoot, DeviatesDuring, PagedDuring, ReadTiles, FileRange, Truncate, RepliesTrue;
    var file := VerifiedSource(H, Reader(|extended|, StandardRoot(H, content)), data, tree);
    if content == [] {
      NothingServed(file, extended, offset, size, accept, written);
    } else if !DeviatesDuring(H, content, |extended|, data, tree, ReadTiles(|extended|, offset, size))
              && !PagedDuring(H, content, |extended|, data, tree, ReadTiles(|extended|, offset, size))
    {
      AheadRepliesTrue(H, content, extended, data, tree, offset, size);
      ServedTruly(file, extended, offset, size, accept, written);
    }
  }

  lemma NothingServed(
    file: Source, content: seq<byte>, offset: nat, size: nat, accept: nat -> WriteReply, written: seq<byte>)
    requires ServedInFull(file, |content|, offset, size, accept, written) && SizeToRead(|content|, offset, size) == 0
    ensures written == FileRange(content, offset, size)
  {}

  /** In every run, a leaf list without leaves has recorded no size. */
  lemma NoLeavesNoSize(H: HashFn, events: seq<Event>)
    requires AllWellFormed(events)
    ensures Run(H, events).leaves == [] ==> Run(H, events).fileSize == 0
  {
    if events != [] {
      NoLeavesNoSize(H, events[..|events| - 1]);
    }
  }

  /**
   The whole way. A file was written by an arbitrary run of chunk steps and resizes, against a store that
   answered as it liked; the digest of its private leaves and recorded size was signed at any moment, also
   in the middle of a write or after one that was cut short; a reader was opened with that signature on
   arbitrary sources. If a read then succeeds, it returns what was served, and that is exactly the range
   of the content that the writer's successful calls produced, extended with zeros to the recorded size;
   or an event of the writing run misled the editor, or the two descriptors collide, or a block
   served during the read collides with a node of the content's tree or has the zero hash where the tree
   has none. The exception is a gap between the tree of the content and the one that the recorded
   size implies, as every file of one chunk has it: then a block of the content may have been taken for
   a page. A reader that has the extended content's size and root succeeds over honest sources exactly
   up to 2^61 bytes.
   */
  method ReadWritten(
    H: HashFn, ghost events: seq<Event>, verify: Authenticator, sig: seq<byte>, first: Reply,
    reader: VerifiedFileReader, data: Source, tree: nat -> Source, offset: nat, size: nat, accept: nat -> WriteReply)
    returns (r: IoResult, written: seq<byte>)
    requires AllWellFormed(events)
    requires reader.fileSize <= U64_MAX && OpenReader(H, verify, reader.fileSize, sig, first) == Opened(reader)
    ensures r.Ok? ==> r.n == |written|
    ensures r.Ok? ==>
              ServedInFull(VerifiedSource(H, reader, data, tree), reader.fileSize, offset, size, accept, written)
    ensures var content, fileSize := Trusted(H, events), Run(H, events).fileSize;
            r.Ok? && Sealed(H, events, verify, sig) ==>
              || written == FileRange(Truncate(content, fileSize), offset, size)
              || Misled(H, events)
              || Collide(H, Descriptor(reader.rootHash, reader.fileSize),
                         Descriptor(StandardRoot(H, content), fileSize))
              || DeviatesDuring(H, content, fileSize, data, tree, ReadTiles(fileSize, offset, size))
              || PagedDuring(H, content, fileSize, data, tree, ReadTiles(fileSize, offset, size))
    ensures var content := Truncate(Trusted(H, events), Run(H, events).fileSize);
            content != [] && reader == Reader(|content|, VerifierRoot(H, content))
            && AllHonest(H, content, data, tree, ReadTiles(|content|, offset, size), accept)
            ==> (r.Ok? <==> |content| <= MAX_WALK_SIZE || SizeToRead(|content|, offset, size) == 0)
                && (r.Ok? ==> written == FileRange(content, offset, size))
  {
    hide Run, Trusted, VerifierRoot, StandardRoot, FormattedDigest, Descriptor, Truncate;
    hide SignsLeaves, Signs, SignsStandard, OpenReader, DeviatesDuring, PagedDuring, Leaves;
    hide FileRange, DeceivedDuring, AllHonest, ReadTiles, ServedInFull, VerifiedSource;
    ghost var l, content := Run(H, events), Trusted(H, events);
    ghost var extended := Truncate(content, l.fileSize);
    r, written := ReadSigned(H, verify, sig, first, reader, data, tree, offset, size, accept, extended);
    RunTracksTrusted(H, events);
    if r.Ok? && Sealed(H, events, verify, sig) && Tracks(H, l, content) {
      OpenedWithLeafSignature(H, verify, reader.fileSize, sig, first, l, content);
      NoLeavesNoSize(H, events);
      LeavesLength(H, content);
      if reader == Reader(l.fileSize, StandardRoot(H, content)) {
        AheadServed(H, content, extended, data, tree, offset, size, accept, written);
      }
    }
  }
}
