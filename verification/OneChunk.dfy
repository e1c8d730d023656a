/**
 Files of a single chunk. The writer, like the standard, takes the leaf hash as the root. The reader
 takes every root as the hash of a page of hashes. So a reader that was opened with the writer's
 signature reads the content's own block as such a page. This module says exactly what it then accepts.
 */
module OneChunk {
  import opened Common
  import opened Crypto
  import opened Geometry
  import opened Merkle
  import opened Verifier

  /** The signature verifies exactly the formatted digest that the standard defines for the file. */
  ghost predicate SignsStandard(H: HashFn, verify: Authenticator, sig: seq<byte>, content: seq<byte>)
  {
    forall signed: seq<byte> ::
      verify(sig, signed) == Some(true) <==> signed == FormattedDigest(H, StandardRoot(H, content), |content|)
  }

  lemma OneChunkHeight(size: nat)
    requires ChunkCount(size) == 1
    ensures 0 < size <= 4096 && Height(size) == 0
  {
    hide Log128Ceil;
    CeilIsOne(size, 4096);
    CeilIsOne(size, 128 * 4096);
    Log128CeilIsLeast(1, 0);
  }

  lemma OneChunkWalk(size: nat)
    requires ChunkCount(size) == 1
    ensures FsverityWalk(size, 0) == [Step(0, 0)] && WalkFitsU64(size, 0)
  {
    hide FsverityWalk, WalkFitsU64, Height, ChunkCount;
    OneChunkHeight(size);
    WalkTakesPathSteps(size, 0, 0);
    WalkFitsExactlyUpToLimit(size, 0);
    assert FsverityWalk(size, 0) == [PathStep(size, 0, 0)];
  }

  /** One page is read; its first 32 bytes are compared with the chunk's hash and its own hash is the result. */
  lemma OneChunkCheck(H: HashFn, chunk: seq<byte>, size: nat, tree: Source)
    requires ChunkCount(size) == 1 && |chunk| <= 4096
    ensures VerityCheck(H, chunk, 0, size, tree)
         == var page := tree(0, 0);
            if page.Failed? then IoError
            else if H(Pad(chunk)) != HashIn(Buffer(page), 0) then CannotVerify
            else Verified(H(Buffer(page)))
  {
    hide FsverityWalk, WalkFitsU64, HashIn;
    OneChunkWalk(size);
    WalkSlotsInside(size, 0);
    var walk := FsverityWalk(size, 0);
    if tree(0, 0).Got? { assert FoldFrom(H, walk, 1, H(Buffer(tree(0, 0))), tree) == Verified(H(Buffer(tree(0, 0)))); }
  }

  /** The page is the content's own block, and that block begins with the hash of the chunk that was served. */
  predicate BlockEndorses(H: HashFn, content: seq<byte>, page: Reply, served: Reply)
  {
    && page.Got? && served.Got?
    && Buffer(page) == ChunkBlock(content, 0) && HashIn(ChunkBlock(content, 0), 0) == H(Buffer(served))
  }

  /**
   With the writer's root, a chunk read succeeds if and only if the page that was served is the content's
   own block and begins with the hash of the chunk that was served; the only exception is a page that
   collides with that block. What is read is then the chunk that was served.
   */
  lemma OneChunkReadIff(H: HashFn, content: seq<byte>, data: Source, tree: nat -> Source, t: nat)
    requires ChunkCount(|content|) == 1
    ensures var reply := VerifiedSource(H, Reader(|content|, StandardRoot(H, content)), data, tree)(t, 0);
            var page, served := tree(t)(0, 0), data(t, 0);
            && (BlockEndorses(H, content, page, served) ==> reply.Got?)
            && (reply.Got? ==> reply == served && page.Got?)
            && (reply.Got? ==>
                  BlockEndorses(H, content, page, served) || Collide(H, Buffer(page), ChunkBlock(content, 0)))
  {
    hide VerityCheck, ChunkBlock, HashIn;
    if data(t, 0).Got? { OneChunkCheck(H, data(t, 0).bytes, |content|, tree(t)); }
  }

  /** A reader that opens with the writer's signature has the file's size and root, or two descriptors collide. */
  lemma OpenedWithStandardSignature(
    H: HashFn, verify: Authenticator, fileSize: nat, sig: seq<byte>, first: Reply, content: seq<byte>)
    requires |content| <= U64_MAX && fileSize <= U64_MAX && SignsStandard(H, verify, sig, content)
    ensures var r := OpenReader(H, verify, fileSize, sig, first);
            r.Opened? ==>
              || r.reader == Reader(|content|, StandardRoot(H, content))
              || Collide(H, Descriptor(r.reader.rootHash, fileSize), Descriptor(StandardRoot(H, content), |content|))
  {
    hide StandardRoot, Descriptor, FormattedDigest;
    if OpenReader(H, verify, fileSize, sig, first).Opened? {
      DigestBindsRoot(H, H(Buffer(first)), fileSize, StandardRoot(H, content), |content|);
    }
  }

  /**
   A one-chunk file that was signed by the writer and is served truthfully, with the tree the reader
   expects, opens and is read if the page that holds its leaf is its own block, and otherwise opens if
   and only if two explicit blocks or descriptors collide.
   */
  lemma OneChunkFileIsReadableIff(
    H: HashFn, content: seq<byte>, verify: Authenticator, sig: seq<byte>, data: Source, tree: nat -> Source, t: nat)
    requires ChunkCount(|content|) == 1 && SignsStandard(H, verify, sig, content)
    requires ServesFile(content, data) && ServesTree(H, content, tree(t))
    ensures var leaf := StandardRoot(H, content);
            var page := HashPage([leaf]);
            var result := OpenReader(H, verify, |content|, sig, Got(page));
            && (page == ChunkBlock(content, 0) ==>
                  && result == Opened(Reader(|content|, leaf))
                  && VerifiedSource(H, result.reader, data, tree)(t, 0) == Got(ChunkBytes(content, 0)))
            && (result.Opened? <==>
                  || page == ChunkBlock(content, 0)
                  || Collide(H, page, ChunkBlock(content, 0))
                  || Collide(H, Descriptor(H(page), |content|), Descriptor(leaf, |content|)))
  {
    hide VerityCheck, HashPage, Descriptor, TreePages, ChunkBlock, VerifiedSource, StandardRoot, Pad;
    var leaf := StandardRoot(H, content);
    var page := HashPage([leaf]);
    PadFull(page);
    OneChunkRoots(H, content);
    OpenedWithStandardSignature(H, verify, |content|, sig, Got(page), content);
    if page == ChunkBlock(content, 0) {
      OneChunkServedTruly(H, content, data, tree(t), t);
      OneChunkReadIff(H, content, data, tree, t);
    }
  }

  lemma OneChunkServedTruly(H: HashFn, content: seq<byte>, data: Source, tree: Source, t: nat)
    requires ChunkCount(|content|) == 1 && HashPage([StandardRoot(H, content)]) == ChunkBlock(content, 0)
    requires ServesFile(content, data) && ServesTree(H, content, tree)
    ensures BlockEndorses(H, content, tree(0, 0), data(t, 0)) && data(t, 0) == Got(ChunkBytes(content, 0))
  {
    hide VerityCheck, TreePages, ChunkBlock, ChunkBytes, HashPage;
    OneChunkTree(H, content);
    OneChunkRoots(H, content);
    LeafInPage(StandardRoot(H, content));
  }

  lemma OneChunkTree(H: HashFn, content: seq<byte>)
    requires ChunkCount(|content|) == 1
    ensures |TreePages(H, content)| > 0 && TreePages(H, content)[0] == HashPage([StandardRoot(H, content)])
  {
    hide TreePages, HashPage, ChunkBlock;
    TopLevelIsSingle(|content|, 0);
    PagesInLayout(H, content, 0, 0);
    var leaf := StandardRoot(H, content);
    assert Leaves(H, content) == [leaf] && [leaf][0..1] == [leaf];
    assert NodeChunk(|content|, 0, 0) == 0;
    assert Level(H, Leaves(H, content), 0) == Leaves(H, content);
  }

  /**
   An input for which what is read is not what was written, with no collision: any 32 bytes `other`, and
   as content their hash. Signed by the writer, and served with the content's block as the page and with
   `other` as the data, the file opens and reads as `other`.
   */
  lemma OneChunkReadCanDiffer(
    H: HashFn, other: seq<byte>, content: seq<byte>, verify: Authenticator, sig: seq<byte>,
    data: Source, tree: nat -> Source, t: nat)
    requires |other| == 32 && content == H(Pad(other)) && SignsStandard(H, verify, sig, content)
    requires data(t, 0) == Got(other) && tree(t)(0, 0) == Got(ChunkBlock(content, 0))
    ensures OpenReader(H, verify, 32, sig, Got(ChunkBlock(content, 0))) == Opened(Reader(32, StandardRoot(H, content)))
    ensures VerifiedSource(H, Reader(32, StandardRoot(H, content)), data, tree)(t, 0) == Got(other)
  {
    hide VerityCheck, FormattedDigest, ChunkBlock, Pad, VerifiedSource;
    assert |content| == 32;
    PadFull(ChunkBlock(content, 0));
    BlockOfShortFile(content);
    OneChunkReadIff(H, content, data, tree, t);
  }

  lemma BlockOfShortFile(content: seq<byte>)
    requires |content| == 32
    ensures HashIn(ChunkBlock(content, 0), 0) == content && ChunkCount(|content|) == 1
  {
    forall j: nat | j < 32 ensures ChunkBlock(content, 0)[..32][j] == content[j] { BlockAt(content, 0, j); }
  }

  /** For some hash function the two are indeed different files. */
  lemma WrittenAndReadDiffer(H: HashFn, other: seq<byte>)
    requires H == FirstByteMarked && other == Zeros(32)
    ensures H(Pad(other)) != other
  {
    MarkAdvances(Pad(other));
  }
}
