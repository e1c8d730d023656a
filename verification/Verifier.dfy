/**
 Reading a file whose bytes and whose Merkle tree both come from sources that are not trusted.
 */
module Verifier {
  import opened Common
  import opened Crypto
  import opened Geometry
  import opened Merkle

  // ---------------------------------------------------------------------------------------
  // Chunk sources
  // ---------------------------------------------------------------------------------------

  datatype ReadOutcome = Failed | Got(bytes: seq<byte>)

  /** Answer to one `read_chunk`: an error, or bytes that overwrite the front of the chunk buffer. */
  type Reply = r: ReadOutcome | r.Got? ==> |r.bytes| <= 4096 witness Failed

  /**
   A chunk source, as a function of the number of the call and the chunk index asked for. It may
   answer the same question differently each time.
   */
  type Source = (nat, nat) -> Reply

  /** The chunk buffer after a reply has been copied over its initial zeros. */
  function Buffer(r: Reply): Block
    requires r.Got?
  {
    Pad(r.bytes)
  }

  // ---------------------------------------------------------------------------------------
  // verity_check
  // ---------------------------------------------------------------------------------------

  /** `Stopped`: the program stops, because the 64-bit arithmetic of the walk overflows. */
  datatype CheckResult = Verified(root: Digest) | CannotVerify | IoError | Stopped

  /** The 32 bytes at `offset` of a tree chunk. */
  function HashIn(page: Block, offset: nat): Digest
    requires offset + 32 <= 4096
  {
    page[offset..offset + 32]
  }

  lemma LeafInPage(leaf: Digest)
    ensures HashIn(HashPage([leaf]), 0) == leaf
  {
    FlattenSlot([leaf], 0);
    assert HashPage([leaf])[0..32] == Flatten([leaf])[0..32];
  }

  ghost predicate SlotsInside(walk: seq<Step>)
  {
    forall s :: s in walk ==> s.hashOffset + 32 <= 4096
  }

  lemma WalkSlotsInside(size: nat, index: nat)
    requires size > 0
    ensures SlotsInside(FsverityWalk(size, index))
  {
    var walk := FsverityWalk(size, index);
    WalkTakesPathSteps(size, index, 0);
    forall level: nat | level < |walk| ensures walk[level].hashOffset + 32 <= 4096 {
      WalkTakesPathSteps(size, index, level);
    }
  }

  /** Folds over the remaining steps: the hash so far must be in its slot, then the page is hashed in turn. */
  function FoldFrom(H: HashFn, walk: seq<Step>, level: nat, actual: Digest, tree: Source): CheckResult
    requires level <= |walk| && SlotsInside(walk)
    decreases |walk| - level
  {
    if level == |walk| then Verified(actual)
    else
      var reply := tree(level, walk[level].chunk);
      if reply.Failed? then IoError
      else if actual != HashIn(Buffer(reply), walk[level].hashOffset) then CannotVerify
      else FoldFrom(H, walk, level + 1, H(Buffer(reply)), tree)
  }

  /** Hashes the padded chunk and walks to the root; the result is the root hash that was reached. */
  function VerityCheck(H: HashFn, chunk: seq<byte>, index: nat, fileSize: nat, tree: Source): CheckResult
    requires fileSize > 0 && |chunk| <= 4096
  {
    WalkSlotsInside(fileSize, index);
    if !WalkFitsU64(fileSize, index) then Stopped
    else FoldFrom(H, FsverityWalk(fileSize, index), 0, H(Pad(chunk)), tree)
  }

  /** The page answered at `level` of the walk for chunk `index` differs from the true page and has its hash. */
  predicate PageCollides(H: HashFn, content: seq<byte>, tree: Source, index: nat, level: nat)
    requires content != [] && index < ChunkCount(|content|) && level <= Height(|content|)
  {
    PathLinksLevels(|content|, index, level);
    PagesInLayout(H, content, level, Ancestor(index, level + 1));
    var c := PathStep(|content|, index, level).chunk;
    tree(level, c).Got? && Collide(H, Buffer(tree(level, c)), TreePages(H, content)[c])
  }

  ghost predicate SomePageCollides(H: HashFn, content: seq<byte>, tree: Source, index: nat)
    requires content != [] && index < ChunkCount(|content|)
  {
    exists level: nat :: level <= Height(|content|) && PageCollides(H, content, tree, index, level)
  }

  /** The true hash on the path of `index` at `level`. */
  function PathHash(H: HashFn, content: seq<byte>, index: nat, level: nat): Digest
    requires index < ChunkCount(|content|)
  {
    AncestorInRange(index, ChunkCount(|content|), level);
    Level(H, Leaves(H, content), level)[Ancestor(index, level)]
  }

  /** What the true tree holds along the path: the page hashes to the next path hash and contains this one. */
  lemma TruePageOnPath(H: HashFn, content: seq<byte>, index: nat, level: nat)
    requires content != [] && index < ChunkCount(|content|) && level <= Height(|content|)
    ensures var s := PathStep(|content|, index, level);
            s.chunk < |TreePages(H, content)| && s.hashOffset + 32 <= 4096 &&
            HashIn(TreePages(H, content)[s.chunk], s.hashOffset) == PathHash(H, content, index, level) &&
            H(TreePages(H, content)[s.chunk]) == PathHash(H, content, index, level + 1)
  {
    hide TreePages, LevelStart, Height, Nodes;
    PathLinksLevels(|content|, index, level);
    var k := Ancestor(index, level + 1);
    PagesInLayout(H, content, level, k);
    AncestorInRange(index, ChunkCount(|content|), level);
    PageSlot(Level(H, Leaves(H, content), level), Ancestor(index, level));
  }

  lemma RootIsTopOfPath(H: HashFn, content: seq<byte>, index: nat)
    requires content != [] && index < ChunkCount(|content|)
    ensures PathHash(H, content, index, Height(|content|) + 1) == VerifierRoot(H, content)
  {
    hide TreePages, LevelStart, Nodes;
    TruePageOnPath(H, content, index, Height(|content|));
    PathLinksLevels(|content|, index, Height(|content|));
  }

  /** Soundness from the root downwards: a fold that reaches the true root started from the true hash. */
  lemma {:induction false} FoldIsSound(
    H: HashFn, content: seq<byte>, tree: Source, index: nat, level: nat, actual: Digest)
    requires content != [] && index < ChunkCount(|content|) && level <= Height(|content|) + 1
    requires SlotsInside(FsverityWalk(|content|, index)) && level <= |FsverityWalk(|content|, index)|
    ensures FoldFrom(H, FsverityWalk(|content|, index), level, actual, tree) == Verified(VerifierRoot(H, content)) ==>
              actual == PathHash(H, content, index, level) || SomePageCollides(H, content, tree, index)
    decreases Height(|content|) + 1 - level
  {
    hide TreePages, FsverityWalk, PathHash, PathStep, HashIn, VerifierRoot, Height;
    var size := |content|;
    WalkTakesPathSteps(size, index, 0);
    if level == Height(size) + 1 {
      RootIsTopOfPath(H, content, index);
    } else {
      WalkTakesPathSteps(size, index, level);
      TruePageOnPath(H, content, index, level);
      var reply := tree(level, PathStep(size, index, level).chunk);
      if reply.Got? {
        FoldIsSound(H, content, tree, index, level + 1, H(Buffer(reply)));
        assert SomePageCollides(H, content, tree, index) || !PageCollides(H, content, tree, index, level);
      }
    }
  }

  /** Completeness: over true pages the fold that starts from the true hash reaches the true root. */
  lemma {:induction false} FoldIsComplete(H: HashFn, content: seq<byte>, tree: Source, index: nat, level: nat)
    requires content != [] && index < ChunkCount(|content|) && level <= Height(|content|) + 1
    requires ServesTree(H, content, tree)
    requires SlotsInside(FsverityWalk(|content|, index)) && level <= |FsverityWalk(|content|, index)|
    ensures FoldFrom(H, FsverityWalk(|content|, index), level, PathHash(H, content, index, level), tree)
         == Verified(VerifierRoot(H, content))
    decreases Height(|content|) + 1 - level
  {
    hide TreePages, FsverityWalk, PathHash, PathStep, HashIn, VerifierRoot, Height;
    var size := |content|;
    WalkTakesPathSteps(size, index, 0);
    if level == Height(size) + 1 {
      RootIsTopOfPath(H, content, index);
    } else {
      WalkTakesPathSteps(size, index, level);
      TruePageOnPath(H, content, index, level);
      FoldIsComplete(H, content, tree, index, level + 1);
    }
  }

  /** A tree source that answers every question about the tree with the true page. */
  ghost predicate ServesTree(H: HashFn, content: seq<byte>, tree: Source)
    requires content != []
  {
    forall t: nat, c: nat :: c < |TreePages(H, content)| ==>
      tree(t, c).Got? && Buffer(tree(t, c)) == TreePages(H, content)[c]
  }

  /**
   `verity_check` against any tree source: if it reports the true root, the chunk is the true chunk,
   or the padded chunk collides with it, or some page it was served collides with the true page.
   */
  lemma VerityCheckSound(H: HashFn, content: seq<byte>, chunk: seq<byte>, index: nat, tree: Source)
    requires content != [] && index < ChunkCount(|content|) && |chunk| <= 4096
    ensures VerityCheck(H, chunk, index, |content|, tree) == Verified(VerifierRoot(H, content)) ==>
              || Pad(chunk) == ChunkBlock(content, index)
              || Collide(H, Pad(chunk), ChunkBlock(content, index))
              || SomePageCollides(H, content, tree, index)
  {
    hide FoldFrom, SomePageCollides, VerifierRoot, Height, SlotsInside, WalkFitsU64;
    if VerityCheck(H, chunk, index, |content|, tree) == Verified(VerifierRoot(H, content))
       && !SomePageCollides(H, content, tree, index)
    {
      WalkSlotsInside(|content|, index);
      FoldIsSound(H, content, tree, index, 0, H(Pad(chunk)));
    }
  }

  /**
   Over a true tree, `verity_check` of a chunk of the file reports the true root, for every chunk, if and
   only if the file has at most 2^61 bytes.
   */
  lemma VerityCheckComplete(H: HashFn, content: seq<byte>, chunk: seq<byte>, index: nat, tree: Source)
    requires content != [] && index < ChunkCount(|content|) && |chunk| <= 4096
    requires ServesTree(H, content, tree) && Pad(chunk) == ChunkBlock(content, index)
    ensures VerityCheck(H, chunk, index, |content|, tree) == Verified(VerifierRoot(H, content))
       <==> |content| <= MAX_WALK_SIZE
  {
    hide FoldFrom, VerifierRoot, Height, SlotsInside, ServesTree, WalkFitsU64;
    WalkFitsExactlyUpToLimit(|content|, index);
    WalkSlotsInside(|content|, index);
    FoldIsComplete(H, content, tree, index, 0);
  }

  // ---------------------------------------------------------------------------------------
  // VerifiedFileReader
  // ---------------------------------------------------------------------------------------

  datatype VerifiedFileReader = Reader(fileSize: nat, rootHash: Digest)

  datatype OpenResult = Opened(reader: VerifiedFileReader) | InsufficientData(size: nat) | BadSignature | OpenFailed

  /** Signature check: `None` is an I/O error, otherwise whether the signature fits the signed data. */
  type Authenticator = (seq<byte>, seq<byte>) -> Option<bool>

  /** `VerifiedFileReader::new`, given the answer to its one read of tree chunk 0. */
  function OpenReader(H: HashFn, verify: Authenticator, fileSize: nat, sig: seq<byte>, first: Reply): OpenResult
  {
    if first.Failed? then OpenFailed
    else if |first.bytes| != 4096 then InsufficientData(|first.bytes|)
    else
      var root := H(Buffer(first));
      match verify(sig, FormattedDigest(H, root, fileSize))
      case None => OpenFailed
      case Some(valid) => if valid then Opened(Reader(fileSize, root)) else BadSignature
  }

  /** Exactly when a reader opens, with what, and how it fails otherwise. */
  lemma OpenReaderIff(H: HashFn, verify: Authenticator, fileSize: nat, sig: seq<byte>, first: Reply)
    ensures var r := OpenReader(H, verify, fileSize, sig, first);
            var full := first.Got? && |first.bytes| == 4096;
            && (r.Opened? <==> full && verify(sig, FormattedDigest(H, H(first.bytes), fileSize)) == Some(true))
            && (r.Opened? ==> r.reader == Reader(fileSize, H(first.bytes)))
            && (forall n: nat :: r == InsufficientData(n) <==> first.Got? && |first.bytes| == n && n != 4096)
            && (r.BadSignature? <==> full && verify(sig, FormattedDigest(H, H(first.bytes), fileSize)) == Some(false))
            && (r.OpenFailed? <==>
                  first.Failed? || (full && verify(sig, FormattedDigest(H, H(first.bytes), fileSize)).None?))
  {
    hide FormattedDigest, Pad;
    if first.Got? && |first.bytes| == 4096 { PadFull(first.bytes); }
  }

  /** The signature is for this file: it verifies exactly the file's formatted digest (verifier's root). */
  ghost predicate Signs(H: HashFn, verify: Authenticator, sig: seq<byte>, content: seq<byte>)
    requires content != []
  {
    forall signed: seq<byte> ::
      verify(sig, signed) == Some(true) <==> signed == FormattedDigest(H, VerifierRoot(H, content), |content|)
  }

  /** A reader that opens has the signed file's size and root hash, or two explicit descriptors collide. */
  lemma OpenedReaderIsSigned(
    H: HashFn, verify: Authenticator, fileSize: nat, sig: seq<byte>, first: Reply, content: seq<byte>)
    requires content != [] && |content| <= U64_MAX && fileSize <= U64_MAX
    requires Signs(H, verify, sig, content)
    ensures var r := OpenReader(H, verify, fileSize, sig, first);
            r.Opened? ==>
              || (r.reader.fileSize == |content| && r.reader.rootHash == VerifierRoot(H, content))
              || Collide(H, Descriptor(r.reader.rootHash, fileSize), Descriptor(VerifierRoot(H, content), |content|))
  {
    hide VerifierRoot, Descriptor, FormattedDigest;
    if OpenReader(H, verify, fileSize, sig, first).Opened? {
      DigestBindsRoot(H, H(Buffer(first)), fileSize, VerifierRoot(H, content), |content|);
    }
  }

  /** With the true root page and the true size, a signed file opens. */
  lemma SignedFileOpens(H: HashFn, verify: Authenticator, sig: seq<byte>, page: Block, content: seq<byte>)
    requires content != [] && Signs(H, verify, sig, content)
    requires page == TreePages(H, content)[0]
    ensures OpenReader(H, verify, |content|, sig, Got(page)) == Opened(Reader(|content|, VerifierRoot(H, content)))
  {
    hide TreePages, FormattedDigest, Pad;
    PadFull(page);
  }

  /**
   `VerifiedFileReader::read_chunk` over an arbitrary data source and, for each call, an arbitrary
   tree source; itself a chunk source for `read_chunks`. A read of an empty file stops the program
   on an assertion, and an overflowing walk stops it too; the model counts both as failures.
   */
  function VerifiedSource(H: HashFn, reader: VerifiedFileReader, data: Source, tree: nat -> Source): Source
  {
    (t: nat, index: nat) =>
      var reply := data(t, index);
      if reply.Failed? || reader.fileSize == 0 then Failed
      else if VerityCheck(H, reply.bytes, index, reader.fileSize, tree(t)) == Verified(reader.rootHash) then reply
      else Failed
  }

  /** During call `t` for chunk `index`, the data or a tree page that was served collides with the true one. */
  ghost predicate DeceivedAt(H: HashFn, content: seq<byte>, data: Source, tree: nat -> Source, t: nat, index: nat)
    requires content != [] && index < ChunkCount(|content|)
  {
    || (data(t, index).Got? && Collide(H, Buffer(data(t, index)), ChunkBlock(content, index)))
    || SomePageCollides(H, content, tree(t), index)
  }

  /** Whatever the sources do, a verified read fails, or yields the true chunk, or exhibits a collision. */
  lemma VerifiedReadSound(H: HashFn, content: seq<byte>, data: Source, tree: nat -> Source, t: nat, index: nat)
    requires content != [] && index < ChunkCount(|content|)
    ensures var reply := VerifiedSource(H, Reader(|content|, VerifierRoot(H, content)), data, tree)(t, index);
            reply.Got? ==> Buffer(reply) == ChunkBlock(content, index) || DeceivedAt(H, content, data, tree, t, index)
  {
    hide VerityCheck, VerifierRoot, SomePageCollides;
    var reply := data(t, index);
    if reply.Got? { VerityCheckSound(H, content, reply.bytes, index, tree(t)); }
  }

  /** A data source that answers with the bytes of the file's chunks, empty past the end. */
  ghost predicate ServesFile(content: seq<byte>, data: Source)
  {
    forall t: nat, index: nat :: data(t, index) == Got(ChunkBytes(content, index))
  }

  /** Over honest sources a verified read of a chunk yields exactly its bytes up to files of 2^61 bytes, else fails. */
  lemma VerifiedReadComplete(H: HashFn, content: seq<byte>, data: Source, tree: nat -> Source, t: nat, index: nat)
    requires content != [] && index < ChunkCount(|content|)
    requires ServesFile(content, data) && ServesTree(H, content, tree(t))
    ensures VerifiedSource(H, Reader(|content|, VerifierRoot(H, content)), data, tree)(t, index)
         == if |content| <= MAX_WALK_SIZE then Got(ChunkBytes(content, index)) else Failed
  {
    hide VerityCheck, VerifierRoot, ServesTree, ChunkBytes;
    VerityCheckComplete(H, content, ChunkBytes(content, index), index, tree(t));
  }
}
