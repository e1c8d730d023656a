/**
 `MerkleLeaves`: the in-memory list of leaf hashes that a trusted writer keeps, and the root hash
 and digest computed from it.
 */
module Builder {
  import opened Common
  import opened Crypto
  import opened Geometry
  import opened Merkle

  /** The contents of a `MerkleLeaves`. */
  datatype LeafList = LeafList(leaves: seq<Digest>, fileSize: nat)

  /** Hash of a chunk of zeros, the default leaf. */
  function ZeroLeaf(H: HashFn): Digest { H(Zeros(4096)) }

  function LeafAt(H: HashFn, leaves: seq<Digest>, i: nat): Digest
  {
    if i < |leaves| then leaves[i] else ZeroLeaf(H)
  }

  /** Cuts or extends a list of leaves; new leaves are those of zero chunks. */
  function ResizeLeaves(H: HashFn, leaves: seq<Digest>, n: nat): (r: seq<Digest>)
    ensures |r| == n
    ensures forall i :: 0 <= i < n ==> r[i] == LeafAt(H, leaves, i)
  {
    seq<Digest>(n, i requires 0 <= i => LeafAt(H, leaves, i))
  }

  function Resized(H: HashFn, l: LeafList, size: nat): LeafList
  {
    LeafList(ResizeLeaves(H, l.leaves, ChunkCount(size)), size)
  }

  function HashUpdated(H: HashFn, l: LeafList, index: nat, hash: Digest, sizeAtLeast: nat): LeafList
  {
    LeafList(ResizeLeaves(H, l.leaves, Max(|l.leaves|, index + 1))[index := hash], Max(l.fileSize, sizeAtLeast))
  }

  /** Root hash of a list of leaves: zeros for none, the leaf itself for one, else the last remaining hash. */
  function LeafRoot(H: HashFn, leaves: seq<Digest>): Digest
  {
    if |leaves| == 0 then Zeros(32)
    else if |leaves| == 1 then leaves[0]
    else
      FoldEndsInOneHash(|leaves|);
      Level(H, leaves, MerkleTreeHeight(|leaves| * 4096).value + 1)[0]
  }

  /** For the leaves of a file it is the root hash that the standard defines for that file. */
  lemma LeafRootIsStandard(H: HashFn, content: seq<byte>)
    ensures LeafRoot(H, Leaves(H, content)) == StandardRoot(H, content)
  {
    hide Height, MerkleTreeHeight, Level, NodeBlock;
    if |Leaves(H, content)| >= 2 { FoldedRoot(H, content); }
  }

  /** An empty file has 32 zero bytes as its root; its digest hashes a descriptor that is zero after four bytes. */
  lemma EmptyFileDigest(H: HashFn)
    ensures StandardRoot(H, []) == LeafRoot(H, []) == seq<byte>(32, _ => 0)
    ensures FileDigest(H, []) == H([1, 1, 12, 0] + seq<byte>(252, _ => 0))
  {
    var d := Descriptor(Zeros(32), 0);
    EightZeros();
    assert d == d[..4] + d[4..8] + d[8..16] + d[16..48] + d[48..];
    assert d == [1, 1, 12, 0] + seq<byte>(252, _ => 0);
  }

  lemma EightZeros()
    ensures LeBytes(0, 8) == Zeros(8)
  {
    forall k: nat | k < 8 ensures LeBytes(0, 8)[k] == 0 { LeByteAt(0, 8, k); }
  }

  datatype RootResult = Root(hash: Digest) | InvalidState

  class MerkleLeaves {
    const H: HashFn
    var leaves: seq<Digest>
    var fileSize: nat

    function State(): LeafList reads this { LeafList(leaves, fileSize) }

    constructor (H: HashFn)
      ensures this.H == H && State() == LeafList([], 0)
    {
      this.H, leaves, fileSize := H, [], 0;
    }

    method Resize(newFileSize: nat)
      modifies this
      ensures State() == Resized(H, old(State()), newFileSize)
    {
      leaves := ResizeLeaves(H, leaves, ChunkCount(newFileSize));
      fileSize := newFileSize;
    }

    method UpdateHash(index: nat, hash: Digest, sizeAtLeast: nat)
      modifies this
      ensures State() == HashUpdated(H, old(State()), index, hash, sizeAtLeast)
    {
      if |leaves| < index + 1 {
        leaves := ResizeLeaves(H, leaves, index + 1);
      } else {
        assert ResizeLeaves(H, leaves, |leaves|) == leaves;
      }
      leaves := leaves[index := hash];
      if sizeAtLeast > fileSize {
        fileSize := sizeAtLeast;
      }
    }

    predicate IsIndexValid(index: nat) reads this { index < |leaves| }

    predicate IsConsistent(index: nat, hash: Digest) reads this { index < |leaves| && leaves[index] == hash }

    /** `calculate_root_hash`: the invalid state is never reached. */
    method CalculateRootHash() returns (r: RootResult)
      ensures r == Root(LeafRoot(H, leaves))
      ensures |leaves| == 0 ==> r == Root(seq<byte>(32, _ => 0))
      ensures |leaves| == 1 ==> r == Root(leaves[0])
    {
      hide Height, HashAllPages;
      if |leaves| == 0 {
        r := Root(Zeros(32));
      } else if |leaves| == 1 {
        r := Root(leaves[0]);
      } else {
        var n := |leaves|;
        var level := MerkleTreeHeight(n * 4096).value;
        var hashes := HashAllPages(H, leaves);
        assert hashes == Level(H, leaves, 1) by { assert Level(H, leaves, 0) == leaves; }
        for k := 1 to level + 1
          invariant hashes == Level(H, leaves, k)
        {
          hashes := HashAllPages(H, hashes);
        }
        FoldEndsInOneHash(n);
        if |hashes| != 1 {
          r := InvalidState;
        } else {
          r := Root(hashes[0]);
        }
      }
    }

    /** `calculate_fsverity_digest` of the current leaves and size. */
    method CalculateFsverityDigest() returns (d: Digest)
      ensures d == FsverityDigest(H, LeafRoot(H, leaves), fileSize)
      ensures forall content: seq<byte> ::
                leaves == Leaves(H, content) && fileSize == |content| ==> d == FileDigest(H, content)
    {
      hide StandardRoot, Leaves, Descriptor, LeafRoot;
      var r := CalculateRootHash();
      d := FsverityDigest(H, r.hash, fileSize);
      forall content: seq<byte> | leaves == Leaves(H, content) && fileSize == |content|
        ensures d == FileDigest(H, content)
      {
        LeafRootIsStandard(H, content);
      }
    }
  }

  /** The number of leaves of a non-empty file, which a debug assertion of the builder misses by one. */
  lemma LeavesOfSize(size: nat)
    requires size > 0
    ensures (size - 1) / 4096 == ChunkCount(size) - 1
    ensures (size - 1) / 4096 != ChunkCount(size)
  {}

  /** The height that the builder computes from the number of leaves is the one of the file. */
  lemma HeightFromChunkCount(size: nat)
    requires size > 0
    ensures MerkleTreeHeight(ChunkCount(size) * 4096) == MerkleTreeHeight(size)
    ensures ChunkCount(ChunkCount(size) * 4096) == ChunkCount(size)
  {
    var n := ChunkCount(size);
    DivideRoundupUnique(n * 4096, 4096, n);
    CeilOfCeil(size, 4096, 128);
    CeilOfCeil(n * 4096, 4096, 128);
  }

  /** One page hashing per level leaves exactly one hash. */
  lemma FoldEndsInOneHash(n: nat)
    requires n > 0
    ensures MerkleTreeHeight(n * 4096).Some?
    ensures HashesAtLevel(n, MerkleTreeHeight(n * 4096).value + 1) == 1
  {
    hide HashesAtLevel, MerkleTreeHeight;
    DivideRoundupUnique(n * 4096, 4096, n);
    TopLevelIsSingle(n * 4096, Height(n * 4096));
  }

  /** Folding the leaf hashes of a file of two or more chunks gives the root of its recursive tree. */
  lemma FoldedRoot(H: HashFn, content: seq<byte>)
    requires |Leaves(H, content)| >= 2
    ensures var hashes := Level(H, Leaves(H, content), MerkleTreeHeight(|Leaves(H, content)| * 4096).value + 1);
            |hashes| == 1 && hashes[0] == StandardRoot(H, content)
  {
    hide MerkleTreeHeight, NodeBlock, Level;
    FoldEndsInOneHash(|Leaves(H, content)|);
    HeightFromChunkCount(|content|);
    LevelsMatchRecursion(H, content, Height(|content|) + 1, 0);
  }
}
