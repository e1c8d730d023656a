/**
 The fs-verity Merkle tree of a byte file, three ways: hashed level by level as the builder does,
 top down as the standard defines it, and laid out root first as the verifier reads it.
 */
module Merkle {
  import opened Common
  import opened Crypto
  import opened Geometry

  // ---------------------------------------------------------------------------------------
  // Pages of hashes
  // ---------------------------------------------------------------------------------------

  function Flatten(ds: seq<Digest>): (s: seq<byte>)
    ensures |s| == 32 * |ds|
  {
    if ds == [] then [] else ds[0] + Flatten(ds[1..])
  }

  lemma {:induction false} FlattenSlot(ds: seq<Digest>, j: nat)
    requires j < |ds|
    ensures Flatten(ds)[32 * j..32 * j + 32] == ds[j]
  {
    var first: seq<byte>, rest := ds[0], Flatten(ds[1..]);
    if j == 0 {
      assert (first + rest)[0..32] == first;
    } else {
      FlattenSlot(ds[1..], j - 1);
      assert (first + rest)[32 * j..32 * j + 32] == rest[32 * (j - 1)..32 * (j - 1) + 32];
    }
  }

  /** At most 128 hashes in one page, padded with zeros. */
  function HashPage(ds: seq<Digest>): Block
    requires |ds| <= 128
  {
    Flatten(ds) + Zeros((128 - |ds|) * 32)
  }

  function PageCount(hashes: seq<Digest>): nat { DivideRoundup(|hashes|, 128) }

  /** Page `k` of a list of hashes cut into groups of 128. */
  function Page(hashes: seq<Digest>, k: nat): Block
    requires k < PageCount(hashes)
  {
    HashPage(hashes[128 * k..Min(128 * k + 128, |hashes|)])
  }

  /** Slot `p % 128` of page `p / 128` holds hash `p`. */
  lemma PageSlot(hashes: seq<Digest>, p: nat)
    requires p < |hashes|
    ensures p / 128 < PageCount(hashes)
    ensures Page(hashes, p / 128)[32 * (p % 128)..32 * (p % 128) + 32] == hashes[p]
  {
    var k, j := p / 128, p % 128;
    var group := hashes[128 * k..Min(128 * k + 128, |hashes|)];
    FlattenSlot(group, j);
    assert Page(hashes, k)[32 * j..32 * j + 32] == Flatten(group)[32 * j..32 * j + 32];
  }

  /** Equal padded pages of equally many hashes hold the same hashes. */
  lemma HashPageInjective(a: seq<Digest>, b: seq<Digest>, j: nat)
    requires |a| == |b| <= 128 && HashPage(a) == HashPage(b) && j < |a|
    ensures a[j] == b[j]
  {
    FlattenSlot(a, j);
    FlattenSlot(b, j);
    assert HashPage(a)[32 * j..32 * j + 32] == Flatten(a)[32 * j..32 * j + 32];
    assert HashPage(b)[32 * j..32 * j + 32] == Flatten(b)[32 * j..32 * j + 32];
  }

  // ---------------------------------------------------------------------------------------
  // Level by level
  // ---------------------------------------------------------------------------------------

  function HashAllPages(H: HashFn, source: seq<Digest>): seq<Digest>
  {
    seq<Digest>(PageCount(source), k requires 0 <= k < PageCount(source) => H(Page(source, k)))
  }

  function Level(H: HashFn, leaves: seq<Digest>, level: nat): (hashes: seq<Digest>)
    ensures |hashes| == HashesAtLevel(|leaves|, level)
  {
    if level == 0 then leaves else HashAllPages(H, Level(H, leaves, level - 1))
  }

  /** The leaf hashes of a file. */
  function Leaves(H: HashFn, content: seq<byte>): seq<Digest>
  {
    seq<Digest>(ChunkCount(|content|), i requires 0 <= i => H(ChunkBlock(content, i)))
  }

  // ---------------------------------------------------------------------------------------
  // Top down, from the content alone
  // ---------------------------------------------------------------------------------------

  /** How many children node `k` of `level > 0` has over `n` leaves. */
  function Children(n: nat, level: nat, k: nat): nat
    requires level > 0 && k < HashesAtLevel(n, level)
  {
    Min(128, HashesAtLevel(n, level - 1) - 128 * k)
  }

  /** The block whose hash is node `k` of `level`: the padded data chunk, or the padded child hashes. */
  function NodeBlock(H: HashFn, content: seq<byte>, level: nat, k: nat): Block
    requires k < HashesAtLevel(ChunkCount(|content|), level)
    decreases level, 1
  {
    if level == 0 then ChunkBlock(content, k) else HashPage(ChildHashes(H, content, level, k))
  }

  /** The hashes of the children of node `k` of `level`. */
  function ChildHashes(H: HashFn, content: seq<byte>, level: nat, k: nat): (hashes: seq<Digest>)
    requires level > 0 && k < HashesAtLevel(ChunkCount(|content|), level)
    ensures |hashes| == Children(ChunkCount(|content|), level, k)
    decreases level, 0
  {
    var n := Children(ChunkCount(|content|), level, k);
    seq<Digest>(n, j requires 0 <= j < n => H(NodeBlock(H, content, level - 1, 128 * k + j)))
  }

  /** Hashing level by level computes exactly the recursively defined nodes. */
  lemma {:induction false} LevelsMatchRecursion(H: HashFn, content: seq<byte>, level: nat, k: nat)
    requires k < HashesAtLevel(ChunkCount(|content|), level)
    ensures Level(H, Leaves(H, content), level)[k] == H(NodeBlock(H, content, level, k))
    ensures level > 0 ==> Page(Level(H, Leaves(H, content), level - 1), k) == NodeBlock(H, content, level, k)
    decreases level
  {
    if level > 0 {
      var below := Level(H, Leaves(H, content), level - 1);
      var group := below[128 * k..Min(128 * k + 128, |below|)];
      var children := ChildHashes(H, content, level, k);
      forall j: nat | j < |children| ensures group[j] == children[j] {
        LevelsMatchRecursion(H, content, level - 1, 128 * k + j);
      }
      assert group == children;
      assert HashAllPages(H, below)[k] == H(Page(below, k));
    } else {
      assert Leaves(H, content)[k] == H(ChunkBlock(content, k));
    }
  }

  // ---------------------------------------------------------------------------------------
  // Root hash of the standard
  // ---------------------------------------------------------------------------------------

  /** Zeros for an empty file, the leaf for a one-chunk file, otherwise the hash of the root node. */
  function StandardRoot(H: HashFn, content: seq<byte>): Digest
  {
    var n := ChunkCount(|content|);
    if n == 0 then Zeros(32)
    else if n == 1 then H(ChunkBlock(content, 0))
    else
      TopLevelIsSingle(|content|, Height(|content|));
      H(NodeBlock(H, content, Height(|content|) + 1, 0))
  }

  function FileDigest(H: HashFn, content: seq<byte>): Digest
  {
    FsverityDigest(H, StandardRoot(H, content), |content|)
  }

  /** Node `(level, k)` is a different block in the two files and yet has the same hash. */
  ghost predicate NodesCollide(H: HashFn, c: seq<byte>, d: seq<byte>, level: nat, k: nat)
  {
    && |c| == |d| && k < HashesAtLevel(ChunkCount(|c|), level)
    && Collide(H, NodeBlock(H, c, level, k), NodeBlock(H, d, level, k))
  }

  /** Descends from an agreeing node to the chunk below it, or finds a colliding node on the way. */
  lemma {:induction false} NodeBindsChunk(H: HashFn, c: seq<byte>, d: seq<byte>, index: nat, level: nat)
    requires |c| == |d| && index < ChunkCount(|c|)
    requires Ancestor(index, level) < HashesAtLevel(ChunkCount(|c|), level)
    requires H(NodeBlock(H, c, level, Ancestor(index, level))) == H(NodeBlock(H, d, level, Ancestor(index, level)))
    ensures ChunkBlock(c, index) == ChunkBlock(d, index)
         || exists l: nat :: l <= level && NodesCollide(H, c, d, l, Ancestor(index, l))
    decreases level
  {
    hide NodeBlock, HashesAtLevel;
    var k := Ancestor(index, level);
    if level == 0 { LeafBlocks(H, c, d, index); }
    if NodeBlock(H, c, level, k) != NodeBlock(H, d, level, k) {
      assert NodesCollide(H, c, d, level, Ancestor(index, level));
    } else if level > 0 {
      AncestorInRange(index, ChunkCount(|c|), level - 1);
      BlockBindsChild(H, c, d, level, Ancestor(index, level - 1));
      NodeBindsChunk(H, c, d, index, level - 1);
    }
  }

  lemma LeafBlocks(H: HashFn, c: seq<byte>, d: seq<byte>, i: nat)
    requires |c| == |d| && i < ChunkCount(|c|)
    ensures HashesAtLevel(ChunkCount(|c|), 0) == ChunkCount(|c|)
    ensures NodeBlock(H, c, 0, i) == ChunkBlock(c, i) && NodeBlock(H, d, 0, i) == ChunkBlock(d, i)
  {}

  /** Equal blocks of an inner node have equal child hashes. */
  lemma BlockBindsChild(H: HashFn, c: seq<byte>, d: seq<byte>, level: nat, child: nat)
    requires |c| == |d| && level > 0 && child < HashesAtLevel(ChunkCount(|c|), level - 1)
    requires child / 128 < HashesAtLevel(ChunkCount(|c|), level)
    requires NodeBlock(H, c, level, child / 128) == NodeBlock(H, d, level, child / 128)
    ensures H(NodeBlock(H, c, level - 1, child)) == H(NodeBlock(H, d, level - 1, child))
  {
    var k, j := child / 128, child % 128;
    HashPageInjective(ChildHashes(H, c, level, k), ChildHashes(H, d, level, k), j);
    ChildHashAt(H, c, level, child);
    ChildHashAt(H, d, level, child);
  }

  lemma ChildHashAt(H: HashFn, c: seq<byte>, level: nat, child: nat)
    requires level > 0 && child < HashesAtLevel(ChunkCount(|c|), level - 1)
    requires child / 128 < HashesAtLevel(ChunkCount(|c|), level)
    ensures child % 128 < Children(ChunkCount(|c|), level, child / 128)
    ensures ChildHashes(H, c, level, child / 128)[child % 128] == H(NodeBlock(H, c, level - 1, child))
  {
    hide NodeBlock;
    assert 128 * (child / 128) + child % 128 == child;
  }

  /**
   The fs-verity digest determines the file: two files with one digest are equal, or their
   descriptors collide, or the nodes at one position of their trees collide.
   */
  lemma DigestBindsContent(H: HashFn, c: seq<byte>, d: seq<byte>)
    requires |c| <= U64_MAX && |d| <= U64_MAX
    ensures FileDigest(H, c) == FileDigest(H, d) ==>
              || c == d
              || Collide(H, Descriptor(StandardRoot(H, c), |c|), Descriptor(StandardRoot(H, d), |d|))
              || exists level: nat, k: nat :: NodesCollide(H, c, d, level, k)
  {
    hide StandardRoot, Descriptor, NodesCollide;
    if FileDigest(H, c) == FileDigest(H, d) { DigestBindsRoot(H, StandardRoot(H, c), |c|, StandardRoot(H, d), |d|); }
    if StandardRoot(H, c) == StandardRoot(H, d) && |c| == |d|
       && !exists level: nat, k: nat :: NodesCollide(H, c, d, level, k)
    {
      forall i: nat | i < ChunkCount(|c|) ensures ChunkBlock(c, i) == ChunkBlock(d, i) {
        RootBindsChunk(H, c, d, i);
      }
      ChunksDetermineFile(c, d);
    }
  }

  lemma RootBindsChunk(H: HashFn, c: seq<byte>, d: seq<byte>, i: nat)
    requires |c| == |d| && i < ChunkCount(|c|)
    requires StandardRoot(H, c) == StandardRoot(H, d)
    ensures ChunkBlock(c, i) == ChunkBlock(d, i)
         || exists level: nat, k: nat :: NodesCollide(H, c, d, level, k)
  {
    if ChunkCount(|c|) == 1 {
      assert Ancestor(i, 0) == 0;
      NodeBindsChunk(H, c, d, i, 0);
    } else {
      var top := Height(|c|) + 1;
      TopLevelIsSingle(|c|, Height(|c|));
      AncestorInRange(i, ChunkCount(|c|), top);
      NodeBindsChunk(H, c, d, i, top);
    }
  }

  // ---------------------------------------------------------------------------------------
  // Root-first layout
  // ---------------------------------------------------------------------------------------

  /** The tree pages of `level`. */
  function LevelPages(H: HashFn, content: seq<byte>, level: nat): (pages: seq<Block>)
    ensures |pages| == Nodes(|content|, level)
  {
    var hashes := Level(H, Leaves(H, content), level);
    seq<Block>(PageCount(hashes), k requires 0 <= k < PageCount(hashes) => Page(hashes, k))
  }

  /** The serialised tree from the root down to and including `level`. */
  function PagesDownTo(H: HashFn, content: seq<byte>, level: nat): seq<Block>
    requires content != []
    decreases Height(|content|) - level
  {
    (if level >= Height(|content|) then [] else PagesDownTo(H, content, level + 1)) + LevelPages(H, content, level)
  }

  lemma {:induction false} PagesDownToLength(H: HashFn, content: seq<byte>, level: nat)
    requires content != [] && level <= Height(|content|)
    ensures |PagesDownTo(H, content, level)| == LevelStart(|content|, level) + Nodes(|content|, level)
    decreases Height(|content|) - level
  {
    if level < Height(|content|) { PagesDownToLength(H, content, level + 1); }
  }

  /** The whole tree as the verifier's Merkle tree source serves it, one chunk per page. */
  function TreePages(H: HashFn, content: seq<byte>): (pages: seq<Block>)
    requires content != []
    ensures |pages| == TreeChunks(|content|)
  {
    PagesDownToLength(H, content, 0);
    PagesDownTo(H, content, 0)
  }

  lemma PagesOfOwnLevel(H: HashFn, content: seq<byte>, level: nat, k: nat)
    requires content != [] && IsNode(|content|, level, k)
    ensures NodeChunk(|content|, level, k) < |PagesDownTo(H, content, level)|
    ensures PagesDownTo(H, content, level)[NodeChunk(|content|, level, k)] == LevelPages(H, content, level)[k]
  {
    hide Height, LevelPages, Nodes;
    PagesDownToLength(H, content, level);
    if level < Height(|content|) { PagesDownToLength(H, content, level + 1); }
  }

  lemma PagesOneMore(H: HashFn, content: seq<byte>, level: nat)
    requires content != [] && level < Height(|content|)
    ensures PagesDownTo(H, content, level) == PagesDownTo(H, content, level + 1) + LevelPages(H, content, level)
  {}

  lemma {:induction false} HigherLevelsComeFirst(H: HashFn, content: seq<byte>, low: nat, high: nat, c: nat)
    requires content != [] && low <= high <= Height(|content|) && c < |PagesDownTo(H, content, high)|
    ensures c < |PagesDownTo(H, content, low)|
    ensures PagesDownTo(H, content, low)[c] == PagesDownTo(H, content, high)[c]
    decreases high - low
  {
    hide Height, LevelPages, PagesDownTo;
    if low < high {
      HigherLevelsComeFirst(H, content, low + 1, high, c);
      PagesOneMore(H, content, low);
    }
  }

  /** Chunk `NodeChunk(level, k)` of the serialised tree is page `k` of that level. */
  lemma PagesInLayout(H: HashFn, content: seq<byte>, level: nat, k: nat)
    requires content != [] && IsNode(|content|, level, k)
    ensures NodeChunk(|content|, level, k) < |TreePages(H, content)|
    ensures TreePages(H, content)[NodeChunk(|content|, level, k)] == Page(Level(H, Leaves(H, content), level), k)
  {
    PagesOfOwnLevel(H, content, level, k);
    HigherLevelsComeFirst(H, content, 0, level, NodeChunk(|content|, level, k));
  }

  /** The root hash that the verifier computes: the hash of chunk 0 of the tree. */
  function VerifierRoot(H: HashFn, content: seq<byte>): Digest
    requires content != []
  {
    H(TreePages(H, content)[0])
  }

  /** From two chunks on, the verifier's root is the standard's. */
  lemma RootsAgree(H: HashFn, content: seq<byte>)
    requires ChunkCount(|content|) >= 2
    ensures VerifierRoot(H, content) == StandardRoot(H, content)
  {
    var top := Height(|content|);
    TopLevelIsSingle(|content|, top);
    PagesInLayout(H, content, top, 0);
    LevelsMatchRecursion(H, content, top + 1, 0);
  }

  /** With a single chunk the verifier hashes a page that holds the leaf, where the standard takes the leaf. */
  lemma OneChunkRoots(H: HashFn, content: seq<byte>)
    requires ChunkCount(|content|) == 1
    ensures StandardRoot(H, content) == H(ChunkBlock(content, 0))
    ensures VerifierRoot(H, content) == H(HashPage([StandardRoot(H, content)]))
  {
    TopLevelIsSingle(|content|, 0);
    PagesInLayout(H, content, 0, 0);
    assert Leaves(H, content) == [StandardRoot(H, content)];
  }

  /** A hash function and a one-chunk file for which the two roots differ. */
  lemma OneChunkRootsCanDiffer(H: HashFn, content: seq<byte>)
    requires H == FirstByteMarked && content == [1]
    ensures ChunkCount(|content|) == 1 && VerifierRoot(H, content) != StandardRoot(H, content)
  {
    hide StandardRoot, VerifierRoot, FirstByteMarked, HashPage;
    OneChunkRoots(H, content);
    var leaf := StandardRoot(H, content);
    MarkAdvances(ChunkBlock(content, 0));
    MarkAdvances(HashPage([leaf]));
    PageStartsWithFirstHash(leaf);
  }

  lemma PageStartsWithFirstHash(d: Digest)
    ensures HashPage([d])[0] == d[0]
  {
    FlattenSlot([d], 0);
    assert Flatten([d])[0..32][0] == d[0];
  }

  lemma MarkAdvances(s: seq<byte>)
    requires s != []
    ensures FirstByteMarked(s)[0] as int == (s[0] as int + 1) % 256
  {}

  /** A toy hash: 32 copies of one more than the first byte. */
  function FirstByteMarked(s: seq<byte>): Digest
  {
    var first: int := if s == [] then 0 else s[0] as int;
    var digest: seq<byte> := seq(32, _ => ((first + 1) % 256) as byte);
    digest
  }
}
