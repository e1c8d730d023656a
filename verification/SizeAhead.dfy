/**
 Reading with a signed size that may run ahead of the signed leaves. The writer records the end of a whole
 write with its first chunk, so between two chunk steps, or after a write that was cut short, its digest
 covers the leaves of the content and a larger size. From the size the reader derives how many pages lie
 between a chunk and the root. If that is more than the content's tree has, the reader takes blocks of
 the content for pages of hashes. This module says exactly when a chunk read then succeeds, and what follows.
 */
module SizeAhead {
  import opened Common
  import opened Crypto
  import opened Geometry
  import opened Merkle
  import opened Verifier

  // ---------------------------------------------------------------------------------------
  // A successful read is a chain of blocks
  // ---------------------------------------------------------------------------------------

  /** The blocks that a check of chunk `index` is served, from the chunk itself (0) to the root page. */
  function ServedAt(size: nat, chunk: Reply, tree: Source, index: nat, k: nat): Reply
    requires size > 0
  {
    if k == 0 then chunk else tree(k - 1, PathStep(size, index, k - 1).chunk)
  }

  /** Where, in the block above, the hash of block `k` must be. */
  function Slot(index: nat, k: nat): nat { 32 * (Ancestor(index, k) % 128) }

  /** Block `k + 1` holds the hash of block `k` in its slot. */
  predicate LinkAt(H: HashFn, size: nat, chunk: Reply, tree: Source, index: nat, k: nat)
    requires size > 0
  {
    var block, above := ServedAt(size, chunk, tree, index, k), ServedAt(size, chunk, tree, index, k + 1);
    block.Got? && above.Got? && HashIn(Buffer(above), Slot(index, k)) == H(Buffer(block))
  }

  /** From block `level` up, each block is linked to the one above it, and the last one has the root as its hash. */
  ghost predicate Chained(
    H: HashFn, size: nat, root: Digest, chunk: Reply, tree: Source, index: nat, level: nat)
    requires size > 0
  {
    && (forall k: nat :: level <= k <= Height(size) ==> LinkAt(H, size, chunk, tree, index, k))
    && var last := ServedAt(size, chunk, tree, index, Height(size) + 1);
       last.Got? && H(Buffer(last)) == root
  }

  lemma {:induction false} FoldIffChained(
    H: HashFn, size: nat, root: Digest, chunk: Reply, tree: Source, index: nat, level: nat)
    requires size > 0 && level <= Height(size) + 1 && ServedAt(size, chunk, tree, index, level).Got?
    requires SlotsInside(FsverityWalk(size, index)) && |FsverityWalk(size, index)| == Height(size) + 1
    ensures FoldFrom(H, FsverityWalk(size, index), level, H(Buffer(ServedAt(size, chunk, tree, index, level))), tree)
         == Verified(root)
       <==> Chained(H, size, root, chunk, tree, index, level)
    decreases Height(size) + 1 - level
  {
    hide FsverityWalk, Height, HashIn, Buffer;
    if level <= Height(size) {
      WalkTakesPathSteps(size, index, level);
      if ServedAt(size, chunk, tree, index, level + 1).Got? {
        FoldIffChained(H, size, root, chunk, tree, index, level + 1);
      }
      assert Chained(H, size, root, chunk, tree, index, level) ==> LinkAt(H, size, chunk, tree, index, level);
    }
  }

  /**
   A chunk read succeeds if and only if the size is at most 2^61 and the blocks served form a chain from the
   chunk to the root; it then returns what was served.
   */
  lemma ReadIffChained(
    H: HashFn, size: nat, root: Digest, data: Source, tree: nat -> Source, t: nat, index: nat)
    requires size > 0 && index < ChunkCount(size)
    ensures var reply := VerifiedSource(H, Reader(size, root), data, tree)(t, index);
            && (reply.Got? <==>
                  size <= MAX_WALK_SIZE && Chained(H, size, root, data(t, index), tree(t), index, 0))
            && (reply.Got? ==> reply == data(t, index))
  {
    hide FoldFrom, FsverityWalk, WalkFitsU64, Height;
    WalkFitsExactlyUpToLimit(size, index);
    WalkSlotsInside(size, index);
    WalkTakesPathSteps(size, index, 0);
    if data(t, index).Got? {
      FoldIffChained(H, size, root, data(t, index), tree(t), index, 0);
    } else {
      assert !LinkAt(H, size, data(t, index), tree(t), index, 0);
    }
  }

  // ---------------------------------------------------------------------------------------
  // The content's tree against the one that the size implies
  // ---------------------------------------------------------------------------------------

  /** Level of the node whose hash is the root: the chunk itself in a file of one chunk. */
  function RootLevel(size: nat): nat
    requires size > 0
  {
    if ChunkCount(size) == 1 then 0 else Height(size) + 1
  }

  lemma RootIsNode(H: HashFn, content: seq<byte>)
    requires content != []
    ensures HashesAtLevel(ChunkCount(|content|), RootLevel(|content|)) == 1
    ensures StandardRoot(H, content) == H(NodeBlock(H, content, RootLevel(|content|), 0))
  {
    hide Height, NodeBlock;
    TopLevelIsSingle(|content|, Height(|content|));
    if ChunkCount(|content|) == 1 { LeafBlocks(H, content, content, 0); }
  }

  lemma HeightMonotone(a: nat, b: nat)
    requires 0 < a <= b
    ensures Height(a) <= Height(b)
  {
    hide Log128Ceil, Pow128;
    var x, y := DivideRoundup(a, 128 * 4096), DivideRoundup(b, 128 * 4096);
    Log128CeilIsLeast(x, Height(b));
    Log128CeilIsLeast(y, Height(b));
  }

  /** How many more blocks a reader with this size sees between chunk and root than the content's tree has. */
  function Gap(length: nat, size: nat): nat
    requires 0 < length <= size
  {
    HeightMonotone(length, size);
    Height(size) + 1 - RootLevel(length)
  }

  /** There is no gap exactly when the content has several chunks and the size implies the same height. */
  lemma NoGapIff(length: nat, size: nat)
    requires 0 < length <= size
    ensures Gap(length, size) == 0 <==> ChunkCount(length) >= 2 && Height(size) == Height(length)
  {
    hide Height;
    HeightMonotone(length, size);
  }

  lemma HashPageSlot(ds: seq<Digest>, j: nat)
    requires |ds| <= 128 && j < 128
    ensures HashIn(HashPage(ds), 32 * j) == if j < |ds| then ds[j] else Zeros(32)
  {
    hide Flatten;
    var page := HashPage(ds);
    if j < |ds| {
      FlattenSlot(ds, j);
      assert page[32 * j..32 * j + 32] == Flatten(ds)[32 * j..32 * j + 32];
    } else {
      assert forall p: nat :: 32 * |ds| <= p < 4096 ==> page[p] == 0;
      assert page[32 * j..32 * j + 32] == Zeros(32);
    }
  }

  /** A slot of an inner node holds the hash of the child there, or zeros if there is none. */
  lemma NodeSlot(H: HashFn, content: seq<byte>, level: nat, child: nat)
    requires level > 0 && child / 128 < HashesAtLevel(ChunkCount(|content|), level)
    ensures HashIn(NodeBlock(H, content, level, child / 128), 32 * (child % 128))
         == if child < HashesAtLevel(ChunkCount(|content|), level - 1)
            then H(NodeBlock(H, content, level - 1, child)) else Zeros(32)
  {
    hide HashIn, HashPage, HashesAtLevel, ChildHashes;
    HashPageSlot(ChildHashes(H, content, level, child / 128), child % 128);
    if child < HashesAtLevel(ChunkCount(|content|), level - 1) { ChildHashAt(H, content, level, child); }
  }

  // ---------------------------------------------------------------------------------------
  // What a successful read means
  // ---------------------------------------------------------------------------------------

  /** Block `k` that was served stands where the content's tree has a node, differs from it and has its hash. */
  ghost predicate CollidesAt(
    H: HashFn, content: seq<byte>, size: nat, chunk: Reply, tree: Source, index: nat, k: nat)
    requires 0 < |content| <= size
  {
    var g, block := Gap(|content|, size), ServedAt(size, chunk, tree, index, k);
    && g <= k && Ancestor(index, k) < HashesAtLevel(ChunkCount(|content|), k - g)
    && block.Got? && Collide(H, Buffer(block), NodeBlock(H, content, k - g, Ancestor(index, k)))
  }

  /** Block `k` that was served stands where the content's tree has no node, and its hash is all zeros. */
  ghost predicate ZeroHashAt(
    H: HashFn, content: seq<byte>, size: nat, chunk: Reply, tree: Source, index: nat, k: nat)
    requires 0 < |content| <= size
  {
    var g, block := Gap(|content|, size), ServedAt(size, chunk, tree, index, k);
    && g <= k && Ancestor(index, k) >= HashesAtLevel(ChunkCount(|content|), k - g)
    && block.Got? && H(Buffer(block)) == Zeros(32)
  }

  /** Some block that was served collides with a node of the content's tree, or has the zero hash beside it. */
  ghost predicate Deviates(H: HashFn, content: seq<byte>, size: nat, chunk: Reply, tree: Source, index: nat)
    requires 0 < |content| <= size
  {
    exists k: nat :: k <= Height(size) + 1 &&
      (CollidesAt(H, content, size, chunk, tree, index, k) || ZeroHashAt(H, content, size, chunk, tree, index, k))
  }

  /** A block of the content was served as a page, and holds the hash of the block served below it. */
  predicate ContentAsPage(H: HashFn, content: seq<byte>, size: nat, chunk: Reply, tree: Source, index: nat)
    requires 0 < |content| <= size
  {
    var g := Gap(|content|, size);
    && g > 0 && Ancestor(index, g) < ChunkCount(|content|)
    && var page, below := ServedAt(size, chunk, tree, index, g), ServedAt(size, chunk, tree, index, g - 1);
       && page.Got? && below.Got? && Buffer(page) == ChunkBlock(content, Ancestor(index, g))
       && HashIn(ChunkBlock(content, Ancestor(index, g)), Slot(index, g - 1)) == H(Buffer(below))
  }

  /** Block `k` that was served has the hash of the node of the content's tree that is at its place. */
  ghost predicate AgreesAt(
    H: HashFn, content: seq<byte>, size: nat, chunk: Reply, tree: Source, index: nat, k: nat)
    requires 0 < |content| <= size
  {
    var g, block := Gap(|content|, size), ServedAt(size, chunk, tree, index, k);
    && g <= k && Ancestor(index, k) < HashesAtLevel(ChunkCount(|content|), k - g)
    && block.Got? && H(Buffer(block)) == H(NodeBlock(H, content, k - g, Ancestor(index, k)))
  }

  lemma AgreementGoesDown(
    H: HashFn, content: seq<byte>, size: nat, chunk: Reply, tree: Source, index: nat, k: nat)
    requires 0 < |content| <= size && Gap(|content|, size) <= k
    requires AgreesAt(H, content, size, chunk, tree, index, k + 1) && LinkAt(H, size, chunk, tree, index, k)
    ensures || AgreesAt(H, content, size, chunk, tree, index, k)
            || CollidesAt(H, content, size, chunk, tree, index, k + 1)
            || ZeroHashAt(H, content, size, chunk, tree, index, k)
  {
    hide NodeBlock, Gap, HashesAtLevel, HashIn, Buffer, ServedAt;
    NodeSlot(H, content, k + 1 - Gap(|content|, size), Ancestor(index, k));
  }

  /** From the root down to the level of the content's chunks, the blocks served agree, or one deviates. */
  lemma {:induction false} ChainAgrees(
    H: HashFn, content: seq<byte>, size: nat, chunk: Reply, tree: Source, index: nat, k: nat)
    requires 0 < |content| <= size && index < ChunkCount(size)
    requires Gap(|content|, size) <= k <= Height(size) + 1
    requires Chained(H, size, StandardRoot(H, content), chunk, tree, index, 0)
    ensures AgreesAt(H, content, size, chunk, tree, index, k) || Deviates(H, content, size, chunk, tree, index)
    decreases Height(size) + 1 - k
  {
    hide NodeBlock, HashesAtLevel, LinkAt, StandardRoot, Height, CollidesAt, ZeroHashAt, ServedAt;
    if k == Height(size) + 1 {
      RootIsNode(H, content);
      TopAncestor(size, index);
    } else {
      ChainAgrees(H, content, size, chunk, tree, index, k + 1);
      assert LinkAt(H, size, chunk, tree, index, k);
      if AgreesAt(H, content, size, chunk, tree, index, k + 1) {
        AgreementGoesDown(H, content, size, chunk, tree, index, k);
      }
    }
  }

  lemma TopAncestor(size: nat, index: nat)
    requires size > 0 && index < ChunkCount(size)
    ensures Ancestor(index, Height(size) + 1) == 0
  {
    hide Height;
    TopLevelIsSingle(size, Height(size));
    AncestorInRange(index, ChunkCount(size), Height(size) + 1);
  }

  /**
   Whatever the sources do: a chunk read with the content's root and any size from the content's on fails, or
   some block that was served collides or has the zero hash, or else it yields the content's chunk if there
   is no gap, and took a block of the content for a page if there is one.
   */
  lemma AheadReadSound(
    H: HashFn, content: seq<byte>, size: nat, data: Source, tree: nat -> Source, t: nat, index: nat)
    requires 0 < |content| <= size && index < ChunkCount(size)
    ensures var reply := VerifiedSource(H, Reader(size, StandardRoot(H, content)), data, tree)(t, index);
            reply.Got? ==>
              || Deviates(H, content, size, data(t, index), tree(t), index)
              || if Gap(|content|, size) == 0
                 then index < ChunkCount(|content|) && Buffer(reply) == ChunkBlock(content, index)
                 else ContentAsPage(H, content, size, data(t, index), tree(t), index)
  {
    hide VerifiedSource, StandardRoot, Height, ChunkBlock, Buffer, HashIn;
    ReadIffChained(H, size, StandardRoot(H, content), data, tree, t, index);
    if VerifiedSource(H, Reader(size, StandardRoot(H, content)), data, tree)(t, index).Got? {
      ChunkLevelAgrees(H, content, size, data(t, index), tree(t), index);
    }
  }

  lemma ChunkLevelAgrees(H: HashFn, content: seq<byte>, size: nat, chunk: Reply, tree: Source, index: nat)
    requires 0 < |content| <= size && index < ChunkCount(size)
    requires Chained(H, size, StandardRoot(H, content), chunk, tree, index, 0)
    ensures || Deviates(H, content, size, chunk, tree, index)
            || if Gap(|content|, size) == 0
               then chunk.Got? && index < ChunkCount(|content|) && Buffer(chunk) == ChunkBlock(content, index)
               else ContentAsPage(H, content, size, chunk, tree, index)
  {
    hide StandardRoot, Height, ChunkBlock, Buffer, HashIn;
    var g := Gap(|content|, size);
    ChainAgrees(H, content, size, chunk, tree, index, g);
    if !Deviates(H, content, size, chunk, tree, index) {
      assert !CollidesAt(H, content, size, chunk, tree, index, g);
      if g > 0 { assert LinkAt(H, size, chunk, tree, index, g - 1); }
    }
  }

  // ---------------------------------------------------------------------------------------
  // With a gap, what is read can differ from what was written
  // ---------------------------------------------------------------------------------------

  /** A block under `k` pages, each of which holds the hash of what is below it. */
  function Lifted(H: HashFn, block: Block, k: nat): Block
  {
    if k == 0 then block else HashPage([H(Lifted(H, block, k - 1))])
  }

  /** The sources serve, for chunk 0, the lifted block up to the gap, and from there on the content's own nodes. */
  ghost predicate ServesLifted(H: HashFn, content: seq<byte>, size: nat, other: seq<byte>, tree: Source)
    requires 0 < |content| <= size && |other| <= 4096
  {
    forall k: nat :: k <= Height(size) + 1 ==> LiftedAt(H, content, size, other, tree, k)
  }

  ghost predicate LiftedAt(H: HashFn, content: seq<byte>, size: nat, other: seq<byte>, tree: Source, k: nat)
    requires 0 < |content| <= size && |other| <= 4096
  {
    var block, g := ServedAt(size, Got(other), tree, 0, k), Gap(|content|, size);
    && block.Got?
    && if k < g then Buffer(block) == Lifted(H, Pad(other), k)
       else 0 < HashesAtLevel(ChunkCount(|content|), k - g) && Buffer(block) == NodeBlock(H, content, k - g, 0)
  }

  lemma {:induction false} FirstAncestor(k: nat)
    ensures Ancestor(0, k) == 0 && Slot(0, k) == 0
  {
    if k > 0 { FirstAncestor(k - 1); }
  }

  lemma LiftedLink(H: HashFn, content: seq<byte>, size: nat, other: seq<byte>, tree: Source, k: nat)
    requires 0 < |content| <= size && |other| <= 4096 && Gap(|content|, size) > 0
    requires HashIn(ChunkBlock(content, 0), 0) == H(Lifted(H, Pad(other), Gap(|content|, size) - 1))
    requires LiftedAt(H, content, size, other, tree, k) && LiftedAt(H, content, size, other, tree, k + 1)
    ensures LinkAt(H, size, Got(other), tree, 0, k)
  {
    hide ServedAt, Buffer, HashPage, Gap, HashIn, ChunkBlock;
    var g := Gap(|content|, size);
    FirstAncestor(k);
    if k + 1 < g {
      LeafInPage(H(Lifted(H, Pad(other), k)));
    } else if k >= g {
      NodeSlot(H, content, k + 1 - g, 0);
    }
  }

  /**
   For every hash function, content and size with a gap, and any `other` chunk: if the content begins with the
   hash of the lifted chunk, the read of chunk 0 can return `other`, and no block that was served deviates.
   */
  lemma AheadReadCanDiffer(
    H: HashFn, content: seq<byte>, size: nat, other: seq<byte>, data: Source, tree: nat -> Source, t: nat)
    requires 0 < |content| <= size <= MAX_WALK_SIZE && |other| <= 4096 && Gap(|content|, size) > 0
    requires HashIn(ChunkBlock(content, 0), 0) == H(Lifted(H, Pad(other), Gap(|content|, size) - 1))
    requires data(t, 0) == Got(other) && ServesLifted(H, content, size, other, tree(t))
    ensures VerifiedSource(H, Reader(size, StandardRoot(H, content)), data, tree)(t, 0) == Got(other)
    ensures !Deviates(H, content, size, data(t, 0), tree(t), 0)
  {
    hide VerifiedSource, StandardRoot, Height, LiftedAt, LinkAt, Lifted, HashIn, ChunkBlock, CollidesAt, ZeroHashAt;
    forall k: nat | k <= Height(size) + 1
      ensures !CollidesAt(H, content, size, Got(other), tree(t), 0, k)
           && !ZeroHashAt(H, content, size, Got(other), tree(t), 0, k)
    {
      assert LiftedAt(H, content, size, other, tree(t), k);
      LiftedDoesNotDeviate(H, content, size, other, tree(t), k);
    }
    forall k: nat | k <= Height(size) ensures LinkAt(H, size, Got(other), tree(t), 0, k) {
      assert LiftedAt(H, content, size, other, tree(t), k) && LiftedAt(H, content, size, other, tree(t), k + 1);
      LiftedLink(H, content, size, other, tree(t), k);
    }
    LiftedTop(H, content, size, other, tree(t));
    ReadIffChained(H, size, StandardRoot(H, content), data, tree, t, 0);
  }

  lemma LiftedDoesNotDeviate(
    H: HashFn, content: seq<byte>, size: nat, other: seq<byte>, tree: Source, k: nat)
    requires 0 < |content| <= size && |other| <= 4096 && LiftedAt(H, content, size, other, tree, k)
    ensures !CollidesAt(H, content, size, Got(other), tree, 0, k)
    ensures !ZeroHashAt(H, content, size, Got(other), tree, 0, k)
  {
    hide Gap, NodeBlock, HashesAtLevel, Buffer, ServedAt, Lifted;
    FirstAncestor(k);
  }

  lemma LiftedTop(H: HashFn, content: seq<byte>, size: nat, other: seq<byte>, tree: Source)
    requires 0 < |content| <= size && |other| <= 4096
    requires LiftedAt(H, content, size, other, tree, Height(size) + 1)
    ensures var last := ServedAt(size, Got(other), tree, 0, Height(size) + 1);
            last.Got? && H(Buffer(last)) == StandardRoot(H, content)
  {
    hide Height, NodeBlock, StandardRoot, Buffer, ServedAt;
    RootIsNode(H, content);
  }
}
