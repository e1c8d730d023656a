/**
 A write that was cut short, or is still going on: an instance that shows the gap of `SizeAhead` to be reachable.
 */
module CutShort {
  import opened Common
  import opened Crypto
  import opened Geometry
  import opened Merkle
  import opened Verifier
  import opened SizeAhead
  import opened Builder
  import opened EditorModel
  import opened RoundTrip

  /** A write that ends at `size`, of which two chunks were written and the third failed in the store. */
  function Interrupted(content: seq<byte>, size: nat): seq<Event>
    requires |content| == 8192
  {
    [ChunkWrite(content[..4096], 0, size, Failed, true),
     ChunkWrite(content[4096..], 4096, size, Failed, true),
     ChunkWrite(Zeros(4096), 8192, size, Failed, false)]
  }

  /** What the writer has after the first `n` of these events. */
  lemma InterruptedAfter(H: HashFn, content: seq<byte>, size: nat, n: nat)
    requires |content| == 8192 && 12288 <= size && n <= 3
    ensures AllWellFormed(Interrupted(content, size)[..n]) && !Misled(H, Interrupted(content, size)[..n])
    ensures Trusted(H, Interrupted(content, size)[..n]) == content[..Min(4096 * n, 8192)]
    ensures Tracks(H, Run(H, Interrupted(content, size)[..n]), content[..Min(4096 * n, 8192)])
    ensures Run(H, Interrupted(content, size)[..n]).fileSize == if n == 0 then 0 else size
  {
    hide Splice, Leaves;
    var events := Interrupted(content, size);
    assert AllWellFormed(events);
    if n == 0 {
      EmptyTracks(H);
    } else {
      InterruptedAfter(H, content, size, n - 1);
      var before, e := events[..n - 1], events[n - 1];
      assert events[..n] == before + [e];
      RunOneMore(H, before, e);
      ChunkWriteTracks(H, Run(H, before), Trusted(H, before), e);
      if n < 3 {
        AppendBySplice(content, n);
        assert e.src == content[4096 * (n - 1)..4096 * n];
      }
      NotMisledOneMore(H, before, e);
    }
  }

  lemma NotMisledOneMore(H: HashFn, events: seq<Event>, e: Event)
    requires AllWellFormed(events) && AllWellFormed(events + [e]) && !Misled(H, events)
    requires !Misleads(H, Run(H, events), Trusted(H, events), e)
    ensures !Misled(H, events + [e])
  {
    hide Run, Trusted, Misleads;
    var all := events + [e];
    forall k: nat | k < |all| ensures !Misleads(H, Run(H, all[..k]), Trusted(H, all[..k]), all[k]) {
      if k < |events| { assert all[..k] == events[..k]; } else { assert all[..k] == events; }
    }
  }

  lemma AppendBySplice(content: seq<byte>, n: nat)
    requires |content| == 8192 && 1 <= n <= 2
    ensures Splice(content[..4096 * (n - 1)], 4096 * (n - 1), content[4096 * (n - 1)..4096 * n]) == content[..4096 * n]
  {}

  /** A write to byte 819200 implies one page more between chunk and root than two chunks have. */
  lemma InterruptedHeights()
    ensures Height(8192) == 0 && Height(819200) == 1
  {
    assert DivideRoundup(8192, 128 * 4096) == 1 && DivideRoundup(819200, 128 * 4096) == 2;
    assert BitLength(1) == 1 + BitLength(0);
  }

  lemma InterruptedGap(length: nat, size: nat)
    requires ChunkCount(length) == 2 && Height(length) == 0 && length <= size && Height(size) == 1
    ensures Gap(length, size) == 1 && RootLevel(length) == 1
    ensures PathStep(size, 0, 0).chunk == 1 && PathStep(size, 0, 1).chunk == 0
  {
    hide HashesAtLevel, Height;
    FirstAncestor(1);
    FirstAncestor(2);
    TopLevelIsSingle(size, 1);
    assert LevelStart(size, 1) == 0 && LevelStart(size, 0) == LevelStart(size, 1) + Nodes(size, 1);
  }

  /** The root node of a few chunks is the page of their leaves. */
  lemma OnePageRoot(H: HashFn, content: seq<byte>)
    requires 2 <= |Leaves(H, content)| <= 128
    ensures HashesAtLevel(ChunkCount(|content|), 1) == 1
    ensures NodeBlock(H, content, 1, 0) == HashPage(Leaves(H, content))
  {
    hide HashPage, NodeBlock, Leaves;
    LeavesLength(H, content);
    LevelsMatchRecursion(H, content, 1, 0);
    var leaves := Leaves(H, content);
    assert Level(H, leaves, 0) == leaves && leaves[0..|leaves|] == leaves;
  }

  lemma FirstHashOfFile(content: seq<byte>)
    requires |content| >= 32
    ensures HashIn(ChunkBlock(content, 0), 0) == content[..32]
  {
    forall j: nat | j < 32 ensures ChunkBlock(content, 0)[j] == content[j] { BlockAt(content, 0, j); }
  }

  lemma InterruptedServes(H: HashFn, content: seq<byte>, size: nat, other: seq<byte>, page: Block, tree: Source)
    requires |Leaves(H, content)| == 2 && Height(|content|) == 0 && |content| <= size && Height(size) == 1
    requires |other| <= 4096 && page == HashPage(Leaves(H, content))
    requires tree(0, 1) == Got(ChunkBlock(content, 0)) && tree(1, 0) == Got(page)
    ensures ServesLifted(H, content, size, other, tree)
  {
    hide HashPage, ChunkBlock, Height, PathStep, Leaves, Gap, Pad, NodeBlock, HashesAtLevel, LiftedAt;
    LeavesLength(H, content);
    InterruptedGap(|content|, size);
    OnePageRoot(H, content);
    LeafBlocks(H, content, content, 0);
    PadFull(page);
    PadFull(ChunkBlock(content, 0));
    ServesBelow(H, content, size, other, tree);
    ServesNode(H, content, size, other, tree, 1);
    ServesNode(H, content, size, other, tree, 2);
  }

  lemma ServesBelow(H: HashFn, content: seq<byte>, size: nat, other: seq<byte>, tree: Source)
    requires 0 < |content| <= size && Gap(|content|, size) == 1 && |other| <= 4096
    ensures LiftedAt(H, content, size, other, tree, 0)
  {
    hide Gap, Pad, NodeBlock, HashesAtLevel;
  }

  lemma ServesNode(H: HashFn, content: seq<byte>, size: nat, other: seq<byte>, tree: Source, k: nat)
    requires 0 < |content| <= size && Gap(|content|, size) == 1 && |other| <= 4096 && 1 <= k
    requires 0 < HashesAtLevel(ChunkCount(|content|), k - 1)
    requires var reply := tree(k - 1, PathStep(size, 0, k - 1).chunk);
             reply.Got? && Buffer(reply) == NodeBlock(H, content, k - 1, 0)
    ensures LiftedAt(H, content, size, other, tree, k)
  {
    hide Gap, Pad, NodeBlock, HashesAtLevel, PathStep, Lifted;
  }

  /**
   An input for which what is read is not what was written, with two chunks, no misled event and no collision,
   for every hash function: a write to byte 819200 was cut short after two chunks, of which the first
   begins with the hash of `other`. Signed and served with the first chunk as a page, the file opens with
   the size of the whole write, and its first chunk reads as `other`. The failed third step is not needed:
   it changes nothing, so the digest taken between the chunk steps of an ordinary write is the same.
   */
  lemma InterruptedReadDiffers(
    H: HashFn, content: seq<byte>, size: nat, other: seq<byte>, verify: Authenticator, sig: seq<byte>, page: Block,
    data: Source, tree: nat -> Source, n: nat)
    requires |content| == 8192 && size == 819200 && |other| <= 4096 && content[..32] == H(Pad(other)) && 2 <= n <= 3
    requires AllWellFormed(Interrupted(content, size)[..n])
    requires SignsLeaves(H, verify, sig, Run(H, Interrupted(content, size)[..n]))
    requires |Leaves(H, content)| == 2 && page == HashPage(Leaves(H, content))
    requires data(0, 0) == Got(other) && tree(0)(0, 1) == Got(ChunkBlock(content, 0)) && tree(0)(1, 0) == Got(page)
    ensures Trusted(H, Interrupted(content, size)[..n]) == content && !Misled(H, Interrupted(content, size)[..n])
    ensures OpenReader(H, verify, size, sig, Got(page)) == Opened(Reader(size, StandardRoot(H, content)))
    ensures VerifiedSource(H, Reader(size, StandardRoot(H, content)), data, tree)(0, 0) == Got(other)
    ensures !Deviates(H, content, size, data(0, 0), tree(0), 0)
  {
    hide Run, Trusted, Leaves, LeafRoot, StandardRoot, VerifiedSource, FormattedDigest, HashPage, ChunkBlock, Misled;
    hide Height, Gap, Pad, ServesLifted, HashIn, SignsLeaves, Deviates;
    assert content[..8192] == content;
    InterruptedAfter(H, content, size, n);
    InterruptedHeights();
    InterruptedOpens(H, content, Run(H, Interrupted(content, size)[..n]), verify, sig, page);
    InterruptedRead(H, content, size, other, page, data, tree);
  }

  lemma InterruptedOpens(
    H: HashFn, content: seq<byte>, l: LeafList, verify: Authenticator, sig: seq<byte>, page: Block)
    requires |Leaves(H, content)| == 2 && Height(|content|) == 0 && page == HashPage(Leaves(H, content))
    requires Tracks(H, l, content) && SignsLeaves(H, verify, sig, l)
    ensures OpenReader(H, verify, l.fileSize, sig, Got(page)) == Opened(Reader(l.fileSize, StandardRoot(H, content)))
  {
    hide Leaves, LeafRoot, StandardRoot, FormattedDigest, HashPage, Height, Pad, NodeBlock, HashesAtLevel;
    LeavesLength(H, content);
    LeafRootIsStandard(H, content);
    RootIsNode(H, content);
    OnePageRoot(H, content);
    PadFull(page);
  }

  lemma InterruptedRead(
    H: HashFn, content: seq<byte>, size: nat, other: seq<byte>, page: Block, data: Source, tree: nat -> Source)
    requires |Leaves(H, content)| == 2 && |content| >= 32 && Height(|content|) == 0
    requires |content| <= size && Height(size) == 1
    requires |other| <= 4096 && content[..32] == H(Pad(other)) && page == HashPage(Leaves(H, content))
    requires data(0, 0) == Got(other) && tree(0)(0, 1) == Got(ChunkBlock(content, 0)) && tree(0)(1, 0) == Got(page)
    ensures VerifiedSource(H, Reader(size, StandardRoot(H, content)), data, tree)(0, 0) == Got(other)
    ensures !Deviates(H, content, size, data(0, 0), tree(0), 0)
  {
    hide Leaves, Deviates, StandardRoot, VerifiedSource, HashPage, ChunkBlock, Height, Gap, Pad, ServesLifted, HashIn;
    LeavesLength(H, content);
    HeightUpToLimit(size);
    InterruptedGap(|content|, size);
    FirstHashOfFile(content);
    InterruptedServes(H, content, size, other, page, tree(0));
    assert Lifted(H, Pad(other), 0) == Pad(other);
    AheadReadCanDiffer(H, content, size, other, data, tree, 0);
  }
}
