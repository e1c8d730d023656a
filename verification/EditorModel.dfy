/**
 The chunk steps and resizes of `VerifiedFileEditor`, as a state machine over its leaf list. The
 answers of the store, which is not trusted, are part of each event.

 The trusted content is the plain byte file to which exactly the writes and resizes reported
 successful have been applied.
 */
module EditorModel {
  import opened Common
  import opened Crypto
  import opened Merkle
  import opened Verifier
  import opened Builder

  datatype Event =
    /**
     One locked chunk step: bytes, place, end of the whole write, what the read-back answered, whether the
     store reported the write done.
     */
    | ChunkWrite(src: seq<byte>, off: nat, sizeAtLeast: nat, readBack: Reply, wrote: bool)
    /** One resize: new size, what the read-back answered, whether the store reported the resize done. */
    | ResizeTo(size: nat, readBack: Reply, resized: bool)

  /** Chunk steps are non-empty, stay inside one chunk, and lie inside the write they belong to. */
  predicate WellFormed(e: Event)
  {
    e.ChunkWrite? ==> e.src != [] && e.off % 4096 + |e.src| <= 4096 && e.off + |e.src| <= e.sizeAtLeast
  }

  // ---------------------------------------------------------------------------------------
  // What the editor does
  // ---------------------------------------------------------------------------------------

  /** A block with `src` written over it at `o`. */
  function Overwritten(block: Block, o: nat, src: seq<byte>): Block
    requires o + |src| <= 4096
  {
    block[..o] + src + block[o + |src|..]
  }

  /** `new_chunk_hash`: the new leaf, or `None` when the read-back fails or does not match the old leaf. */
  function NewChunkHash(H: HashFn, leaves: seq<Digest>, src: seq<byte>, off: nat, readBack: Reply): Option<Digest>
    requires off % 4096 + |src| <= 4096
  {
    var index, o := off / 4096, off % 4096;
    if |src| == 4096 then Some(H(src))
    else if index >= |leaves| then Some(H(Overwritten(Zeros(4096), o, src)))
    else if readBack.Failed? then None
    else if H(Buffer(readBack)) != leaves[index] then None
    else Some(H(Overwritten(Buffer(readBack), o, src)))
  }

  /** Whether a resize has to recompute the leaf of its last chunk. */
  predicate CutsInsideChunk(l: LeafList, size: nat) { size < l.fileSize && size % 4096 > 0 }

  /** A block cut to its first `tail` bytes and padded again. */
  function CutBlock(block: Block, tail: nat): Block
    requires tail <= 4096
  {
    block[..tail] + Zeros(4096 - tail)
  }

  predicate Succeeds(H: HashFn, l: LeafList, e: Event)
    requires WellFormed(e)
  {
    match e
    case ChunkWrite(src, off, sizeAtLeast, readBack, wrote) =>
      NewChunkHash(H, l.leaves, src, off, readBack).Some? && wrote
    case ResizeTo(size, readBack, resized) => (CutsInsideChunk(l, size) ==> readBack.Got?) && resized
  }

  /**
   Exactly when an event succeeds. A chunk step: the store reports the write done, and the step writes a whole chunk
   or a new one, or what was read back has the old leaf as its hash. A resize: the store reports it done, and
   what was read back, if it cuts inside a chunk, was not an error.
   */
  lemma SucceedsIff(H: HashFn, l: LeafList, e: Event)
    requires WellFormed(e)
    ensures e.ChunkWrite? ==>
              (Succeeds(H, l, e) <==>
                 && e.wrote
                 && (|| |e.src| == 4096 || |l.leaves| <= e.off / 4096
                     || (e.readBack.Got? && H(Pad(e.readBack.bytes)) == l.leaves[e.off / 4096])))
    ensures e.ResizeTo? ==>
              (Succeeds(H, l, e) <==> e.resized && (e.size < l.fileSize && e.size % 4096 != 0 ==> e.readBack.Got?))
  {}

  /** The leaf list after an event. A resize updates the leaf before the store is asked to resize. */
  function Step(H: HashFn, l: LeafList, e: Event): LeafList
    requires WellFormed(e)
  {
    match e
    case ChunkWrite(src, off, sizeAtLeast, readBack, wrote) =>
      var hash := NewChunkHash(H, l.leaves, src, off, readBack);
      if hash.Some? && wrote then HashUpdated(H, l, off / 4096, hash.value, sizeAtLeast) else l
    case ResizeTo(size, readBack, resized) =>
      if CutsInsideChunk(l, size) && readBack.Failed? then l
      else
        var updated :=
          if CutsInsideChunk(l, size)
          then HashUpdated(H, l, size / 4096, H(CutBlock(Buffer(readBack), size % 4096)), size)
          else l;
        if resized then Resized(H, updated, size) else updated
  }

  /** The plain file after an event. */
  function Applied(H: HashFn, l: LeafList, content: seq<byte>, e: Event): seq<byte>
    requires WellFormed(e)
  {
    if !Succeeds(H, l, e) then content
    else match e
      case ChunkWrite(src, off, sizeAtLeast, readBack, wrote) => Splice(content, off, src)
      case ResizeTo(size, readBack, resized) => Truncate(content, size)
  }

  ghost predicate AllWellFormed(events: seq<Event>) { forall e :: e in events ==> WellFormed(e) }

  /** Leaf list after a run from the empty file. */
  ghost function Run(H: HashFn, events: seq<Event>): LeafList
    requires AllWellFormed(events)
  {
    if events == [] then LeafList([], 0)
    else Step(H, Run(H, events[..|events| - 1]), events[|events| - 1])
  }

  /** Trusted content after a run from the empty file. */
  ghost function Trusted(H: HashFn, events: seq<Event>): seq<byte>
    requires AllWellFormed(events)
  {
    if events == [] then []
    else
      var before := events[..|events| - 1];
      Applied(H, Run(H, before), Trusted(H, before), events[|events| - 1])
  }

  // ---------------------------------------------------------------------------------------
  // How leaves follow content
  // ---------------------------------------------------------------------------------------

  lemma BlockPastEnd(c: seq<byte>, i: nat)
    requires |c| <= 4096 * i
    ensures ChunkBlock(c, i) == Zeros(4096)
  {
    forall j: nat | j < 4096 ensures ChunkBlock(c, i)[j] == 0 { BlockAt(c, i, j); }
  }

  lemma BlockAfterSplice(c: seq<byte>, off: nat, src: seq<byte>, i: nat)
    requires off % 4096 + |src| <= 4096
    ensures i == off / 4096 ==> ChunkBlock(Splice(c, off, src), i) == Overwritten(ChunkBlock(c, i), off % 4096, src)
    ensures i != off / 4096 ==> ChunkBlock(Splice(c, off, src), i) == ChunkBlock(c, i)
  {
    hide Splice, ChunkBlock;
    var x := ChunkBlock(Splice(c, off, src), i);
    var y := if i == off / 4096 then Overwritten(ChunkBlock(c, i), off % 4096, src) else ChunkBlock(c, i);
    forall j: nat | j < 4096 ensures x[j] == y[j] {
      BlockAt(Splice(c, off, src), i, j);
      BlockAt(c, i, j);
      SpliceAt(c, off, src, 4096 * i + j);
    }
  }

  /** Updating the leaf of the written chunk gives the leaves of the written file. */
  lemma LeavesAfterSplice(H: HashFn, c: seq<byte>, fileSize: nat, off: nat, src: seq<byte>, sizeAtLeast: nat)
    requires src != [] && off % 4096 + |src| <= 4096
    ensures HashUpdated(H, LeafList(Leaves(H, c), fileSize), off / 4096,
                        H(Overwritten(ChunkBlock(c, off / 4096), off % 4096, src)), sizeAtLeast).leaves
         == Leaves(H, Splice(c, off, src))
  {
    hide Splice, ChunkBlock, Overwritten;
    var index := off / 4096;
    var hash := H(Overwritten(ChunkBlock(c, index), off % 4096, src));
    var x := HashUpdated(H, LeafList(Leaves(H, c), fileSize), index, hash, sizeAtLeast).leaves;
    var d := Splice(c, off, src);
    var y := Leaves(H, d);
    assert |x| == |y|;
    forall i: nat | i < |x| ensures x[i] == y[i] {
      BlockAfterSplice(c, off, src, i);
      if |Leaves(H, c)| <= i && i != index { BlockPastEnd(c, i); }
    }
  }

  /** The block that a truncation leaves in chunk `i`. */
  lemma BlockAfterTruncate(c: seq<byte>, size: nat, i: nat)
    ensures 4096 * i + 4096 <= size || |c| <= size ==> ChunkBlock(Truncate(c, size), i) == ChunkBlock(c, i)
    ensures i == size / 4096 ==> ChunkBlock(Truncate(c, size), i) == CutBlock(ChunkBlock(c, i), size % 4096)
  {
    var x := ChunkBlock(Truncate(c, size), i);
    if 4096 * i + 4096 <= size || |c| <= size {
      forall j: nat | j < 4096 ensures x[j] == ChunkBlock(c, i)[j] {
        BlockAt(Truncate(c, size), i, j);
        BlockAt(c, i, j);
      }
    }
    if i == size / 4096 {
      var y := CutBlock(ChunkBlock(c, i), size % 4096);
      forall j: nat | j < 4096 ensures x[j] == y[j] {
        BlockAt(Truncate(c, size), i, j);
        BlockAt(c, i, j);
      }
    }
  }

  /** The leaf list after a successful resize whose read-back was `block`. */
  function AfterResize(H: HashFn, l: LeafList, size: nat, block: Block): LeafList
  {
    var updated :=
      if CutsInsideChunk(l, size) then HashUpdated(H, l, size / 4096, H(CutBlock(block, size % 4096)), size) else l;
    Resized(H, updated, size)
  }

  /** Off the last chunk, the leaves after a resize are those of the cut or extended file. */
  lemma LeavesAfterResizeElsewhere(H: HashFn, c: seq<byte>, fileSize: nat, size: nat, block: Block, i: nat)
    requires |c| <= fileSize && i < ChunkCount(size)
    requires CutsInsideChunk(LeafList(Leaves(H, c), fileSize), size) ==> i != size / 4096
    ensures AfterResize(H, LeafList(Leaves(H, c), fileSize), size, block).leaves[i] == Leaves(H, Truncate(c, size))[i]
  {
    hide Truncate, ChunkBlock, CutBlock;
    BlockAfterTruncate(c, size, i);
    if |Leaves(H, c)| <= i { BlockPastEnd(c, i); }
  }

  /** In the last chunk, the leaf after an inner cut is the hash of the cut read-back. */
  lemma LeafAfterInnerCut(H: HashFn, c: seq<byte>, fileSize: nat, size: nat, block: Block)
    requires CutsInsideChunk(LeafList(Leaves(H, c), fileSize), size)
    ensures var i := size / 4096;
            i < ChunkCount(size) &&
            var leaves := AfterResize(H, LeafList(Leaves(H, c), fileSize), size, block).leaves;
            && leaves[i] == H(CutBlock(block, size % 4096))
            && Leaves(H, Truncate(c, size))[i] == H(CutBlock(ChunkBlock(c, i), size % 4096))
  {
    hide Truncate, ChunkBlock, CutBlock;
    BlockAfterTruncate(c, size, size / 4096);
  }

  /**
   A successful resize keeps the leaves in step with the content exactly when it does not cut inside
   a chunk, or the part of the chunk that is kept was read back as it is in the trusted content. The
   only exception is a collision between the two cut blocks. (The read-back is not compared with the
   old leaf.)
   */
  lemma ResizeTracksIffReadBackTrue(H: HashFn, c: seq<byte>, fileSize: nat, size: nat, block: Block)
    requires |c| <= fileSize
    ensures var tail, trusted := size % 4096, ChunkBlock(c, size / 4096);
            var after := AfterResize(H, LeafList(Leaves(H, c), fileSize), size, block);
            var tracks := after.leaves == Leaves(H, Truncate(c, size));
            var readTrue := size >= fileSize || tail == 0 || block[..tail] == trusted[..tail];
            && (readTrue ==> tracks)
            && (tracks ==> readTrue || Collide(H, CutBlock(block, tail), CutBlock(trusted, tail)))
  {
    hide Truncate, ChunkBlock, ResizeLeaves;
    var l := LeafList(Leaves(H, c), fileSize);
    var x, y := AfterResize(H, l, size, block).leaves, Leaves(H, Truncate(c, size));
    assert |x| == |y| == ChunkCount(size);
    var i, tail := size / 4096, size % 4096;
    forall k: nat | k < |x| && (CutsInsideChunk(l, size) ==> k != i) ensures x[k] == y[k] {
      LeavesAfterResizeElsewhere(H, c, fileSize, size, block, k);
    }
    if CutsInsideChunk(l, size) {
      LeafAfterInnerCut(H, c, fileSize, size, block);
      CutBlockInjective(block, ChunkBlock(c, i), tail);
    }
  }

  /** A file, a cut and an untrue read-back for which the leaves no longer match the content. */
  lemma UntrueReadBackBreaksLink(H: HashFn, c: seq<byte>, block: Block)
    requires H == FirstByteMarked && c == [1, 1] && block == Zeros(4096)
    ensures AfterResize(H, LeafList(Leaves(H, c), 2), 1, block).leaves != Leaves(H, Truncate(c, 1))
  {
    hide FirstByteMarked, Truncate, ChunkBlock;
    LeafAfterInnerCut(H, c, 2, 1, block);
    BlockAt(c, 0, 0);
    MarkAdvances(CutBlock(block, 1));
    MarkAdvances(CutBlock(ChunkBlock(c, 0), 1));
  }

  /**
   When the store fails a resize that cuts inside a chunk, the leaf has already been changed. The
   leaves still match the (unchanged) content exactly when that chunk exists and cutting it changes
   nothing: the kept bytes were read back true and the dropped ones are zeros. The only exception is
   a collision between the two blocks.
   */
  lemma FailedResizeTracksIffNothingCut(H: HashFn, c: seq<byte>, fileSize: nat, size: nat, readBack: Reply)
    requires |c| <= fileSize && readBack.Got? && CutsInsideChunk(LeafList(Leaves(H, c), fileSize), size)
    ensures var i := size / 4096;
            var cut, trusted := CutBlock(Buffer(readBack), size % 4096), ChunkBlock(c, i);
            var after := Step(H, LeafList(Leaves(H, c), fileSize), ResizeTo(size, readBack, false));
            var tracks := after.leaves == Leaves(H, c);
            && (i < ChunkCount(|c|) && cut == trusted ==> tracks)
            && (tracks ==> i < ChunkCount(|c|) && (cut == trusted || Collide(H, cut, trusted)))
  {
    hide ChunkBlock, CutBlock, Buffer;
    var l, i := LeafList(Leaves(H, c), fileSize), size / 4096;
    var x := Step(H, l, ResizeTo(size, readBack, false)).leaves;
    if i < ChunkCount(|c|) {
      LeafOf(H, c, i);
      assert x == Leaves(H, c)[i := H(CutBlock(Buffer(readBack), size % 4096))];
      assert x[i] == H(CutBlock(Buffer(readBack), size % 4096));
    } else {
      assert |x| == i + 1;
    }
  }

  /** Whatever a leaf was, updating it twice is the second update. */
  lemma UpdateAgain(H: HashFn, l: LeafList, index: nat, first: Digest, second: Digest, size: nat)
    ensures HashUpdated(H, HashUpdated(H, l, index, first, size), index, second, size)
         == HashUpdated(H, l, index, second, size)
  {
    var x := HashUpdated(H, HashUpdated(H, l, index, first, size), index, second, size).leaves;
    var y := HashUpdated(H, l, index, second, size).leaves;
    assert |x| == |y|;
    assert forall i :: 0 <= i < |x| ==> x[i] == y[i];
  }

  /**
   The way back after a failed resize: a later resize to the same size that succeeds, with the kept bytes truly
   read back, leaves the leaves of the cut content, whatever the changed leaf (`wrong`) had become.
   */
  lemma ResizeAgainRestores(
    H: HashFn, l: LeafList, c: seq<byte>, size: nat, wrong: Digest, again: Reply)
    requires Tracks(H, l, c) && CutsInsideChunk(l, size) && again.Got?
    requires Buffer(again)[..size % 4096] == ChunkBlock(c, size / 4096)[..size % 4096]
    ensures Tracks(H, Step(H, HashUpdated(H, l, size / 4096, wrong, size), ResizeTo(size, again, true)),
                   Truncate(c, size))
  {
    hide ChunkBlock, Leaves, Truncate, CutBlock, Buffer, ResizeLeaves;
    UpdateAgain(H, l, size / 4096, wrong, H(CutBlock(Buffer(again), size % 4096)), size);
    ResizeTracks(H, l, c, ResizeTo(size, again, true));
  }

  /** In events: a resize fails in the store, and the next one succeeds. */
  lemma RetriedResizeTracks(H: HashFn, l: LeafList, c: seq<byte>, size: nat, first: Reply, again: Reply)
    requires Tracks(H, l, c) && CutsInsideChunk(l, size) && again.Got?
    requires Buffer(again)[..size % 4096] == ChunkBlock(c, size / 4096)[..size % 4096]
    ensures Tracks(H, Step(H, Step(H, l, ResizeTo(size, first, false)), ResizeTo(size, again, true)),
                   Truncate(c, size))
  {
    hide ChunkBlock, Leaves, Truncate, CutBlock, Buffer, HashUpdated, Resized;
    if first.Got? {
      ResizeAgainRestores(H, l, c, size, H(CutBlock(Buffer(first), size % 4096)), again);
    } else {
      ResizeTracks(H, l, c, ResizeTo(size, again, true));
    }
  }

  /** A file and a cut, truly read back, after whose failure the leaves no longer match the content. */
  lemma FailedResizeBreaksLink(H: HashFn, c: seq<byte>)
    requires H == SecondByte && c == [1, 1]
    ensures Step(H, LeafList(Leaves(H, c), 2), ResizeTo(1, Got(ChunkBytes(c, 0)), false)).leaves != Leaves(H, c)
  {
    hide SecondByte, ChunkBlock;
    var trusted := ChunkBlock(c, 0);
    BlockAt(c, 0, 1);
    var cut := CutBlock(Buffer(Got(ChunkBytes(c, 0))), 1);
    assert cut[1] == 0 && trusted[1] == 1;
    SecondByteTells(cut, trusted);
    FailedResizeTracksIffNothingCut(H, c, 2, 1, Got(ChunkBytes(c, 0)));
  }

  /** A toy hash: 32 copies of the second byte. */
  function SecondByte(s: seq<byte>): Digest
  {
    var digest: seq<byte> := seq(32, _ => if |s| < 2 then 0 else s[1]);
    digest
  }

  lemma SecondByteTells(a: Block, b: Block)
    requires a[1] != b[1]
    ensures SecondByte(a) != SecondByte(b)
  {
    assert SecondByte(a)[0] == a[1] && SecondByte(b)[0] == b[1];
  }

  lemma CutBlockInjective(a: Block, b: Block, tail: nat)
    requires tail <= 4096
    ensures CutBlock(a, tail) == CutBlock(b, tail) <==> a[..tail] == b[..tail]
  {
    assert CutBlock(a, tail)[..tail] == a[..tail] && CutBlock(b, tail)[..tail] == b[..tail];
  }

  // ---------------------------------------------------------------------------------------
  // Runs
  // ---------------------------------------------------------------------------------------

  /** The leaf list is the one of `content`; the recorded size may run ahead after a short write. */
  ghost predicate Tracks(H: HashFn, l: LeafList, content: seq<byte>)
  {
    l.leaves == Leaves(H, content) && |content| <= l.fileSize
  }

  /**
   The answers in `e` break the link with the trusted content `c`. For a chunk step that reads back:
   the block read back collides with the trusted block. For a resize that cuts inside a chunk: the
   bytes to keep were read back wrong, or the store failed after the leaf had been changed, unless
   the cut changes nothing.
   */
  ghost predicate Misleads(H: HashFn, l: LeafList, c: seq<byte>, e: Event)
  {
    match e
    case ChunkWrite(src, off, sizeAtLeast, readBack, wrote) =>
      && |src| < 4096 && off / 4096 < |l.leaves|
      && readBack.Got? && Collide(H, Buffer(readBack), ChunkBlock(c, off / 4096))
    case ResizeTo(size, readBack, resized) =>
      && CutsInsideChunk(l, size) && readBack.Got?
      && if resized then Buffer(readBack)[..size % 4096] != ChunkBlock(c, size / 4096)[..size % 4096]
         else size / 4096 >= ChunkCount(|c|) || CutBlock(Buffer(readBack), size % 4096) != ChunkBlock(c, size / 4096)
  }

  lemma ChunkWriteTracks(H: HashFn, l: LeafList, c: seq<byte>, e: Event)
    requires Tracks(H, l, c) && WellFormed(e) && e.ChunkWrite? && !Misleads(H, l, c, e)
    ensures Tracks(H, Step(H, l, e), Applied(H, l, c, e))
  {
    hide ChunkBlock, Leaves, Splice, Overwritten;
    if Succeeds(H, l, e) {
      var index, o := e.off / 4096, e.off % 4096;
      LeavesAfterSplice(H, c, l.fileSize, e.off, e.src, e.sizeAtLeast);
      var block := ChunkBlock(c, index);
      if |e.src| == 4096 {
        FullOverwrite(block, e.src);
      } else if index >= |l.leaves| {
        LeavesLength(H, c);
        BlockPastEnd(c, index);
      } else {
        LeafOf(H, c, index);
        assert Buffer(e.readBack) == block;
      }
    }
  }

  lemma FullOverwrite(block: Block, src: seq<byte>)
    requires |src| == 4096
    ensures Overwritten(block, 0, src) == src
  {}

  lemma LeavesLength(H: HashFn, c: seq<byte>)
    ensures |Leaves(H, c)| == ChunkCount(|c|)
  {}

  lemma LeafOf(H: HashFn, c: seq<byte>, i: nat)
    requires i < |Leaves(H, c)|
    ensures Leaves(H, c)[i] == H(ChunkBlock(c, i))
  {}

  lemma ResizeTracks(H: HashFn, l: LeafList, c: seq<byte>, e: Event)
    requires Tracks(H, l, c) && e.ResizeTo? && !Misleads(H, l, c, e)
    ensures Tracks(H, Step(H, l, e), Applied(H, l, c, e))
  {
    hide ChunkBlock, Leaves, Truncate, CutBlock;
    if Succeeds(H, l, e) {
      var block: Block := if e.readBack.Got? then Buffer(e.readBack) else Zeros(4096);
      ResizeTracksIffReadBackTrue(H, c, l.fileSize, e.size, block);
    } else if CutsInsideChunk(l, e.size) && e.readBack.Got? {
      FailedResizeTracksIffNothingCut(H, c, l.fileSize, e.size, e.readBack);
    }
  }

  /**
   Over any run of chunk steps and resizes, with the store answering as it likes and failing when it
   likes, every leaf is the hash of the padded chunk of the trusted content, unless some event of
   the run misled the editor, and then that event is a witness.
   */
  lemma {:induction false} RunTracksTrusted(H: HashFn, events: seq<Event>)
    requires AllWellFormed(events)
    ensures Tracks(H, Run(H, events), Trusted(H, events))
         || exists k: nat :: k < |events| && Misleads(H, Run(H, events[..k]), Trusted(H, events[..k]), events[k])
  {
    hide Tracks, Misleads, Step, Applied;
    if events == [] {
      EmptyTracks(H);
    } else {
      var n := |events| - 1;
      var before, e := events[..n], events[n];
      RunTracksTrusted(H, before);
      if Tracks(H, Run(H, before), Trusted(H, before)) {
        if !Misleads(H, Run(H, before), Trusted(H, before), e) {
          if e.ChunkWrite? { ChunkWriteTracks(H, Run(H, before), Trusted(H, before), e); }
          else { ResizeTracks(H, Run(H, before), Trusted(H, before), e); }
        }
      } else {
        var k: nat :| k < |before| && Misleads(H, Run(H, before[..k]), Trusted(H, before[..k]), before[k]);
        assert before[..k] == events[..k] && before[k] == events[k];
      }
    }
  }

  lemma RunOneMore(H: HashFn, events: seq<Event>, e: Event)
    requires AllWellFormed(events) && WellFormed(e)
    ensures AllWellFormed(events + [e])
    ensures Run(H, events + [e]) == Step(H, Run(H, events), e)
    ensures Trusted(H, events + [e]) == Applied(H, Run(H, events), Trusted(H, events), e)
  {
    hide Step, Applied;
    assert (events + [e])[..|events|] == events;
  }

  lemma EmptyTracks(H: HashFn)
    ensures Tracks(H, LeafList([], 0), [])
  {}
}
