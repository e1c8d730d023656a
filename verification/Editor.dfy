/**
 `VerifiedFileEditor`: random-access writes and resizes of a new file that lives in a store which is
 not trusted, with the leaf hashes kept in private memory.
 */
module Editor {
  import opened Common
  import opened Crypto
  import opened Merkle
  import opened Verifier
  import opened Builder
  import opened EditorModel
  import opened Store

  datatype WriteResult = Wrote(n: nat) | WriteError

  /** How one locked chunk step ended. */
  datatype ChunkOutcome = Done | HashError | StoreError

  function SaturatingAdd(a: nat, b: nat): nat { Min(a + b, U64_MAX) }

  class VerifiedFileEditor {
    const H: HashFn
    const file: UntrustedFile
    const tree: MerkleLeaves
    /** Everything that happened so far, with the answers of the store. */
    ghost var events: seq<Event>

    /** The plain byte file to which exactly the successful writes and resizes were applied. */
    ghost function Content(): seq<byte>
      requires AllWellFormed(events)
      reads this
    {
      Trusted(H, events)
    }

    /**
     The leaf list is the outcome of the recorded run, and the recorded read-backs are answers of the
     store. Over a faithful store, the store holds the trusted content and the leaves are its leaves.
     */
    ghost predicate Linked()
      reads this, file, tree
    {
      && tree.H == H && AllWellFormed(events) && tree.State() == Run(H, events) && file.Responsive()
      && (forall e :: e in events && e.readBack.Got? ==> e.readBack in file.replies)
      && (file.Faithful() ==> file.data == Content() && Tracks(H, tree.State(), Content()))
    }

    /** Between calls, over a faithful store, the recorded size is the size of the content as well. */
    ghost predicate Valid()
      reads this, file, tree
    {
      Linked() && (file.Faithful() ==> tree.fileSize == |Content()|)
    }

    constructor (H: HashFn, file: UntrustedFile)
      requires file.data == [] && file.Responsive()
      ensures Valid() && events == [] && this.H == H && this.file == file && fresh(tree)
    {
      this.H, this.file, this.events := H, file, [];
      this.tree := new MerkleLeaves(H);
      new;
      EmptyTracks(H);
    }

    /** Appends an event to the history. */
    ghost method Record(e: Event)
      requires WellFormed(e) && AllWellFormed(events)
      modifies this
      ensures events == old(events) + [e] && AllWellFormed(events)
      ensures Run(H, events) == Step(H, old(Run(H, events)), e)
      ensures Content() == Applied(H, old(Run(H, events)), old(Content()), e)
    {
      RunOneMore(H, events, e);
      events := events + [e];
    }

    /** The last event was a chunk step whose new hash could not be computed: the store was not asked to write. */
    ghost predicate StoppedBeforeStore()
      reads this
    {
      && AllWellFormed(events) && events != [] && events[|events| - 1].ChunkWrite?
      && var e := events[|events| - 1];
         WellFormed(e) && NewChunkHash(H, Run(H, events[..|events| - 1]).leaves, e.src, e.off, e.readBack).None?
    }

    /** `new_chunk_hash` with its read-back, if one is needed. */
    method NewHash(src: seq<byte>, off: nat) returns (hash: Option<Digest>, readBack: Reply)
      requires Linked() && src != [] && off % 4096 + |src| <= 4096
      modifies file
      ensures Linked() && hash == NewChunkHash(H, tree.leaves, src, off, readBack)
      ensures readBack.Got? ==> readBack in file.replies
      ensures file.Faithful() ==> hash.Some?
      ensures file.Faithful() && readBack.Got? ==> Buffer(readBack) == ChunkBlock(Content(), off / 4096)
    {
      hide Run, Trusted, Leaves, ChunkBytes, ChunkBlock, Overwritten;
      var index, o := off / 4096, off % 4096;
      readBack := Failed;
      if |src| == 4096 {
        hash := Some(H(src));
      } else {
        var origData: Block := Zeros(4096);
        if tree.IsIndexValid(index) {
          readBack := file.ReadChunk(index);
          if readBack.Failed? { return None, readBack; }
          origData := Buffer(readBack);
          if file.Faithful() { LeafOf(H, Content(), index); }
          if !tree.IsConsistent(index, H(origData)) { return None, readBack; }
        }
        hash := Some(H(Overwritten(origData, o, src)));
      }
    }

    /** One chunk of a write, done with the leaf list locked. */
    method WriteChunk(src: seq<byte>, off: nat, sizeAtLeast: nat) returns (outcome: ChunkOutcome, ghost e: Event)
      requires Linked() && src != [] && off % 4096 + |src| <= 4096 && off + |src| <= sizeAtLeast
      modifies this, file, tree
      ensures Linked() && events == old(events) + [e]
      ensures e.ChunkWrite? && e.src == src && e.off == off && e.sizeAtLeast == sizeAtLeast
      ensures Content() == if outcome.Done? then Splice(old(Content()), off, src) else old(Content())
      ensures tree.fileSize == if outcome.Done? then Max(old(tree.fileSize), sizeAtLeast) else old(tree.fileSize)
      ensures outcome.Done? <==> Succeeds(H, old(tree.State()), e)
      ensures outcome.HashError? <==> NewChunkHash(H, old(tree.leaves), src, off, e.readBack).None?
      ensures file.Faithful() ==> outcome.Done?
    {
      hide Run, Trusted, Leaves, ChunkBlock, Splice, NewChunkHash, HashUpdated;
      var hash, readBack := NewHash(src, off);
      if hash.None? {
        e := ChunkWrite(src, off, sizeAtLeast, readBack, false);
        Record(e);
        return HashError, e;
      }
      var ok := file.WriteAllAt(src, off);
      e := ChunkWrite(src, off, sizeAtLeast, readBack, ok);
      if file.Faithful() { ChunkWriteTracks(H, tree.State(), Content(), e); }
      Record(e);
      if !ok { return StoreError, e; }
      HashUpdatedSize(H, tree.State(), off / 4096, hash.value, sizeAtLeast);
      tree.UpdateHash(off / 4096, hash.value, sizeAtLeast);
      outcome := Done;
    }

    /**
     `write_at`. Whatever the store does, the content afterwards is the old content with some prefix
     of the buffer written at the offset, and a reported count is the length of that prefix. The
     recorded size jumps to the end of the whole write as soon as one chunk is written. Over a
     faithful store the whole buffer is written.
     */
    method WriteAt(buf: seq<byte>, offset: nat) returns (r: WriteResult, ghost applied: nat)
      requires Valid() && offset + |buf| <= U64_MAX
      modifies this, file, tree
      ensures Linked() && old(events) <= events
      ensures forall k :: |old(events)| <= k < |events| ==> events[k].ChunkWrite?
      ensures applied <= |buf| && Content() == Splice(old(Content()), offset, buf[..applied])
      ensures r.Wrote? ==> r.n == applied
      ensures r.WriteError? ==> applied < |buf|
      ensures applied < |buf| ==>
                events != [] && var e := events[|events| - 1]; e.ChunkWrite? && e.off == offset + applied
      ensures applied < |buf| ==> (r.Wrote? <==> applied > 0 && StoppedBeforeStore())
      ensures tree.fileSize == if applied == 0 then old(tree.fileSize) else Max(old(tree.fileSize), offset + |buf|)
      ensures file.Faithful() ==> r == Wrote(|buf|)
      ensures Valid()
    {
      hide Run, Trusted, Leaves, Splice, Tiles, Succeeds, AllWellFormed, NewChunkHash;
      var it := new ChunkedSizeIter(|buf|, offset, 4096);
      var written := 0;
      ghost var before := Content();
      EmptySplice(before, offset);
      while true
        invariant it.Valid() && it.alignment == 4096 && fresh(it)
        invariant it.remaining == |buf| - written && it.offset == offset + written
        invariant Linked() && old(events) <= events
        invariant forall k :: |old(events)| <= k < |events| ==> events[k].ChunkWrite?
        invariant Content() == Splice(before, offset, buf[..written])
        invariant tree.fileSize == if written == 0 then old(tree.fileSize) else Max(old(tree.fileSize), offset + |buf|)
        decreases it.remaining
      {
        var next := it.Next();
        if next.None? { break; }
        var outputOffset, currentSize := next.value.offset, next.value.size;
        var offsetInBuf := outputOffset - offset;
        var source := buf[offsetInBuf..offsetInBuf + currentSize];
        var sizeAtLeast := SaturatingAdd(offset, |buf|);
        ghost var soFar := events;
        var outcome, e := WriteChunk(source, outputOffset, sizeAtLeast);
        assert events[..|events| - 1] == soFar;
        match outcome {
          case Done =>
            SpliceSplice(before, offset, buf[..written], source);
            assert buf[..written] + source == buf[..written + currentSize];
            written := written + currentSize;
          case HashError =>
            if written > 0 { return Wrote(written), written; }
            return WriteError, 0;
          case StoreError =>
            return WriteError, written;
        }
      }
      assert buf[..written] == buf;
      r, applied := Wrote(|buf|), |buf|;
    }

    /**
     `resize`. If it reports success, the content was cut or zero-extended to the new size, which is
     also the recorded size. If it fails, the leaf list is what `Step` says: unchanged, or with the
     leaf of the last chunk to keep already changed. Over a faithful store it succeeds.
     */
    method Resize(size: nat) returns (ok: bool)
      requires Valid()
      modifies this, file, tree
      ensures Valid() && |events| == |old(events)| + 1 && old(events) <= events
      ensures var e := events[|old(events)|];
              && e.ResizeTo? && e.size == size && (ok <==> Succeeds(H, old(tree.State()), e))
              && tree.State() == Step(H, old(tree.State()), e)
      ensures Content() == if ok then Truncate(old(Content()), size) else old(Content())
      ensures ok ==> tree.fileSize == size
      ensures file.Faithful() ==> ok
    {
      hide Run, Trusted, Leaves, Truncate, ChunkBlock, ChunkBytes;
      var readBack: Reply := Failed;
      ghost var l := tree.State();
      if size < tree.fileSize && size % 4096 > 0 {
        var newTailSize, chunkIndex := size % 4096, size / 4096;
        readBack := file.ReadChunk(chunkIndex);
        if readBack.Failed? {
          Record(ResizeTo(size, readBack, false));
          return false;
        }
        var newHash := H(CutBlock(Buffer(readBack), newTailSize));
        tree.UpdateHash(chunkIndex, newHash, size);
      }
      ok := file.Resize(size);
      ghost var e := ResizeTo(size, readBack, ok);
      if file.Faithful() { ResizeTracks(H, l, Content(), e); }
      Record(e);
      if ok { tree.Resize(size); }
    }

    /**
     `calculate_fsverity_digest`: while the leaves track the plain content, the standard digest of it if and
     only if the recorded size has not run ahead, or else two descriptors collide. So always over a
     faithful store.
     */
    method CalculateFsverityDigest() returns (d: Digest)
      requires Valid()
      ensures Tracks(H, tree.State(), Content()) && tree.fileSize <= U64_MAX ==>
                (d == FileDigest(H, Content()) <==>
                   tree.fileSize == |Content()| || SizesCollide(H, Content(), tree.fileSize))
      ensures file.Faithful() ==> d == FileDigest(H, Content()) == FileDigest(H, file.data)
    {
      hide FileDigest, Run, Trusted, Leaves, LeafRoot, SizesCollide;
      d := tree.CalculateFsverityDigest();
      if Tracks(H, tree.State(), Content()) && tree.fileSize <= U64_MAX {
        LeafRootIsStandard(H, Content());
        DigestOfSizeIff(H, Content(), tree.fileSize);
      }
    }
  }

  /** The descriptors of a content's root with its own size and with another one collide. */
  predicate SizesCollide(H: HashFn, content: seq<byte>, size: nat)
  {
    Collide(H, Descriptor(StandardRoot(H, content), size), Descriptor(StandardRoot(H, content), |content|))
  }

  lemma DigestOfSizeIff(H: HashFn, content: seq<byte>, size: nat)
    requires |content| <= size <= U64_MAX
    ensures FsverityDigest(H, StandardRoot(H, content), size) == FileDigest(H, content)
       <==> size == |content| || SizesCollide(H, content, size)
  {
    hide StandardRoot, Descriptor;
    var root := StandardRoot(H, content);
    if FsverityDigest(H, root, size) == FsverityDigest(H, root, |content|) {
      DigestBindsRoot(H, root, size, root, |content|);
    }
  }

  lemma HashUpdatedSize(H: HashFn, l: LeafList, index: nat, hash: Digest, sizeAtLeast: nat)
    ensures HashUpdated(H, l, index, hash, sizeAtLeast).fileSize == Max(l.fileSize, sizeAtLeast)
  {}
}
