/**
 Many callers on one editor. A write locks the leaf list per chunk and not for the whole write, so the
 chunk steps of different writes interleave, with each other and with resizes, which lock it once.
 The store here is a plain byte file.
 */
module Interleaving {
  import opened Common
  import opened Crypto
  import opened Merkle
  import opened Verifier
  import opened Builder
  import M = EditorModel

  /** A `write_at` in progress: `done` bytes are written; `aborted` after a failed chunk step. */
  datatype Writer = Writer(buf: seq<byte>, offset: nat, done: nat, aborted: bool)
  {
    function End(): nat { offset + |buf| }
    predicate Finished() { done == |buf| }
  }

  datatype System = System(data: seq<byte>, list: LeafList, writers: seq<Writer>)

  /** What happens next: a new write begins, a writer takes its next chunk step, or the file is resized. */
  datatype Choice = Begin(buf: seq<byte>, offset: nat) | Advance(writer: nat) | Cut(size: nat)

  /** The next chunk step of an unfinished writer, with the read-back answered from the file. */
  function NextStep(s: System, w: Writer): (e: M.Event)
    requires w.done < |w.buf|
    ensures M.WellFormed(e)
  {
    var off := w.offset + w.done;
    var k := TileSize(|w.buf| - w.done, off, 4096);
    M.ChunkWrite(w.buf[w.done..w.done + k], off, w.End(), Got(ChunkBytes(s.data, off / 4096)), true)
  }

  function Next(H: HashFn, s: System, choice: Choice): System
  {
    match choice
    case Begin(buf, offset) => s.(writers := s.writers + [Writer(buf, offset, 0, false)])
    case Advance(i) =>
      if i >= |s.writers| || s.writers[i].aborted || s.writers[i].done >= |s.writers[i].buf| then s
      else
        var w := s.writers[i];
        var e := NextStep(s, w);
        if M.Succeeds(H, s.list, e) then
          System(Splice(s.data, e.off, e.src), M.Step(H, s.list, e), s.writers[i := w.(done := w.done + |e.src|)])
        else s.(writers := s.writers[i := w.(aborted := true)])
    case Cut(size) =>
      var e := CutStep(s, size);
      if M.Succeeds(H, s.list, e) then System(Truncate(s.data, size), M.Step(H, s.list, e), s.writers)
      else s.(list := M.Step(H, s.list, e))
  }

  /** A resize, with the read-back answered from the file. */
  function CutStep(s: System, size: nat): M.Event
  {
    M.ResizeTo(size, Got(ChunkBytes(s.data, size / 4096)), true)
  }

  /** State after a schedule, from an empty file with no writers. */
  function Run(H: HashFn, schedule: seq<Choice>): System
  {
    if schedule == [] then System([], LeafList([], 0), [])
    else Next(H, Run(H, schedule[..|schedule| - 1]), schedule[|schedule| - 1])
  }

  /** No writer has failed. */
  predicate AllAlive(s: System)
  {
    forall i :: 0 <= i < |s.writers| ==> !s.writers[i].aborted && s.writers[i].done <= |s.writers[i].buf|
  }

  /** Writer `i` has not finished, and the recorded size is the end of its write. */
  predicate Overhangs(s: System, i: nat)
  {
    i < |s.writers| && !s.writers[i].Finished() && s.list.fileSize == s.writers[i].End()
  }

  ghost predicate SizeExplained(s: System)
  {
    s.list.fileSize == |s.data| || exists i: nat :: Overhangs(s, i)
  }

  ghost predicate Consistent(H: HashFn, s: System)
  {
    M.Tracks(H, s.list, s.data) && AllAlive(s) && SizeExplained(s)
  }

  /** Over a plain file a chunk step never fails. */
  lemma StepSucceeds(H: HashFn, s: System, w: Writer)
    requires M.Tracks(H, s.list, s.data) && w.done < |w.buf|
    ensures M.Succeeds(H, s.list, NextStep(s, w))
    ensures M.Tracks(H, M.Step(H, s.list, NextStep(s, w)), Splice(s.data, NextStep(s, w).off, NextStep(s, w).src))
    ensures M.Step(H, s.list, NextStep(s, w)).fileSize == Max(s.list.fileSize, w.End())
  {
    hide ChunkBytes, ChunkBlock, Splice, Leaves, ResizeLeaves, M.Overwritten;
    var e := NextStep(s, w);
    if e.off / 4096 < |s.list.leaves| { M.LeafOf(H, s.data, e.off / 4096); }
    M.ChunkWriteTracks(H, s.list, s.data, e);
  }

  lemma AdvanceConsistent(H: HashFn, s: System, i: nat)
    requires Consistent(H, s) && i < |s.writers| && !s.writers[i].Finished()
    ensures Consistent(H, Next(H, s, Advance(i)))
    ensures !Next(H, s, Advance(i)).writers[i].aborted
    ensures Next(H, s, Advance(i)).writers[i].done > s.writers[i].done
  {
    hide M.Tracks, M.Step, M.Succeeds, Splice, ChunkBytes;
    var w := s.writers[i];
    var e, s' := NextStep(s, w), Next(H, s, Advance(i));
    StepSucceeds(H, s, w);
    var w' := w.(done := w.done + |e.src|);
    assert s'.writers == s.writers[i := w'];
    TracksBound(H, s'.list, s'.data);
    SizeStaysExplained(s, s', i, w');
  }

  lemma TracksBound(H: HashFn, l: LeafList, data: seq<byte>)
    requires M.Tracks(H, l, data)
    ensures |data| <= l.fileSize
  {}

  lemma SizeStaysExplained(s: System, s': System, i: nat, w': Writer)
    requires i < |s.writers| && SizeExplained(s) && s'.writers == s.writers[i := w']
    requires w'.End() == s.writers[i].End() && s.writers[i].done < w'.done <= |w'.buf| && |w'.buf| == |s.writers[i].buf|
    requires |s'.data| == Max(|s.data|, w'.offset + w'.done)
    requires s'.list.fileSize == Max(s.list.fileSize, w'.End()) && |s'.data| <= s'.list.fileSize
    ensures SizeExplained(s')
  {
    if s'.list.fileSize != |s'.data| {
      if s'.list.fileSize == w'.End() {
        assert Overhangs(s', i);
      } else {
        var k: nat :| Overhangs(s, k);
        assert Overhangs(s', k);
      }
    }
  }

  lemma CutConsistent(H: HashFn, s: System, size: nat)
    requires Consistent(H, s)
    ensures Consistent(H, Next(H, s, Cut(size)))
    ensures Next(H, s, Cut(size)).data == Truncate(s.data, size)
    ensures Next(H, s, Cut(size)).list.fileSize == size
  {
    hide Leaves, ChunkBytes, ChunkBlock, Truncate, M.CutBlock, ResizeLeaves;
    M.ResizeTracks(H, s.list, s.data, CutStep(s, size));
  }

  lemma NextConsistent(H: HashFn, s: System, choice: Choice)
    requires Consistent(H, s)
    ensures Consistent(H, Next(H, s, choice))
  {
    hide M.Tracks, M.Step, M.Succeeds, Splice, NextStep;
    match choice {
      case Begin(buf, offset) =>
        var s' := Next(H, s, choice);
        if s.list.fileSize != |s.data| {
          var k: nat :| Overhangs(s, k);
          assert Overhangs(s', k);
        }
      case Advance(i) =>
        if i < |s.writers| && !s.writers[i].Finished() { AdvanceConsistent(H, s, i); }
      case Cut(size) =>
        CutConsistent(H, s, size);
    }
  }

  /**
   In every state of every interleaving of writes and resizes, the leaves are those of the file as it
   then is, no call has failed, and the recorded size is at least the size of the file. Once every writer has finished,
   the two sizes are equal, so the digest is the digest of the file.
   */
  lemma {:induction false} InterleavingsStayConsistent(H: HashFn, schedule: seq<Choice>)
    ensures Consistent(H, Run(H, schedule))
    ensures (forall i :: 0 <= i < |Run(H, schedule).writers| ==> Run(H, schedule).writers[i].Finished())
            ==> Run(H, schedule).list == LeafList(Leaves(H, Run(H, schedule).data), |Run(H, schedule).data|)
  {
    hide Next, Splice;
    if schedule == [] {
      M.EmptyTracks(H);
    } else {
      var before := schedule[..|schedule| - 1];
      InterleavingsStayConsistent(H, before);
      NextConsistent(H, Run(H, before), schedule[|schedule| - 1]);
    }
  }

  // ---------------------------------------------------------------------------------------
  // Writers on disjoint ranges, without resizes
  // ---------------------------------------------------------------------------------------

  predicate Inside(w: Writer, p: nat) { w.offset <= p < w.End() }

  ghost predicate Disjoint(ws: seq<Writer>)
  {
    forall i, j, p: nat :: 0 <= i < j < |ws| && Inside(ws[i], p) ==> !Inside(ws[j], p)
  }

  predicate NoCuts(schedule: seq<Choice>) { forall choice :: choice in schedule ==> !choice.Cut? }

  /** If writer `w` has written byte `p`, the file has that byte. */
  predicate BytePlaced(data: seq<byte>, w: Writer, p: nat)
  {
    w.offset <= p < w.offset + w.done && w.done <= |w.buf| ==> p < |data| && data[p] == w.buf[p - w.offset]
  }

  /**
   What byte `p` of the file is: the byte of the writer that has reached it, and zero if none covers it;
   and if the file has a byte `p` at all, some writer has reached that far.
   */
  ghost predicate ByteExplained(s: System, p: nat)
  {
    && (forall i :: 0 <= i < |s.writers| ==> BytePlaced(s.data, s.writers[i], p))
    && ((forall i :: 0 <= i < |s.writers| ==> !Inside(s.writers[i], p)) ==> ByteAt(s.data, p) == 0)
    && (p < |s.data| ==> exists i: nat :: Reaches(s, i, p))
  }

  predicate Reaches(s: System, i: nat, p: nat)
  {
    i < |s.writers| && s.writers[i].done > 0 && p < s.writers[i].offset + s.writers[i].done
  }

  lemma AdvanceExplained(H: HashFn, s: System, i: nat, p: nat)
    requires Consistent(H, s) && Disjoint(s.writers) && ByteExplained(s, p)
    requires i < |s.writers| && !s.writers[i].Finished()
    ensures ByteExplained(Next(H, s, Advance(i)), p)
  {
    hide M.Tracks, M.Step, M.Succeeds, Splice, ChunkBytes, SizeExplained;
    var w := s.writers[i];
    var e, s' := NextStep(s, w), Next(H, s, Advance(i));
    StepSucceeds(H, s, w);
    SpliceAt(s.data, e.off, e.src, p);
    var w' := w.(done := w.done + |e.src|);
    assert s'.writers == s.writers[i := w'];
    forall k | 0 <= k < |s'.writers| ensures BytePlaced(s'.data, s'.writers[k], p) {
      assert BytePlaced(s.data, s.writers[k], p);
      if e.off <= p < e.off + |e.src| && k != i {
        assert Inside(w, p);
        assert k < i || i < k;
        assert !Inside(s.writers[k], p);
      }
    }
    if p < |s'.data| {
      if p < w'.offset + w'.done {
        assert Reaches(s', i, p);
      } else {
        var k: nat :| Reaches(s, k, p);
        assert Reaches(s', k, p);
      }
    }
    if forall k :: 0 <= k < |s'.writers| ==> !Inside(s'.writers[k], p) {
      assert forall k :: 0 <= k < |s.writers| ==> Inside(s.writers[k], p) == Inside(s'.writers[k], p);
      assert !Inside(w, p);
    }
  }

  /**
   Writers on disjoint ranges do not disturb each other: in every state of every interleaving, each
   of them has its written bytes in place, every byte that none of them covers is zero, and the file
   ends where some writer has got to.
   */
  lemma {:induction false} DisjointWritersCompose(H: HashFn, schedule: seq<Choice>, p: nat)
    requires NoCuts(schedule)
    ensures Disjoint(Run(H, schedule).writers) ==> ByteExplained(Run(H, schedule), p)
  {
    hide Next, Consistent, ByteExplained, Disjoint, Splice;
    if schedule == [] {
      EmptyExplained(H, p);
    } else {
      var before, choice := schedule[..|schedule| - 1], schedule[|schedule| - 1];
      var s := Run(H, before);
      DisjointWritersCompose(H, before, p);
      InterleavingsStayConsistent(H, before);
      if Disjoint(Next(H, s, choice).writers) { StepExplained(H, s, choice, p); }
    }
  }

  lemma EmptyExplained(H: HashFn, p: nat)
    ensures ByteExplained(Run(H, []), p)
  {}

  lemma StepExplained(H: HashFn, s: System, choice: Choice, p: nat)
    requires Consistent(H, s) && !choice.Cut? && Disjoint(Next(H, s, choice).writers)
    requires Disjoint(s.writers) ==> ByteExplained(s, p)
    ensures ByteExplained(Next(H, s, choice), p)
  {
    hide M.Tracks, M.Step, M.Succeeds, Splice, NextStep, SizeExplained;
    match choice {
      case Begin(buf, offset) =>
        var s' := Next(H, s, choice);
        assert forall k :: 0 <= k < |s.writers| ==> s'.writers[k] == s.writers[k];
        assert Disjoint(s.writers);
        if p < |s.data| {
          var k: nat :| Reaches(s, k, p);
          assert Reaches(s', k, p);
        }
      case Advance(i) =>
        if i < |s.writers| && !s.writers[i].Finished() {
          SameRanges(H, s, i);
          AdvanceExplained(H, s, i, p);
        }
    }
  }

  lemma SameRanges(H: HashFn, s: System, i: nat)
    requires i < |s.writers| && Disjoint(Next(H, s, Advance(i)).writers)
    ensures Disjoint(s.writers)
  {
    hide M.Tracks, M.Step, M.Succeeds, Splice, NextStep;
    var ws := Next(H, s, Advance(i)).writers;
    assert forall k, p: nat :: 0 <= k < |ws| ==> Inside(ws[k], p) == Inside(s.writers[k], p);
  }

  /** Of two such runs with the same finished writers, one file has every byte of the other. */
  lemma FinishedBytes(H: HashFn, first: seq<Choice>, second: seq<Choice>, p: nat)
    requires NoCuts(first) && NoCuts(second)
    requires Run(H, first).writers == Run(H, second).writers && Disjoint(Run(H, first).writers)
    requires forall i :: 0 <= i < |Run(H, first).writers| ==> Run(H, first).writers[i].Finished()
    requires p < |Run(H, first).data|
    ensures p < |Run(H, second).data| && Run(H, first).data[p] == Run(H, second).data[p]
  {
    hide Run, Disjoint;
    var s, t := Run(H, first), Run(H, second);
    DisjointWritersCompose(H, first, p);
    DisjointWritersCompose(H, second, p);
    var i: nat :| Reaches(s, i, p);
    var w := s.writers[i];
    var last := w.offset + w.done - 1;
    DisjointWritersCompose(H, second, last);
    assert BytePlaced(t.data, t.writers[i], last);
    if k: nat :| k < |s.writers| && Inside(s.writers[k], p) {
      assert BytePlaced(s.data, s.writers[k], p) && BytePlaced(t.data, t.writers[k], p);
    }
  }

  /** Once all have finished, the file that disjoint writers leave does not depend on the schedule. */
  lemma DisjointWritersCommute(H: HashFn, first: seq<Choice>, second: seq<Choice>)
    requires NoCuts(first) && NoCuts(second)
    requires Run(H, first).writers == Run(H, second).writers && Disjoint(Run(H, first).writers)
    requires forall i :: 0 <= i < |Run(H, first).writers| ==> Run(H, first).writers[i].Finished()
    ensures Run(H, first).data == Run(H, second).data
    ensures Run(H, first).list == Run(H, second).list
  {
    hide Run, Disjoint, Consistent;
    var x, y := Run(H, first).data, Run(H, second).data;
    if |x| < |y| { FinishedBytes(H, second, first, |x|); }
    if |y| < |x| { FinishedBytes(H, first, second, |y|); }
    forall p: nat | p < |x| ensures x[p] == y[p] { FinishedBytes(H, first, second, p); }
    InterleavingsStayConsistent(H, first);
    InterleavingsStayConsistent(H, second);
  }

  // ---------------------------------------------------------------------------------------
  // The same in terms of the schedule
  // ---------------------------------------------------------------------------------------

  /** The writes that a schedule begins, in order. */
  function Begins(schedule: seq<Choice>): (begins: seq<Choice>)
    ensures forall choice :: choice in begins <==> choice in schedule && choice.Begin?
  {
    if schedule == [] then []
    else
      var n := |schedule| - 1;
      assert schedule == schedule[..n] + [schedule[n]];
      Begins(schedule[..n]) + if schedule[n].Begin? then [schedule[n]] else []
  }

  /** The writers of a run are exactly the writes of its schedule, with the bytes and offsets given there. */
  lemma {:induction false} WritersAreBegins(H: HashFn, schedule: seq<Choice>)
    ensures |Run(H, schedule).writers| == |Begins(schedule)|
    ensures forall j :: 0 <= j < |Begins(schedule)| ==>
              var w, begin := Run(H, schedule).writers[j], Begins(schedule)[j];
              begin == Begin(w.buf, w.offset)
  {
    hide Next, Run, Begins;
    Unfolded(H, schedule);
    if schedule != [] {
      var before, choice := schedule[..|schedule| - 1], schedule[|schedule| - 1];
      WritersAreBegins(H, before);
      NextWriters(H, Run(H, before), choice);
      forall j | 0 <= j < |Begins(schedule)|
        ensures Begins(schedule)[j] == Begin(Run(H, schedule).writers[j].buf, Run(H, schedule).writers[j].offset)
      {
        if j < |Begins(before)| { assert Begins(schedule)[j] == Begins(before)[j]; }
      }
    }
  }

  lemma Unfolded(H: HashFn, schedule: seq<Choice>)
    ensures schedule == [] ==> Run(H, schedule).writers == [] && Begins(schedule) == []
    ensures schedule != [] ==>
              var before, choice := schedule[..|schedule| - 1], schedule[|schedule| - 1];
              && Run(H, schedule) == Next(H, Run(H, before), choice)
              && Begins(schedule) == Begins(before) + if choice.Begin? then [choice] else []
  {
    hide Next;
  }

  /** A step adds a writer for a new write, and otherwise keeps the writers with their bytes and offsets. */
  lemma NextWriters(H: HashFn, s: System, choice: Choice)
    ensures var ws := Next(H, s, choice).writers;
            && |ws| == |s.writers| + (if choice.Begin? then 1 else 0)
            && (forall j :: 0 <= j < |s.writers| ==>
                  ws[j].buf == s.writers[j].buf && ws[j].offset == s.writers[j].offset)
            && (choice.Begin? ==> choice == Begin(ws[|s.writers|].buf, ws[|s.writers|].offset))
  {
    hide M.Step, M.Succeeds, Splice, Truncate, NextStep, CutStep;
  }

  /** The write covers byte `p`. */
  predicate Covers(begin: Choice, p: nat) { begin.Begin? && begin.offset <= p < begin.offset + |begin.buf| }

  ghost predicate DisjointBegins(begins: seq<Choice>)
  {
    forall i, j, p: nat :: 0 <= i < j < |begins| && Covers(begins[i], p) ==> !Covers(begins[j], p)
  }

  ghost predicate AllFinished(s: System)
  {
    forall i :: 0 <= i < |s.writers| ==> s.writers[i].Finished()
  }

  lemma DisjointBeginsAreDisjointWriters(H: HashFn, schedule: seq<Choice>)
    requires DisjointBegins(Begins(schedule))
    ensures Disjoint(Run(H, schedule).writers)
  {
    hide Run, Begins;
    WritersAreBegins(H, schedule);
    var ws, begins := Run(H, schedule).writers, Begins(schedule);
    forall i, j, p: nat | 0 <= i < j < |ws| && Inside(ws[i], p) ensures !Inside(ws[j], p) {
      assert Covers(begins[i], p);
      assert !Covers(begins[j], p);
    }
  }

  /**
   Writes on disjoint ranges, interleaved in any way and all finished, leave each its bytes at its offset. Every
   byte that none of them covers is zero, and the file ends with the last byte of one of them.
   */
  lemma DisjointBeginsCompose(H: HashFn, schedule: seq<Choice>)
    requires NoCuts(schedule) && DisjointBegins(Begins(schedule)) && AllFinished(Run(H, schedule))
    ensures var data := Run(H, schedule).data;
            && (forall begin :: begin in schedule && begin.Begin? && begin.buf != [] ==>
                  && begin.offset + |begin.buf| <= |data|
                  && data[begin.offset..begin.offset + |begin.buf|] == begin.buf)
            && (forall p: nat :: p < |data| && (forall begin :: begin in schedule ==> !Covers(begin, p)) ==>
                  data[p] == 0)
            && (data != [] ==> exists begin :: begin in schedule && Covers(begin, |data| - 1))
  {
    hide Run, Begins, Disjoint, NoCuts, DisjointBegins;
    var s := Run(H, schedule);
    forall begin | begin in schedule && begin.Begin? && begin.buf != []
      ensures begin.offset + |begin.buf| <= |s.data|
      ensures s.data[begin.offset..begin.offset + |begin.buf|] == begin.buf
    {
      BytesOfBegin(H, schedule, begin);
    }
    forall p: nat | p < |s.data| && (forall begin :: begin in schedule ==> !Covers(begin, p)) ensures s.data[p] == 0 {
      UncoveredByte(H, schedule, p);
    }
    if s.data != [] { LastByte(H, schedule); }
  }

  lemma BytesOfBegin(H: HashFn, schedule: seq<Choice>, begin: Choice)
    requires NoCuts(schedule) && DisjointBegins(Begins(schedule)) && AllFinished(Run(H, schedule))
    requires begin in schedule && begin.Begin? && begin.buf != []
    ensures var data := Run(H, schedule).data;
            begin.offset + |begin.buf| <= |data| && data[begin.offset..begin.offset + |begin.buf|] == begin.buf
  {
    hide Run, Disjoint, NoCuts, DisjointBegins;
    var s := Run(H, schedule);
    WritersAreBegins(H, schedule);
    DisjointBeginsAreDisjointWriters(H, schedule);
    assert begin in Begins(schedule);
    var j :| 0 <= j < |Begins(schedule)| && Begins(schedule)[j] == begin;
    var w := s.writers[j];
    assert w.Finished();
    forall p: nat | begin.offset <= p < begin.offset + |begin.buf|
      ensures p < |s.data| && s.data[p] == begin.buf[p - begin.offset]
    {
      DisjointWritersCompose(H, schedule, p);
      assert BytePlaced(s.data, w, p);
    }
    var last := begin.offset + |begin.buf| - 1;
    DisjointWritersCompose(H, schedule, last);
    assert BytePlaced(s.data, w, last);
  }

  lemma UncoveredByte(H: HashFn, schedule: seq<Choice>, p: nat)
    requires NoCuts(schedule) && DisjointBegins(Begins(schedule))
    requires p < |Run(H, schedule).data| && forall begin :: begin in schedule ==> !Covers(begin, p)
    ensures Run(H, schedule).data[p] == 0
  {
    hide Run, Disjoint, NoCuts, DisjointBegins;
    var s := Run(H, schedule);
    WritersAreBegins(H, schedule);
    DisjointBeginsAreDisjointWriters(H, schedule);
    DisjointWritersCompose(H, schedule, p);
    forall i | 0 <= i < |s.writers| ensures !Inside(s.writers[i], p) {
      assert Begins(schedule)[i] in Begins(schedule);
      assert !Covers(Begins(schedule)[i], p);
    }
  }

  lemma LastByte(H: HashFn, schedule: seq<Choice>)
    requires NoCuts(schedule) && DisjointBegins(Begins(schedule)) && AllFinished(Run(H, schedule))
    requires Run(H, schedule).data != []
    ensures exists begin :: begin in schedule && Covers(begin, |Run(H, schedule).data| - 1)
  {
    hide Run, Disjoint, NoCuts, DisjointBegins;
    var s := Run(H, schedule);
    WritersAreBegins(H, schedule);
    DisjointBeginsAreDisjointWriters(H, schedule);
    DisjointWritersCompose(H, schedule, |s.data| - 1);
    var i: nat :| Reaches(s, i, |s.data| - 1);
    var w, begin := s.writers[i], Begins(schedule)[i];
    assert w.Finished() && begin in Begins(schedule);
    BytesOfBegin(H, schedule, begin);
    assert Covers(begin, |s.data| - 1);
  }

  /** The order in which the steps of such writes are taken does not matter. */
  lemma DisjointBeginsCommute(H: HashFn, first: seq<Choice>, second: seq<Choice>)
    requires NoCuts(first) && NoCuts(second) && Begins(first) == Begins(second) && DisjointBegins(Begins(first))
    requires AllFinished(Run(H, first)) && AllFinished(Run(H, second))
    ensures Run(H, first).data == Run(H, second).data && Run(H, first).list == Run(H, second).list
  {
    hide Run, Begins, Disjoint, NoCuts, DisjointBegins, Consistent;
    var x, y := Run(H, first), Run(H, second);
    WritersAreBegins(H, first);
    WritersAreBegins(H, second);
    InterleavingsStayConsistent(H, first);
    InterleavingsStayConsistent(H, second);
    forall i | 0 <= i < |x.writers| ensures x.writers[i] == y.writers[i] {
      assert x.writers[i].Finished() && y.writers[i].Finished();
      AliveAt(H, x, i);
      AliveAt(H, y, i);
      assert Begins(first)[i] == Begins(second)[i];
    }
    assert x.writers == y.writers;
    DisjointBeginsAreDisjointWriters(H, first);
    DisjointWritersCommute(H, first, second);
  }

  lemma AliveAt(H: HashFn, s: System, i: nat)
    requires Consistent(H, s) && i < |s.writers|
    ensures !s.writers[i].aborted
  {}
}
