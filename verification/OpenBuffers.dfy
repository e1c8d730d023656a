/**
 Buffers shared by all openers of an inode, with an open count. Files and directories use the same
 scheme: `T` is a byte or a directory entry.
 */
module OpenBuffers {
  import opened Common

  datatype OpenBuf<T> = OpenBuf(openCount: nat, buf: seq<T>)

  type Buffers<T> = map<nat, OpenBuf<T>>

  /** `open` / `opendir`: shares the buffer, or inserts a fresh one if it could be read (`None` if not). */
  function Opened<T>(m: Buffers<T>, h: nat, content: Option<seq<T>>): (r: Option<Buffers<T>>)
  {
    if h in m then
      if m[h].openCount == 0 then None else Some(m[h := m[h].(openCount := m[h].openCount + 1)])
    else if content.None? then None
    else Some(m[h := OpenBuf(1, content.value)])
  }

  /** `release` / `releasedir`: the decremented count is only compared with zero, never stored. */
  function Released<T>(m: Buffers<T>, h: nat): Option<Buffers<T>>
  {
    if h !in m || m[h].openCount == 0 then None
    else if m[h].openCount - 1 == 0 then Some(m - {h})
    else Some(m)
  }

  // ---------------------------------------------------------------------------------------
  // Runs
  // ---------------------------------------------------------------------------------------

  /** An open, with the content it would read at that moment (`None` if that fails), or a release. */
  datatype Op<T> = Open(h: nat, content: Option<seq<T>>) | Release(h: nat)

  function Outcome<T>(m: Buffers<T>, op: Op<T>): Option<Buffers<T>>
  {
    match op
    case Open(h, content) => Opened(m, h, content)
    case Release(h) => Released(m, h)
  }

  /** State after a run from no open buffers; failed operations change nothing. */
  function Run<T>(ops: seq<Op<T>>): Buffers<T>
  {
    if ops == [] then map[]
    else
      var m := Run(ops[..|ops| - 1]);
      var o := Outcome(m, ops[|ops| - 1]);
      if o.Some? then o.value else m
  }

  /** Successful opens of `h` minus releases of `h`. */
  function Outstanding<T>(ops: seq<Op<T>>, h: nat): int
  {
    if ops == [] then 0
    else
      var before, op := ops[..|ops| - 1], ops[|ops| - 1];
      Outstanding(before, h) +
      if op.h != h then 0
      else if op.Release? then -1
      else if Outcome(Run(before), op).Some? then 1 else 0
  }

  /** Number of opens of `h`, successful or not. */
  function Opens<T>(ops: seq<Op<T>>, h: nat): nat
  {
    if ops == [] then 0
    else Opens(ops[..|ops| - 1], h) + if ops[|ops| - 1].Open? && ops[|ops| - 1].h == h then 1 else 0
  }

  /** Every release matches an earlier successful open that was still outstanding. */
  ghost predicate Matched<T>(ops: seq<Op<T>>)
  {
    forall k: nat :: k < |ops| && ops[k].Release? ==> Outstanding(ops[..k], ops[k].h) > 0
  }

  /** At some point of the run, `h` had two openers at once. */
  ghost predicate Overlapped<T>(ops: seq<Op<T>>, h: nat)
  {
    exists k: nat :: k <= |ops| && Outstanding(ops[..k], h) >= 2
  }

  lemma OverlappedOneMore<T>(ops: seq<Op<T>>, h: nat)
    requires ops != []
    ensures Overlapped(ops, h) <==> Overlapped(ops[..|ops| - 1], h) || Outstanding(ops, h) >= 2
  {
    var before := ops[..|ops| - 1];
    if k: nat :| k <= |ops| && Outstanding(ops[..k], h) >= 2 {
      if k < |ops| { assert before[..k] == ops[..k]; } else { assert ops[..k] == ops; }
    }
    if k: nat :| k <= |before| && Outstanding(before[..k], h) >= 2 {
      assert before[..k] == ops[..k];
    }
    assert ops[..|ops|] == ops;
  }

  /** What is known about the count of `h` after a matched run. */
  ghost predicate Accounted<T>(ops: seq<Op<T>>, h: nat)
  {
    var m, n := Run(ops), Outstanding(ops, h);
    && 0 <= n
    && (h in m ==> n <= m[h].openCount && 1 <= m[h].openCount <= Opens(ops, h))
    && (Overlapped(ops, h) ==> h in m && m[h].openCount >= 2)
    && (!Overlapped(ops, h) ==> n <= 1 && (h in m <==> n == 1) && (h in m ==> m[h].openCount == 1))
  }

  lemma StepAccounted<T>(ops: seq<Op<T>>, h: nat)
    requires ops != [] && Accounted(ops[..|ops| - 1], h)
    requires ops[|ops| - 1].Release? ==> Outstanding(ops[..|ops| - 1], ops[|ops| - 1].h) > 0
    ensures Accounted(ops, h)
  {
    hide Overlapped;
    OverlappedOneMore(ops, h);
  }

  lemma MatchedPrefix<T>(ops: seq<Op<T>>, n: nat)
    requires Matched(ops) && n <= |ops|
    ensures Matched(ops[..n])
  {
    assert forall k: nat :: k < n ==> ops[..n][..k] == ops[..k] && ops[..n][k] == ops[k];
  }

  /**
   Over every run in which releases match opens: a buffer is there as long as someone has it open, its
   count is never zero and never more than the number of opens, and it is removed when the last opener
   leaves if and only if there never were two openers at once. After an overlap it is never removed.
   */
  lemma {:induction false} MatchedRunsAreAccounted<T>(ops: seq<Op<T>>, h: nat)
    requires Matched(ops)
    ensures Accounted(ops, h)
    ensures Outstanding(ops, h) > 0 ==> h in Run(ops)
    ensures h in Run(ops) <==> Outstanding(ops, h) > 0 || Overlapped(ops, h)
  {
    hide Outstanding, Overlapped, Run;
    if ops == [] {
      NothingOpen<T>(h);
    } else {
      MatchedPrefix(ops, |ops| - 1);
      MatchedRunsAreAccounted(ops[..|ops| - 1], h);
      StepAccounted(ops, h);
    }
  }

  lemma NothingOpen<T>(h: nat)
    ensures Accounted<T>([], h)
  {}

  /** Two overlapping openers leave their buffer behind for good. */
  lemma OverlapLeavesBuffer<T>(h: nat, content: seq<T>)
    ensures var ops := [Open(h, Some(content)), Open(h, Some(content)), Release(h), Release(h)];
            Matched(ops) && Outstanding(ops, h) == 0 && h in Run(ops)
  {
    var o := Open(h, Some(content));
    var ops := [o, o, Release(h), Release(h)];
    var one, two, three := [o], [o, o], [o, o, Release(h)];
    assert ops[..1] == one && ops[..2] == two && ops[..3] == three;
    assert one[..0] == [] && two[..1] == one && three[..2] == two;
    assert Run(one) == map[h := OpenBuf(1, content)];
    assert Outstanding(one, h) == 1;
    assert Run(two) == map[h := OpenBuf(2, content)];
    assert Outstanding(two, h) == 2;
    assert Run(three) == Run(two);
    assert Outstanding(three, h) == 1;
    assert Run(ops) == Run(three);
  }

  // ---------------------------------------------------------------------------------------
  // What a buffer holds
  // ---------------------------------------------------------------------------------------

  /** Open `i` inserted the buffer `buf` of `h`, and from then on it has been there, unchanged. */
  ghost predicate InsertedBy<T>(ops: seq<Op<T>>, i: nat, h: nat, buf: seq<T>)
  {
    && i < |ops| && ops[i] == Open(h, Some(buf)) && h !in Run(ops[..i])
    && forall j: nat :: i < j <= |ops| ==> h in Run(ops[..j]) && Run(ops[..j])[h].buf == buf
  }

  /** One operation keeps the bytes of a buffer or removes it; a new buffer is the content of that open. */
  lemma StepKeepsBytes<T>(m: Buffers<T>, op: Op<T>, h: nat)
    ensures var o := Outcome(m, op);
            o.Some? && h in o.value ==>
              if h in m then o.value[h].buf == m[h].buf else op == Open(h, Some(o.value[h].buf))
  {}

  /** Every buffer holds the content read by the open that inserted it, and has not changed since. */
  lemma {:induction false} BufferHasInserter<T>(ops: seq<Op<T>>, h: nat) returns (i: nat)
    requires h in Run(ops)
    ensures InsertedBy(ops, i, h, Run(ops)[h].buf)
  {
    var n := |ops| - 1;
    var before := ops[..n];
    StepKeepsBytes(Run(before), ops[n], h);
    assert ops[..|ops|] == ops;
    if h in Run(before) {
      i := BufferHasInserter(before, h);
      assert forall j: nat :: j <= n ==> before[..j] == ops[..j];
      assert before[..n] == before;
    } else {
      i := n;
    }
  }

  /** From point `k` of the run on, someone has `h` open all the time. */
  ghost predicate Held<T>(ops: seq<Op<T>>, k: nat, h: nat)
  {
    k <= |ops| && forall j: nat :: k <= j <= |ops| ==> Outstanding(ops[..j], h) > 0
  }

  /**
   While `h` is held, whatever others do and whatever later opens would have read, its buffer stays and
   its bytes are those it had at the beginning.
   */
  lemma {:induction false} HeldBufferIsStable<T>(ops: seq<Op<T>>, k: nat, h: nat)
    requires Matched(ops) && Held(ops, k, h)
    ensures h in Run(ops[..k]) && h in Run(ops) && Run(ops[..k])[h].buf == Run(ops)[h].buf
  {
    assert ops[..|ops|] == ops;
    MatchedRunsAreAccounted(ops, h);
    if k < |ops| {
      var n := |ops| - 1;
      var before := ops[..n];
      assert forall j: nat :: j <= n ==> before[..j] == ops[..j];
      MatchedPrefix(ops, n);
      HeldBufferIsStable(before, k, h);
      StepKeepsBytes(Run(before), ops[n], h);
    }
  }
}
