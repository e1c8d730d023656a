/**
 The store behind an editor: a remote file that answers chunk reads, writes and resizes. What it
 does at each call is scripted by `act`, so that an arbitrary script is an arbitrary store; a store
 whose every act is `Honest` is a plain byte file that may still write less than it was asked to.
 */
module Store {
  import opened Common
  import opened Verifier

  datatype Act =
    /** Serve truthfully; a write stores at most `limit` bytes, perhaps none. */
    | Honest(limit: nat)
    /** Report an error, leaving arbitrary data behind. */
    | Refuse(garbage: seq<byte>)
    /** Report success with an arbitrary reply, leaving arbitrary data behind. */
    | Pretend(reply: Reply, count: nat, garbage: seq<byte>)

  class UntrustedFile {
    var data: seq<byte>
    var clock: nat
    const act: nat -> Act
    /** Every reply ever given to a read. */
    ghost var replies: set<Reply>

    ghost predicate Faithful() { forall t: nat :: act(t).Honest? }

    /** At its call `t`, the store would report a write of no bytes. */
    predicate StallsAt(t: nat)
    {
      match act(t)
      case Honest(limit) => limit == 0
      case Refuse(_) => false
      case Pretend(_, count, _) => count == 0
    }

    ghost predicate MovesAfter(t: nat) { exists k: nat :: t <= k && !StallsAt(k) }

    /** The store never goes on for ever reporting writes of no bytes. */
    ghost predicate Responsive() { forall t: nat :: MovesAfter(t) }

    /** The first call from `t` on that does not stall, given one at `bound`. */
    ghost function FirstMove(t: nat, bound: nat): (k: nat)
      requires t <= bound && !StallsAt(bound)
      ensures t <= k <= bound && !StallsAt(k) && forall j: nat :: t <= j < k ==> StallsAt(j)
      decreases bound - t
    {
      if StallsAt(t) then FirstMove(t + 1, bound) else t
    }

    /** How many calls the store stalls from `t` on. */
    ghost function Wait(t: nat): nat
      requires MovesAfter(t)
    {
      var bound: nat :| t <= bound && !StallsAt(bound);
      FirstMove(t, bound) - t
    }

    lemma WaitShrinks(t: nat)
      requires Responsive() && StallsAt(t)
      ensures MovesAfter(t) && MovesAfter(t + 1) && Wait(t + 1) < Wait(t)
    {}

    /** What is left of `rest` bytes after `n` write calls from `t` on; a refused write ends it. */
    ghost function Left(rest: nat, t: nat, n: nat): nat
      decreases n
    {
      if n == 0 || rest == 0 then rest
      else match act(t)
        case Honest(limit) => Left(rest - Min(limit, rest), t + 1, n - 1)
        case Refuse(_) => 0
        case Pretend(_, count, _) => Left(rest - Min(count, rest), t + 1, n - 1)
    }

    ghost predicate Ends(rest: nat, t: nat) { exists n: nat :: Left(rest, t, n) == 0 }

    /** Retrying ends for every buffer and from every call on, exactly if the store is responsive. */
    lemma {:induction false} RetryingEndsIff()
      ensures Responsive() <==> forall rest: nat, t: nat :: Ends(rest, t)
    {
      hide Left;
      if Responsive() {
        forall rest: nat, t: nat ensures Ends(rest, t) { RetryingEnds(rest, t); }
      } else {
        var t: nat :| !MovesAfter(t);
        forall n: nat ensures Left(1, t, n) == 1 { NothingMoves(t, n); }
        assert !Ends(1, t);
      }
    }

    lemma {:induction false} RetryingEnds(rest: nat, t: nat)
      requires Responsive() && MovesAfter(t)
      ensures Ends(rest, t)
      decreases rest, Wait(t)
    {
      if rest == 0 {
        assert Left(rest, t, 0) == 0;
      } else if act(t).Refuse? {
        assert Left(rest, t, 1) == 0;
      } else {
        var moved := Min(if act(t).Honest? then act(t).limit else act(t).count, rest);
        if StallsAt(t) { WaitShrinks(t); }
        assert MovesAfter(t + 1);
        RetryingEnds(rest - moved, t + 1);
        var n: nat :| Left(rest - moved, t + 1, n) == 0;
        assert Left(rest, t, n + 1) == 0;
      }
    }

    lemma {:induction false} NothingMoves(t: nat, n: nat)
      requires !MovesAfter(t)
      ensures Left(1, t, n) == 1
      decreases n
    {
      assert StallsAt(t);
      if n > 0 { NothingMoves(t + 1, n - 1); }
    }

    constructor (act: nat -> Act)
      ensures data == [] && replies == {} && this.act == act
    {
      data, clock, this.act, replies := [], 0, act, {};
    }

    method ReadChunk(index: nat) returns (r: Reply)
      modifies this
      ensures r in replies && old(replies) <= replies
      ensures Faithful() ==> data == old(data) && r == Got(ChunkBytes(data, index))
    {
      match act(clock) {
        case Honest(_) => r := Got(ChunkBytes(data, index));
        case Refuse(garbage) => r, data := Failed, garbage;
        case Pretend(reply, _, garbage) => r, data := reply, garbage;
      }
      clock, replies := clock + 1, replies + {r};
    }

    /** Reports how many bytes were written, perhaps none, or an error (`None`). */
    method WriteAt(buf: seq<byte>, offset: nat) returns (r: Option<nat>)
      requires buf != []
      modifies this`data, this`clock
      ensures clock == old(clock) + 1 && (r == Some(0) <==> StallsAt(old(clock)))
      ensures Faithful() ==> r.Some? && r.value <= |buf| && data == Splice(old(data), offset, buf[..r.value])
    {
      match act(clock) {
        case Honest(limit) =>
          var n := Min(limit, |buf|);
          r, data := Some(n), Splice(data, offset, buf[..n]);
        case Refuse(garbage) => r, data := None, garbage;
        case Pretend(_, count, garbage) => r, data := Some(count), garbage;
      }
      clock := clock + 1;
    }

    /**
     `write_all_at`: retries short writes until the buffer is used up, which ends unless the store reports
     empty writes for ever. Over a plain file, all its short writes together are one write of
     the whole buffer.
     */
    method WriteAllAt(buf: seq<byte>, offset: nat) returns (ok: bool)
      requires Responsive()
      modifies this`data, this`clock
      ensures Faithful() ==> ok && data == Splice(old(data), offset, buf)
    {
      hide Splice, Wait, StallsAt;
      var inputOffset, outputOffset := 0, offset;
      EmptySplice(data, offset);
      while inputOffset < |buf|
        invariant outputOffset == offset + inputOffset
        invariant MovesAfter(clock)
        invariant Faithful() ==> inputOffset <= |buf| && data == Splice(old(data), offset, buf[..inputOffset])
        decreases |buf| - inputOffset, Wait(clock)
      {
        var size := WriteAt(buf[inputOffset..], outputOffset);
        if size.None? { return false; }
        if size.value == 0 { WaitShrinks(clock - 1); }
        if Faithful() {
          SpliceSplice(old(data), offset, buf[..inputOffset], buf[inputOffset..][..size.value]);
          assert buf[..inputOffset] + buf[inputOffset..][..size.value] == buf[..inputOffset + size.value];
        }
        inputOffset := inputOffset + size.value;
        outputOffset := outputOffset + size.value;
      }
      assert inputOffset == |buf| ==> buf[..inputOffset] == buf;
      ok := true;
    }

    method Resize(size: nat) returns (ok: bool)
      modifies this`data, this`clock
      ensures Faithful() ==> ok && data == Truncate(old(data), size)
    {
      match act(clock) {
        case Honest(_) => ok, data := true, Truncate(data, size);
        case Refuse(garbage) => ok, data := false, garbage;
        case Pretend(_, _, garbage) => ok, data := true, garbage;
      }
      clock := clock + 1;
    }
  }
}
