/**
 Bytes, byte files, and the chunk arithmetic shared by every part of authfs.

 A file is a `seq<byte>`. Reading past its end yields zero (`ByteAt`), which is what the
 zero-initialised chunk buffers of the program observe. The chunk size is 4096 throughout.
 */
module Common {
  newtype byte = x: int | 0 <= x < 256

  const U64_MAX: nat := 0xFFFF_FFFF_FFFF_FFFF

  /** A full chunk buffer. */
  type Block = s: seq<byte> | |s| == 4096 witness seq(4096, _ => 0)

  datatype Option<+T> = None | Some(value: T)

  function Min(a: nat, b: nat): nat { if a <= b then a else b }

  function Max(a: nat, b: nat): nat { if a >= b then a else b }

  function Zeros(n: nat): seq<byte> { seq(n, _ => 0) }

  /** Rounded-up quotient: the least `q` with `a <= q * b`. */
  function DivideRoundup(a: nat, b: nat): (q: nat)
    requires b > 0
    ensures (q - 1) * b < a <= q * b
  {
    DivisionBounds(a + b - 1, b);
    (a + b - 1) / b
  }

  lemma DivisionBounds(a: nat, b: nat)
    requires b > 0
    ensures a / b * b <= a < (a / b + 1) * b
  {
    assert a == b * (a / b) + a % b;
  }

  lemma TimesMonotone(x: int, y: int, b: nat)
    ensures x <= y ==> x * b <= y * b
  {}

  /** The bounds in `DivideRoundup`'s contract determine its result. */
  lemma DivideRoundupUnique(a: nat, b: nat, q: nat)
    requires b > 0 && (q - 1) * b < a <= q * b
    ensures q == DivideRoundup(a, b)
  {
    var r: int := DivideRoundup(a, b);
    TimesMonotone(q, r - 1, b);
    TimesMonotone(r, q - 1, b);
  }

  /** Same for plain division. */
  lemma DivisionUnique(a: nat, b: nat, q: nat)
    requires b > 0 && q * b <= a < (q + 1) * b
    ensures q == a / b
  {
    DivisionBounds(a, b);
    var r := a / b;
    TimesMonotone(q + 1, r, b);
    TimesMonotone(r + 1, q, b);
  }

  // ---------------------------------------------------------------------------------------
  // Byte files
  // ---------------------------------------------------------------------------------------

  function ByteAt(c: seq<byte>, p: nat): byte { if p < |c| then c[p] else 0 }

  function ChunkCount(size: nat): nat { DivideRoundup(size, 4096) }

  /** Chunk `i` of the file, padded with zeros to the chunk size. */
  function ChunkBlock(c: seq<byte>, i: nat): Block
  {
    var block: seq<byte> := seq(4096, (j: nat) => ByteAt(c, 4096 * i + j));
    block
  }

  lemma BlockAt(c: seq<byte>, i: nat, j: nat)
    requires j < 4096
    ensures ChunkBlock(c, i)[j] == ByteAt(c, 4096 * i + j)
  {}

  /** A short buffer padded with zeros to the chunk size. */
  function Pad(b: seq<byte>): Block
    requires |b| <= 4096
  {
    b + Zeros(4096 - |b|)
  }

  lemma PadFull(b: Block)
    ensures Pad(b) == b
  {
    assert Zeros(0) == [];
  }

  /** The bytes of chunk `i` without padding; empty past the end of the file. */
  function ChunkBytes(c: seq<byte>, i: nat): (s: seq<byte>)
    ensures |s| <= 4096 && Pad(s) == ChunkBlock(c, i)
  {
    var begin := Min(4096 * i, |c|);
    var s := c[begin..Min(begin + 4096, |c|)];
    PaddedSlice(c, i, s);
    s
  }

  /** How many bytes a chunk has: 4096, less at the end of the file, none past it. */
  lemma ChunkLength(c: seq<byte>, i: nat)
    ensures |ChunkBytes(c, i)| == if |c| <= 4096 * i then 0 else if |c| < 4096 * i + 4096 then |c| - 4096 * i else 4096
    ensures ChunkBytes(c, i) == [] || ChunkBytes(c, i) == c[4096 * i..4096 * i + |ChunkBytes(c, i)|]
  {}

  lemma PaddedSlice(c: seq<byte>, i: nat, s: seq<byte>)
    requires s == if |c| <= 4096 * i then [] else c[4096 * i..Min(4096 * i + 4096, |c|)]
    ensures |s| <= 4096 && Pad(s) == ChunkBlock(c, i)
  {
    forall j: nat | j < 4096 ensures Pad(s)[j] == ChunkBlock(c, i)[j] {
      assert ChunkBlock(c, i)[j] == ByteAt(c, 4096 * i + j);
      assert Pad(s)[j] == if j < |s| then s[j] else 0;
    }
  }

  /** A file with `src` written at `off`; a gap past the end becomes zeros. Writing nothing changes nothing. */
  function Splice(c: seq<byte>, off: nat, src: seq<byte>): (d: seq<byte>)
    ensures |d| == if src == [] then |c| else Max(|c|, off + |src|)
  {
    if src == [] then c
    else seq(Max(|c|, off + |src|), (p: nat) => if off <= p < off + |src| then src[p - off] else ByteAt(c, p))
  }

  /** A file cut or zero-extended to `size`. */
  function Truncate(c: seq<byte>, size: nat): (d: seq<byte>)
    ensures |d| == size
  {
    seq(size, (p: nat) => ByteAt(c, p))
  }

  lemma SpliceAt(c: seq<byte>, off: nat, src: seq<byte>, p: nat)
    ensures ByteAt(Splice(c, off, src), p) == if off <= p < off + |src| then src[p - off] else ByteAt(c, p)
  {}

  lemma EmptySplice(c: seq<byte>, off: nat)
    ensures Splice(c, off, []) == c
  {}

  lemma SameBytes(x: seq<byte>, y: seq<byte>)
    requires |x| == |y| && forall p: nat :: p < |x| ==> ByteAt(x, p) == ByteAt(y, p)
    ensures x == y
  {
    forall p: nat | p < |x| ensures x[p] == y[p] { assert ByteAt(x, p) == ByteAt(y, p); }
  }

  /** Two adjacent writes are one write. */
  lemma SpliceSplice(c: seq<byte>, off: nat, a: seq<byte>, b: seq<byte>)
    ensures Splice(Splice(c, off, a), off + |a|, b) == Splice(c, off, a + b)
  {
    hide Splice, ByteAt;
    if a == [] {
      assert a + b == b;
      assert Splice(c, off, a) == c by { EmptySplice(c, off); }
    } else if b == [] {
      assert a + b == a;
      EmptySplice(Splice(c, off, a), off + |a|);
    } else {
      var x, y := Splice(Splice(c, off, a), off + |a|, b), Splice(c, off, a + b);
      forall p: nat | p < |x| ensures ByteAt(x, p) == ByteAt(y, p) {
        SpliceAt(Splice(c, off, a), off + |a|, b, p);
        SpliceAt(c, off, a, p);
        SpliceAt(c, off, a + b, p);
      }
      SameBytes(x, y);
    }
  }

  /** Two files of one length with the same padded chunks are the same file. */
  lemma ChunksDetermineFile(c: seq<byte>, d: seq<byte>)
    requires |c| == |d|
    requires forall i: nat :: i < ChunkCount(|c|) ==> ChunkBlock(c, i) == ChunkBlock(d, i)
    ensures c == d
  {
    forall p | 0 <= p < |c| ensures c[p] == d[p] {
      var i, j := p / 4096, p % 4096;
      assert ChunkBlock(c, i)[j] == ByteAt(c, p) && ChunkBlock(d, i)[j] == ByteAt(d, p);
    }
  }

  // ---------------------------------------------------------------------------------------
  // ChunkedSizeIter
  // ---------------------------------------------------------------------------------------

  /** One `(offset, size)` pair of the iterator. */
  datatype Tile = Tile(offset: nat, size: nat)

  /** Size of the next piece: up to the next alignment boundary, but no more than what remains. */
  function TileSize(remaining: nat, offset: nat, alignment: nat): nat
    requires alignment > 0
  {
    Min(remaining, alignment - offset % alignment)
  }

  /** Everything the iterator still has to yield. */
  function Tiles(remaining: nat, offset: nat, alignment: nat): seq<Tile>
    requires alignment > 0
  {
    if remaining == 0 then []
    else
      var k := TileSize(remaining, offset, alignment);
      [Tile(offset, k)] + Tiles(remaining - k, offset + k, alignment)
  }

  class ChunkedSizeIter {
    var remaining: nat
    var offset: nat
    const alignment: nat

    ghost predicate Valid() reads this { alignment > 0 }

    ghost function Pending(): seq<Tile>
      requires Valid()
      reads this
    {
      Tiles(remaining, offset, alignment)
    }

    constructor (remaining: nat, offset: nat, alignment: nat)
      requires alignment > 0
      ensures Valid() && Pending() == Tiles(remaining, offset, alignment)
      ensures this.remaining == remaining && this.offset == offset && this.alignment == alignment
    {
      this.remaining, this.offset, this.alignment := remaining, offset, alignment;
    }

    method Next() returns (r: Option<Tile>)
      requires Valid()
      modifies this
      ensures Valid()
      ensures r.None? <==> old(Pending()) == []
      ensures r.None? ==> remaining == old(remaining) == 0 && offset == old(offset)
      ensures r.Some? ==> old(Pending()) == [r.value] + Pending()
      ensures r.Some? ==> r.value.size > 0 && r.value.offset == old(offset)
      ensures r.Some? ==> r.value.offset % alignment + r.value.size <= alignment
      ensures r.Some? ==> offset == old(offset) + r.value.size && remaining == old(remaining) - r.value.size
    {
      if remaining == 0 { return None; }
      var chunkDataSize := TileSize(remaining, offset, alignment);
      r := Some(Tile(offset, chunkDataSize));
      offset := offset + chunkDataSize;
      remaining := remaining - chunkDataSize;
    }
  }

  /** What it means for pieces to tile `[offset, offset + length)` on aligned boundaries. */
  ghost predicate TilesExactly(ts: seq<Tile>, length: nat, offset: nat, alignment: nat)
    requires alignment > 0
  {
    && (ts == [] <==> length == 0)
    && (forall j :: 0 <= j < |ts| ==> ts[j].size > 0)
    && (ts != [] ==> ts[0].offset == offset && ts[|ts| - 1].offset + ts[|ts| - 1].size == offset + length)
    && (forall j, k :: 0 <= j && k == j + 1 < |ts| ==> ts[k].offset == ts[j].offset + ts[j].size)
    // no piece crosses a boundary
    && (forall j :: 0 <= j < |ts| ==> InWindow(ts[j], alignment))
    // every piece but the first starts on a boundary, every piece but the last ends on one
    && (forall j :: 0 < j < |ts| ==> StartsWindow(ts[j], alignment))
    && (forall j :: 0 <= j < |ts| - 1 ==> EndsWindow(ts[j], alignment))
  }

  predicate InWindow(t: Tile, alignment: nat) requires alignment > 0 { t.offset % alignment + t.size <= alignment }

  predicate StartsWindow(t: Tile, alignment: nat) requires alignment > 0 { t.offset % alignment == 0 }

  predicate EndsWindow(t: Tile, alignment: nat) requires alignment > 0 { t.offset % alignment + t.size == alignment }

  /** The iterator yields an exact, ordered, boundary-respecting tiling of the range. */
  lemma {:induction false} TilingIsExact(length: nat, offset: nat, alignment: nat)
    requires alignment > 0
    ensures TilesExactly(Tiles(length, offset, alignment), length, offset, alignment)
    decreases length
  {
    if length > 0 {
      hide TilesExactly, TileSize;
      var k := TileSize(length, offset, alignment);
      TileSizeFacts(length, offset, alignment);
      TilingIsExact(length - k, offset + k, alignment);
      TileThenRest(Tile(offset, k), Tiles(length - k, offset + k, alignment), length, alignment);
    }
  }

  lemma TileSizeFacts(length: nat, offset: nat, alignment: nat)
    requires alignment > 0 && length > 0
    ensures var k := TileSize(length, offset, alignment);
            && 0 < k <= length && offset % alignment + k <= alignment
            && (k < length ==> (offset + k) % alignment == 0 && offset % alignment + k == alignment)
  {
    BoundaryReached(offset, alignment);
  }

  /** One aligned piece in front of a tiling of the remainder is a tiling. */
  lemma TileThenRest(t: Tile, rest: seq<Tile>, length: nat, alignment: nat)
    requires alignment > 0
    requires 0 < t.size <= length && InWindow(t, alignment)
    requires t.size < length ==> EndsWindow(t, alignment) && (t.offset + t.size) % alignment == 0
    requires TilesExactly(rest, length - t.size, t.offset + t.size, alignment)
    ensures TilesExactly([t] + rest, length, t.offset, alignment)
  {
    var ts := [t] + rest;
    assert rest != [] ==> StartsWindow(rest[0], alignment);
    hide InWindow, StartsWindow, EndsWindow;
    assert forall j :: 0 < j < |ts| ==> ts[j] == rest[j - 1];
  }

  lemma BoundaryReached(offset: nat, alignment: nat)
    requires alignment > 0
    ensures (offset + (alignment - offset % alignment)) % alignment == 0
  {
    var q := offset / alignment;
    DivisionBounds(offset, alignment);
    var e := offset + (alignment - offset % alignment);
    assert e == (q + 1) * alignment;
    MultipleHasNoRemainder(q + 1, alignment);
  }

  lemma MultipleHasNoRemainder(q: nat, b: nat)
    requires b > 0
    ensures q * b % b == 0
  {
    DivisionUnique(q * b, b, q);
  }

  /**
   The tiling is forced: any pieces that cover the range in order, stay inside one aligned
   window each and split only at boundaries are the iterator's pieces.
   */
  lemma {:induction false} TilingIsUnique(ts: seq<Tile>, length: nat, offset: nat, alignment: nat)
    requires alignment > 0
    requires TilesExactly(ts, length, offset, alignment)
    ensures ts == Tiles(length, offset, alignment)
    decreases length
  {
    hide TilesExactly;
    TilingEmptyIff(ts, length, offset, alignment);
    if length > 0 {
      var k := ts[0].size;
      RestOfTiling(ts, length, offset, alignment);
      TilingIsUnique(ts[1..], length - k, offset + k, alignment);
      assert ts == [ts[0]] + ts[1..];
    }
  }

  lemma TilingEmptyIff(ts: seq<Tile>, length: nat, offset: nat, alignment: nat)
    requires alignment > 0 && TilesExactly(ts, length, offset, alignment)
    ensures ts == [] <==> length == 0
  {}

  /** The first piece of a tiling is the iterator's, and the other pieces tile the remainder. */
  lemma RestOfTiling(ts: seq<Tile>, length: nat, offset: nat, alignment: nat)
    requires alignment > 0 && length > 0 && TilesExactly(ts, length, offset, alignment)
    ensures ts != [] && ts[0] == Tile(offset, TileSize(length, offset, alignment))
    ensures TilesExactly(ts[1..], length - ts[0].size, offset + ts[0].size, alignment)
  {
    EndsBound(ts, 0);
    if |ts| > 1 { EndsBound(ts, 1); }
    var rest := ts[1..];
    assert forall j :: 0 <= j < |rest| ==> rest[j] == ts[j + 1];
  }

  /** No piece reaches beyond the end of the last one. */
  lemma EndsBound(ts: seq<Tile>, j: nat)
    requires j < |ts|
    requires forall j :: 0 <= j < |ts| ==> ts[j].size > 0
    requires forall j, k :: 0 <= j && k == j + 1 < |ts| ==> ts[k].offset == ts[j].offset + ts[j].size
    ensures ts[j].offset + ts[j].size <= ts[|ts| - 1].offset + ts[|ts| - 1].size
    decreases |ts| - j
  {
    if j + 1 < |ts| { EndsBound(ts, j + 1); }
  }
}
