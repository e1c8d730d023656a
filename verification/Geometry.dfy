/**
 Shape of the fs-verity Merkle tree as the verifier walks it: 128 hashes of 32 bytes per
 4096-byte node, levels stored root first, level 0 holding the hashes of the data chunks.
 */
module Geometry {
  import opened Common

  // ---------------------------------------------------------------------------------------
  // Powers and nested roundings
  // ---------------------------------------------------------------------------------------

  function Pow2(k: nat): (r: nat) ensures r > 0 { if k == 0 then 1 else 2 * Pow2(k - 1) }

  function Pow128(k: nat): (r: nat) ensures r > 0 { if k == 0 then 1 else 128 * Pow128(k - 1) }

  lemma {:induction false} Pow2Monotone(j: nat, k: nat)
    requires j <= k
    ensures Pow2(j) <= Pow2(k)
  {
    if j < k { Pow2Monotone(j, k - 1); }
  }

  lemma {:induction false} Pow128IsPow2(k: nat)
    ensures Pow128(k) == Pow2(7 * k)
  {
    if k > 0 {
      Pow128IsPow2(k - 1);
      var e := 7 * (k - 1);
      assert Pow2(e + 7) == 2 * Pow2(e + 6) && Pow2(e + 6) == 2 * Pow2(e + 5) && Pow2(e + 5) == 2 * Pow2(e + 4);
      assert Pow2(e + 4) == 2 * Pow2(e + 3) && Pow2(e + 3) == 2 * Pow2(e + 2) && Pow2(e + 2) == 2 * Pow2(e + 1);
    }
  }

  lemma TimesAssociative(q: int, b: int, c: int)
    ensures q * c * b == q * (b * c)
  {}

  lemma CeilIsOne(a: nat, b: nat)
    requires a > 0 && b > 0
    ensures DivideRoundup(a, b) >= 1
    ensures DivideRoundup(a, b) == 1 <==> a <= b
  {
    TimesMonotone(1, DivideRoundup(a, b) - 1, b);
  }

  /** Rounding up twice is rounding up once. */
  lemma CeilOfCeil(a: nat, b: nat, c: nat)
    requires b > 0 && c > 0
    ensures b * c > 0 && DivideRoundup(DivideRoundup(a, b), c) == DivideRoundup(a, b * c)
  {
    var m: int := DivideRoundup(a, b);
    var q: int := DivideRoundup(DivideRoundup(a, b), c);
    TimesMonotone(m, q * c, b);
    TimesMonotone((q - 1) * c, m - 1, b);
    TimesAssociative(q, b, c);
    TimesAssociative(q - 1, b, c);
    DivideRoundupUnique(a, b * c, q);
  }

  lemma DivOfDiv(a: nat, b: nat, c: nat)
    requires b > 0 && c > 0
    ensures b * c > 0 && a / b / c == a / (b * c)
  {
    var m: int := a / b;
    var q: int := a / b / c;
    DivisionBounds(a, b);
    DivisionBounds(a / b, c);
    TimesMonotone(q * c, m, b);
    TimesMonotone(m + 1, (q + 1) * c, b);
    TimesAssociative(q, b, c);
    TimesAssociative(q + 1, b, c);
    DivisionUnique(a, b * c, q);
  }

  // ---------------------------------------------------------------------------------------
  // Tree height
  // ---------------------------------------------------------------------------------------

  /** Number of significant bits, that is, `64 - m.leading_zeros()` of an unsigned 64-bit `m`. */
  function BitLength(m: nat): nat { if m == 0 then 0 else 1 + BitLength(m / 2) }

  function Log128Ceil(num: nat): Option<nat>
  {
    if num == 0 then None else Some(DivideRoundup(BitLength(num - 1), 7))
  }

  /** Tree height for the given data size, or `None` for an empty file. */
  function MerkleTreeHeight(dataSize: nat): (r: Option<nat>)
    ensures r.None? <==> dataSize == 0
  {
    Log128Ceil(DivideRoundup(dataSize, 128 * 4096))
  }

  lemma {:induction false} BitLengthBounds(m: nat)
    ensures m < Pow2(BitLength(m))
    ensures m > 0 ==> Pow2(BitLength(m) - 1) <= m
  {
    if m > 0 { BitLengthBounds(m / 2); }
  }

  /** `Log128Ceil(n)` is the least `k` with `128^k >= n`. */
  lemma Log128CeilIsLeast(n: nat, k: nat)
    requires n > 0
    ensures Log128Ceil(n).Some?
    ensures Pow128(k) >= n <==> k >= Log128Ceil(n).value
  {
    var bits := BitLength(n - 1);
    BitLengthBounds(n - 1);
    Pow128IsPow2(k);
    if 7 * k >= bits { Pow2Monotone(bits, 7 * k); }
    else { Pow2Monotone(7 * k, bits - 1); }
  }

  function Height(size: nat): nat
    requires size > 0
  {
    MerkleTreeHeight(size).value
  }

  // ---------------------------------------------------------------------------------------
  // Levels
  // ---------------------------------------------------------------------------------------

  /** Number of hashes at `level` over `n` leaves; level 0 counts the leaves themselves. */
  function HashesAtLevel(n: nat, level: nat): nat
  {
    if level == 0 then n else DivideRoundup(HashesAtLevel(n, level - 1), 128)
  }

  /** Number of nodes (chunks) at `level`: each node has one hash in the level above. */
  function Nodes(size: nat, level: nat): nat { HashesAtLevel(ChunkCount(size), level + 1) }

  /** The same number as the walk computes it, in one division of the file size. */
  function NodesAtLevel(size: nat, level: nat): nat
  {
    DivideRoundup(size, 4096 * Pow128(level) * 128)
  }

  lemma {:induction false} HashesAreRoundedQuotients(n: nat, level: nat)
    ensures HashesAtLevel(n, level) == DivideRoundup(n, Pow128(level))
  {
    if level > 0 {
      HashesAreRoundedQuotients(n, level - 1);
      CeilOfCeil(n, Pow128(level - 1), 128);
    }
  }

  /** Dividing the file size once per level agrees with rounding up level by level. */
  lemma NodesInOneDivision(size: nat, level: nat)
    ensures NodesAtLevel(size, level) == Nodes(size, level)
  {
    HashesAreRoundedQuotients(ChunkCount(size), level + 1);
    CeilOfCeil(size, 4096, Pow128(level + 1));
    assert 4096 * Pow128(level + 1) == 4096 * Pow128(level) * 128;
  }

  /** Only the top level has a single node. */
  lemma TopLevelIsSingle(size: nat, level: nat)
    requires size > 0
    ensures Nodes(size, level) >= 1
    ensures Nodes(size, level) == 1 <==> level >= Height(size)
  {
    hide Nodes, Pow128, Log128Ceil;
    var pages := DivideRoundup(size, 128 * 4096);
    Log128CeilIsLeast(pages, level);
    NodesInOneDivision(size, level);
    TimesAssociative(4096, Pow128(level), 128);
    CeilOfCeil(size, 128 * 4096, Pow128(level));
    CeilIsOne(pages, Pow128(level));
  }

  /** Index of the first chunk of `level` in the root-first layout. */
  function LevelStart(size: nat, level: nat): nat
    requires size > 0
    decreases Height(size) - level
  {
    if level >= Height(size) then 0 else LevelStart(size, level + 1) + Nodes(size, level + 1)
  }

  /** Number of chunks in the whole tree. */
  function TreeChunks(size: nat): nat
    requires size > 0
  {
    LevelStart(size, 0) + Nodes(size, 0)
  }

  /** Chunk index of node `node` of level `level`. */
  function NodeChunk(size: nat, level: nat, node: nat): nat
    requires size > 0
  {
    LevelStart(size, level) + node
  }

  ghost predicate IsNode(size: nat, level: nat, node: nat)
    requires size > 0
  {
    level <= Height(size) && node < Nodes(size, level)
  }

  /** The order of the nodes: the root first, then level by level downwards, each level from left to right. */
  lemma LayoutOrder(size: nat, level: nat, node: nat)
    requires size > 0 && IsNode(size, level, node)
    ensures level == Height(size) ==> NodeChunk(size, level, node) == 0
    ensures node > 0 ==> NodeChunk(size, level, node) == NodeChunk(size, level, node - 1) + 1
    ensures level < Height(size) ==> Nodes(size, level + 1) > 0
    ensures level < Height(size) && node == 0 ==>
              NodeChunk(size, level, node) == NodeChunk(size, level + 1, Nodes(size, level + 1) - 1) + 1
  {
    hide Height, Nodes;
    TopLevelIsSingle(size, level);
    TopLevelIsSingle(size, level + 1);
  }

  /** A lower level starts after every higher level has ended. */
  lemma {:induction false} LevelsAreDisjoint(size: nat, low: nat, high: nat)
    requires size > 0 && low < high <= Height(size)
    ensures LevelStart(size, high) + Nodes(size, high) <= LevelStart(size, low)
    decreases high - low
  {
    if low + 1 < high { LevelsAreDisjoint(size, low + 1, high); }
  }

  /** (level, node) pairs map one-to-one into the chunks of the tree, and the root is chunk 0. */
  lemma NodeChunkInjective(size: nat, l1: nat, n1: nat, l2: nat, n2: nat)
    requires size > 0 && IsNode(size, l1, n1) && IsNode(size, l2, n2)
    ensures NodeChunk(size, l1, n1) < TreeChunks(size)
    ensures NodeChunk(size, l1, n1) == NodeChunk(size, l2, n2) ==> l1 == l2 && n1 == n2
    ensures NodeChunk(size, l1, n1) == 0 <==> l1 == Height(size)
  {
    if l1 < l2 { LevelsAreDisjoint(size, l1, l2); }
    if l2 < l1 { LevelsAreDisjoint(size, l2, l1); }
    if 0 < l1 { LevelsAreDisjoint(size, 0, l1); }
    TopLevelIsSingle(size, Height(size));
    if l1 < Height(size) { LevelsAreDisjoint(size, l1, Height(size)); }
  }

  /** ... and onto them: every chunk of the tree is some node. */
  lemma {:induction false} NodeChunkSurjective(size: nat, level: nat, c: nat) returns (l: nat, node: nat)
    requires size > 0 && level <= Height(size)
    requires c < LevelStart(size, level) + Nodes(size, level)
    ensures level <= l && IsNode(size, l, node) && NodeChunk(size, l, node) == c
    decreases Height(size) - level
  {
    if LevelStart(size, level) <= c {
      l, node := level, c - LevelStart(size, level);
    } else {
      l, node := NodeChunkSurjective(size, level + 1, c);
    }
  }

  // ---------------------------------------------------------------------------------------
  // The walk
  // ---------------------------------------------------------------------------------------

  /** Which tree chunk to read, and where in it the child's hash lies. */
  datatype Step = Step(chunk: nat, hashOffset: nat)

  function StepAt(globalHashOffset: nat): Step
  {
    Step(globalHashOffset / 4096, globalHashOffset % 4096)
  }

  /** The steps for `level`, `level - 1`, ..., 0 when `level` begins at byte `levelOffset`. */
  function RootToLeafSteps(size: nat, index: nat, level: nat, levelOffset: nat): seq<Step>
  {
    var levelSize := NodesAtLevel(size, level) * 4096;
    var offsetInLevel := index / Pow128(level) * 32;
    [StepAt(levelOffset + offsetInLevel)]
    + if level == 0 then [] else RootToLeafSteps(size, index, level - 1, levelOffset + levelSize)
  }

  function Reverse<T>(s: seq<T>): (r: seq<T>)
    ensures |r| == |s|
    ensures forall j :: 0 <= j < |s| ==> r[j] == s[|s| - 1 - j]
  {
    if s == [] then [] else Reverse(s[1..]) + [s[0]]
  }

  /** Leaf-to-root steps for data chunk `index`. */
  function FsverityWalk(size: nat, index: nat): seq<Step>
    requires size > 0
  {
    Reverse(RootToLeafSteps(size, index, Height(size), 0))
  }

  /** Position, among the hashes of `level`, of the one that covers data chunk `index`. */
  function Ancestor(index: nat, level: nat): nat
  {
    if level == 0 then index else Ancestor(index, level - 1) / 128
  }

  lemma {:induction false} AncestorIsQuotient(index: nat, level: nat)
    ensures Ancestor(index, level) == index / Pow128(level)
  {
    if level > 0 {
      AncestorIsQuotient(index, level - 1);
      DivOfDiv(index, Pow128(level - 1), 128);
      assert Pow128(level - 1) * 128 == Pow128(level);
    }
  }

  lemma {:induction false} AncestorInRange(index: nat, n: nat, level: nat)
    requires index < n
    ensures Ancestor(index, level) < HashesAtLevel(n, level)
  {
    if level > 0 { AncestorInRange(index, n, level - 1); }
  }

  /** The step that the walk takes at `level` for data chunk `index`. */
  function PathStep(size: nat, index: nat, level: nat): Step
    requires size > 0
  {
    Step(NodeChunk(size, level, Ancestor(index, level + 1)), 32 * (Ancestor(index, level) % 128))
  }

  lemma StepInLevel(start: nat, p: nat)
    ensures StepAt(4096 * start + p * 32) == Step(start + p / 128, 32 * (p % 128))
  {}

  lemma {:induction false} StepsAt(size: nat, index: nat, level: nat, j: nat)
    requires size > 0 && j <= level <= Height(size)
    ensures var steps := RootToLeafSteps(size, index, level, 4096 * LevelStart(size, level));
            |steps| == level + 1 && steps[level - j] == PathStep(size, index, j)
    decreases level
  {
    hide Height, Nodes, NodesAtLevel, Pow128, StepAt;
    AncestorIsQuotient(index, level);
    NodesInOneDivision(size, level);
    StepInLevel(LevelStart(size, level), Ancestor(index, level));
    if level > 0 { StepsAt(size, index, level - 1, Min(j, level - 1)); }
  }

  /** The walk takes the step of every level in turn, from leaf to root. */
  lemma WalkTakesPathSteps(size: nat, index: nat, level: nat)
    requires size > 0 && level <= Height(size)
    ensures |FsverityWalk(size, index)| == Height(size) + 1
    ensures FsverityWalk(size, index)[level] == PathStep(size, index, level)
  {
    var top := Height(size);
    assert LevelStart(size, top) == 0;
    StepsAt(size, index, top, level);
    var steps := RootToLeafSteps(size, index, top, 0);
    assert Reverse(steps)[level] == steps[top - level];
  }

  /**
   Each step reads a node of its level and looks at the 32-byte slot, inside one chunk, that holds
   the hash at position `Ancestor(index, level)` of the level below it. That hash is the one of the
   very node visited in the step before, and the last step is at chunk 0.
   */
  lemma PathLinksLevels(size: nat, index: nat, level: nat)
    requires size > 0 && index < ChunkCount(size) && level <= Height(size)
    ensures IsNode(size, level, Ancestor(index, level + 1))
    ensures Ancestor(index, level) == 128 * Ancestor(index, level + 1) + PathStep(size, index, level).hashOffset / 32
    ensures PathStep(size, index, level).hashOffset % 32 == 0 && PathStep(size, index, level).hashOffset + 32 <= 4096
    ensures level > 0 ==> PathStep(size, index, level - 1).chunk == NodeChunk(size, level - 1, Ancestor(index, level))
    ensures level == Height(size) ==> PathStep(size, index, level).chunk == 0
  {
    AncestorInRange(index, ChunkCount(size), level + 1);
    TopLevelIsSingle(size, level);
  }

  // ---------------------------------------------------------------------------------------
  // 64-bit range
  // ---------------------------------------------------------------------------------------

  const MAX_WALK_SIZE: nat := 0x2000_0000_0000_0000  // 2^61

  /** Every intermediate value of one level of the walk fits in 64 bits. */
  predicate LevelFitsU64(size: nat, index: nat, level: nat, levelOffset: nat)
  {
    && Pow128(level) <= U64_MAX
    && 4096 * Pow128(level) <= U64_MAX
    && 4096 * Pow128(level) * 128 <= U64_MAX
    && size + 4096 * Pow128(level) * 128 <= U64_MAX
    && NodesAtLevel(size, level) * 4096 <= U64_MAX
    && index / Pow128(level) * 32 <= U64_MAX
    && levelOffset + index / Pow128(level) * 32 <= U64_MAX
    && levelOffset + NodesAtLevel(size, level) * 4096 <= U64_MAX
  }

  /** No 64-bit operation of the walk overflows. */
  predicate WalkFitsU64(size: nat, index: nat)
    requires size > 0
  {
    && size + 128 * 4096 <= U64_MAX
    && forall level: nat :: level <= Height(size) ==>
         LevelFitsU64(size, index, level, 4096 * LevelStart(size, level))
  }

  lemma Pow128Values()
    ensures Pow128(1) == 0x80 && Pow128(2) == 0x4000 && Pow128(3) == 0x20_0000 && Pow128(4) == 0x1000_0000
    ensures Pow128(5) == 0x8_0000_0000 && Pow128(6) == 0x400_0000_0000 && Pow128(7) == 0x2_0000_0000_0000
  {
    assert Pow128(2) == 128 * Pow128(1) && Pow128(3) == 128 * Pow128(2) && Pow128(4) == 128 * Pow128(3);
    assert Pow128(5) == 128 * Pow128(4) && Pow128(6) == 128 * Pow128(5) && Pow128(7) == 128 * Pow128(6);
  }

  lemma {:induction false} Pow128Monotone(j: nat, k: nat)
    requires j <= k
    ensures Pow128(j) <= Pow128(k)
  {
    if j < k { Pow128Monotone(j, k - 1); }
  }

  /** The tree has at most seven levels exactly up to 2^61 bytes. */
  lemma HeightUpToLimit(size: nat)
    requires size > 0
    ensures Height(size) <= 6 <==> size <= MAX_WALK_SIZE
  {
    Pow128Values();
    Log128CeilIsLeast(DivideRoundup(size, 128 * 4096), 6);
  }

  /** The levels down to and including `level` take no more room than the data, plus one chunk per level. */
  lemma {:induction false} LevelEndBound(size: nat, level: nat)
    requires size > 0 && level <= Height(size)
    ensures LevelStart(size, level) + Nodes(size, level)
         <= HashesAtLevel(ChunkCount(size), level) + Height(size) - level
    decreases Height(size) - level
  {
    TopLevelIsSingle(size, level);
    if level < Height(size) { LevelEndBound(size, level + 1); }
  }

  lemma {:induction false} HashesShrink(n: nat, level: nat)
    ensures HashesAtLevel(n, level) <= n
  {
    if level > 0 { HashesShrink(n, level - 1); }
  }

  lemma LevelFits(size: nat, index: nat, level: nat)
    requires 0 < size <= MAX_WALK_SIZE && index < ChunkCount(size) && level <= Height(size) <= 6
    ensures LevelFitsU64(size, index, level, 4096 * LevelStart(size, level))
  {
    Pow128Values();
    Pow128Monotone(level, 6);
    AncestorIsQuotient(index, level);
    AncestorInRange(index, ChunkCount(size), level);
    HashesShrink(ChunkCount(size), level);
    LevelEndBound(size, level);
    NodesInOneDivision(size, level);
  }

  /** The walk's 64-bit arithmetic is exact for a file if and only if the file has at most 2^61 bytes. */
  lemma WalkFitsExactlyUpToLimit(size: nat, index: nat)
    requires 0 < size && index < ChunkCount(size)
    ensures WalkFitsU64(size, index) <==> size <= MAX_WALK_SIZE
  {
    HeightUpToLimit(size);
    if size <= MAX_WALK_SIZE {
      forall level: nat | level <= Height(size)
        ensures LevelFitsU64(size, index, level, 4096 * LevelStart(size, level))
      {
        LevelFits(size, index, level);
      }
    } else {
      Pow128Values();
      Pow128Monotone(7, Height(size));
      assert !LevelFitsU64(size, index, Height(size), 4096 * LevelStart(size, Height(size)));
    }
  }
}
