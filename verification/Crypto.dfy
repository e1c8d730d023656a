/**
 Hashing, and the two byte layouts that wrap a root hash.

 The hash is an arbitrary function from byte strings to 32 bytes: nothing is assumed about it,
 not even that it is hard to find collisions. Results that depend on the hash say "or these two
 particular blocks collide" instead. An unconstrained "or some collision exists" would be true of
 every hash function and say nothing.
 */
module Crypto {
  import opened Common

  type Digest = s: seq<byte> | |s| == 32 witness seq(32, _ => 0)

  type HashFn = seq<byte> -> Digest

  /** Two different byte strings with one hash. */
  predicate Collide(H: HashFn, a: seq<byte>, b: seq<byte>) { a != b && H(a) == H(b) }

  /** `n` little-endian bytes of `v`. */
  function LeBytes(v: nat, n: nat): (s: seq<byte>)
    ensures |s| == n
  {
    if n == 0 then [] else [(v % 256) as byte] + LeBytes(v / 256, n - 1)
  }

  /** Byte `k` is the digit of weight `256^k`: the least significant one comes first. */
  lemma {:induction false} LeByteAt(v: nat, n: nat, k: nat)
    requires k < n
    ensures Pow256(k) > 0 && LeBytes(v, n)[k] as int == v / Pow256(k) % 256
  {
    if k > 0 {
      LeByteAt(v / 256, n - 1, k - 1);
      QuotientOfQuotient(v, Pow256(k - 1));
    }
  }

  lemma QuotientOfQuotient(v: nat, b: nat)
    requires b > 0
    ensures v / 256 / b == v / (256 * b)
  {
    DivisionBounds(v, 256);
    DivisionBounds(v / 256, b);
    var q := v / 256 / b;
    assert q * (256 * b) == q * b * 256 && (q + 1) * (256 * b) == (q + 1) * b * 256;
    DivisionUnique(v, 256 * b, q);
  }

  function LeValue(s: seq<byte>): nat
  {
    if s == [] then 0 else s[0] as nat + 256 * LeValue(s[1..])
  }

  function Pow256(n: nat): nat { if n == 0 then 1 else 256 * Pow256(n - 1) }

  lemma {:induction false} LeRoundTrip(v: nat, n: nat)
    requires v < Pow256(n)
    ensures LeValue(LeBytes(v, n)) == v
  {
    if n > 0 { LeRoundTrip(v / 256, n - 1); }
  }

  lemma U64FitsEightBytes()
    ensures Pow256(8) == U64_MAX + 1
  {
    assert Pow256(4) == 0x1_0000_0000;
    assert Pow256(6) == 256 * 256 * Pow256(4);
    assert Pow256(8) == 256 * 256 * Pow256(6);
  }

  /** The 256-byte `fsverity_descriptor`: version, algorithm, log block size, size, root hash, rest zero. */
  function Descriptor(root: Digest, fileSize: nat): (s: seq<byte>)
    ensures |s| == 256 && s[..4] == [1, 1, 12, 0] && s[4..8] == Zeros(4)
    ensures s[8..16] == LeBytes(fileSize, 8) && s[16..48] == root && s[48..] == Zeros(208)
  {
    [1] + [1] + [12] + [0] + LeBytes(0, 4) + LeBytes(fileSize, 8) + root
    + Zeros(32) + Zeros(32) + Zeros(32) + Zeros(32) + Zeros(32) + Zeros(32) + Zeros(16)
  }

  function FsverityDigest(H: HashFn, root: Digest, fileSize: nat): Digest { H(Descriptor(root, fileSize)) }

  /** `fsverity_formatted_digest`: "FSVerity", algorithm, digest size, digest. This is what gets signed. */
  function FormattedDigest(H: HashFn, root: Digest, fileSize: nat): (s: seq<byte>)
    ensures |s| == 12 + 32 && s[..8] == [70, 83, 86, 101, 114, 105, 116, 121] && s[8..12] == [1, 0, 32, 0]
    ensures s[12..] == FsverityDigest(H, root, fileSize)
  {
    [70, 83, 86, 101, 114, 105, 116, 121] + LeBytes(1, 2) + LeBytes(32, 2) + FsverityDigest(H, root, fileSize)
  }

  /** The descriptor determines the root hash and every 64-bit file size. */
  lemma DescriptorInjective(r1: Digest, s1: nat, r2: Digest, s2: nat)
    requires s1 <= U64_MAX && s2 <= U64_MAX
    requires Descriptor(r1, s1) == Descriptor(r2, s2)
    ensures r1 == r2 && s1 == s2
  {
    U64FitsEightBytes();
    LeRoundTrip(s1, 8);
    LeRoundTrip(s2, 8);
  }

  /** Equal digests, or equal signed data, come from one root and one size, or else the two descriptors collide. */
  lemma DigestBindsRoot(H: HashFn, r1: Digest, s1: nat, r2: Digest, s2: nat)
    requires s1 <= U64_MAX && s2 <= U64_MAX
    requires FsverityDigest(H, r1, s1) == FsverityDigest(H, r2, s2)
          || FormattedDigest(H, r1, s1) == FormattedDigest(H, r2, s2)
    ensures (r1 == r2 && s1 == s2) || Collide(H, Descriptor(r1, s1), Descriptor(r2, s2))
  {
    if Descriptor(r1, s1) == Descriptor(r2, s2) { DescriptorInjective(r1, s1, r2, s2); }
  }
}
