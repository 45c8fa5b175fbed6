/** Digests and the hash functions of the Merkle tree. SHA-256 (section 6.2 of FIPS 180-4)
    is a parameter of the model: every theorem holds for whatever functions a `Hasher` holds. */
module Hashing {

  const USIZE_MAX: nat := 0xffff_ffff_ffff_ffff
  const DIGEST_BOUND: nat := 0x1_0000_0000_0000_0000_0000_0000_0000_0000_0000_0000_0000_0000_0000_0000_0000_0000

  newtype Byte = b: int | 0 <= b < 256
  type Bytes = seq<Byte>

  /** A 32-byte array read as a big-endian number: numeric order is the arrays' own
      lexicographic order, and 0 is the all-zero array. */
  type Digest = d: nat | d < DIGEST_BOUND

  /** `leaf` is the double hash of a payload, `concat` the hash of two digests in the given order. */
  datatype Hasher = Hasher(leaf: Bytes -> Digest, concat: (Digest, Digest) -> Digest)

  /** The two digests in ascending order, as they are fed to the hash. */
  function Sorted(left: Digest, right: Digest): (Digest, Digest) {
    if left <= right then (left, right) else (right, left)
  }

  function HashPair(h: Hasher, left: Digest, right: Digest): Digest {
    var (low, high) := Sorted(left, right);
    h.concat(low, high)
  }

  function LeafHashes(h: Hasher, data: seq<Bytes>): (hashes: seq<Digest>)
    ensures |hashes| == |data|
    ensures forall i :: 0 <= i < |data| ==> hashes[i] == h.leaf(data[i])
  {
    seq(|data|, i requires 0 <= i < |data| => h.leaf(data[i]))
  }

  function Pow2(k: nat): (p: nat)
    ensures p > k
  {
    if k == 0 then 1 else Pow2(k - 1) + Pow2(k - 1)
  }

  /** Two different pairs with the same hash. */
  ghost predicate Collision(h: Hasher, p: (Digest, Digest), q: (Digest, Digest)) {
    p != q && h.concat(p.0, p.1) == h.concat(q.0, q.1)
  }

  /** No pair of `ps` collides with a pair of `qs`. A hypothesis about the finitely many pairs at
      hand, not an axiom about all 32-byte values. */
  ghost predicate NoCollision(h: Hasher, ps: set<(Digest, Digest)>, qs: set<(Digest, Digest)>) {
    forall p, q {:trigger Collision(h, p, q)} :: p in ps && q in qs ==> !Collision(h, p, q)
  }
}
