/** Inclusion proofs: what a verifier computes, and the path a tree hands out. */
module MerkleProofs {
  import opened Hashing
  import opened MerkleLevels

  datatype ProofNode = ProofNode(hash: Digest, isLeft: bool)

  datatype MerkleProof = MerkleProof(
    leafIndex: nat, leaf: Bytes, leafHash: Digest, root: Digest, proof: seq<ProofNode>)

  /** What `hash_concat` is called with at one proof step. */
  function StepPair(current: Digest, node: ProofNode): (Digest, Digest) {
    if node.isLeft then (current, node.hash) else (node.hash, current)
  }

  function Step(h: Hasher, current: Digest, node: ProofNode): Digest {
    var (left, right) := StepPair(current, node);
    h.concat(left, right)
  }

  /** The digest a proof path leads to from `start`. */
  function Climb(h: Hasher, start: Digest, path: seq<ProofNode>): Digest {
    if path == [] then start
    else Step(h, Climb(h, start, path[..|path| - 1]), path[|path| - 1])
  }

  /** An all-zero `leaf_hash` means "hash the payload". */
  function StartHash(h: Hasher, p: MerkleProof): Digest {
    if p.leafHash == 0 then h.leaf(p.leaf) else p.leafHash
  }

  /** The proof leads to `root`. */
  predicate Accepted(h: Hasher, p: MerkleProof, root: Digest) {
    Climb(h, StartHash(h, p), p.proof) == root
  }

  method Verify(h: Hasher, p: MerkleProof) returns (ok: bool)
    ensures ok <==> Accepted(h, p, p.root)
    ensures p.leafHash != 0 ==> (ok <==> Climb(h, p.leafHash, p.proof) == p.root)
    ensures p.leafHash == 0 ==> (ok <==> Climb(h, h.leaf(p.leaf), p.proof) == p.root)
  {
    ok := VerifyProof(h, p, p.root);
  }

  method VerifyProof(h: Hasher, p: MerkleProof, root: Digest) returns (ok: bool)
    ensures ok <==> Accepted(h, p, root)
    ensures p.leafHash != 0 ==> (ok <==> Climb(h, p.leafHash, p.proof) == root)
    ensures p.leafHash == 0 ==> (ok <==> Climb(h, h.leaf(p.leaf), p.proof) == root)
  {
    var current := if p.leafHash == 0 then h.leaf(p.leaf) else p.leafHash;
    for i := 0 to |p.proof|
      invariant current == Climb(h, StartHash(h, p), p.proof[..i])
    {
      var node := p.proof[i];
      current := if node.isLeft then h.concat(current, node.hash) else h.concat(node.hash, current);
      assert p.proof[..i + 1][..i] == p.proof[..i];
    }
    assert p.proof[..|p.proof|] == p.proof;
    ok := current == root;
  }

  /** The neighbour a node is hashed with; the last node of an odd level is its own. */
  function Sibling(level: seq<Digest>, i: nat): Digest
    requires i < |level|
  {
    if i % 2 == 1 then level[i - 1] else if i + 1 < |level| then level[i + 1] else level[i]
  }

  /** The index, `k` levels up, of the node above leaf `i`. */
  function Ancestor(i: nat, k: nat): nat {
    if k == 0 then i else Ancestor(i, k - 1) / 2
  }

  /** `path` lists the siblings met on the way from leaf `i` to the root of a tower. */
  ghost predicate IsAuthPath(nodes: seq<seq<Digest>>, i: nat, path: seq<ProofNode>) {
    && |path| == |nodes| - 1
    && forall k :: 0 <= k < |path| ==>
      && Ancestor(i, k) < |nodes[k]|
      && path[k].hash == Sibling(nodes[k], Ancestor(i, k))
      && path[k].isLeft == (nodes[k][Ancestor(i, k)] <= path[k].hash)
  }

  /** The loop of `generate_proof`. */
  method CollectPath(h: Hasher, nodes: seq<seq<Digest>>, leafIndex: nat) returns (path: seq<ProofNode>)
    requires IsTower(h, nodes) && leafIndex < |nodes[0]|
    ensures IsAuthPath(nodes, leafIndex, path)
  {
    var pathIndex: nat := leafIndex;
    path := [];
    for level := 0 to |nodes| - 1
      invariant pathIndex == Ancestor(leafIndex, level) < |nodes[level]|
      invariant IsAuthPath(nodes[..level + 1], leafIndex, path)
    {
      assert Follows(h, nodes, level);
      var levelNodes := nodes[level];
      var siblingIndex := if pathIndex % 2 == 0 then pathIndex + 1 else pathIndex - 1;
      var siblingHash := if siblingIndex < |levelNodes| then levelNodes[siblingIndex] else levelNodes[pathIndex];
      var isLeft := levelNodes[pathIndex] <= siblingHash;
      path := path + [ProofNode(siblingHash, isLeft)];
      pathIndex := pathIndex / 2;
    }
    assert nodes[..|nodes|] == nodes;
  }

  lemma StepToParent(h: Hasher, level: seq<Digest>, i: nat, node: ProofNode)
    requires i < |level| && node == ProofNode(Sibling(level, i), level[i] <= Sibling(level, i))
    ensures Step(h, level[i], node) == NextLevel(h, level)[i / 2]
  {
    assert Step(h, level[i], node) == HashPair(h, level[i], Sibling(level, i));
  }

  /** After k steps of its path, a leaf's climb has reached the node above it on level k. */
  lemma {:induction false} ClimbFollowsTheTower(
    h: Hasher, nodes: seq<seq<Digest>>, i: nat, path: seq<ProofNode>, k: nat)
    requires IsTower(h, nodes) && i < |nodes[0]| && IsAuthPath(nodes, i, path) && k < |nodes|
    ensures Ancestor(i, k) < |nodes[k]| && Climb(h, nodes[0][i], path[..k]) == nodes[k][Ancestor(i, k)]
    decreases k
  {
    if k > 0 {
      ClimbFollowsTheTower(h, nodes, i, path, k - 1);
      assert path[..k][..k - 1] == path[..k - 1];
      assert Follows(h, nodes, k - 1);
      StepToParent(h, nodes[k - 1], Ancestor(i, k - 1), path[k - 1]);
    }
  }

  /** Completeness: every leaf's path leads to the root, in exactly ceil(log2 n) steps. */
  lemma EveryLeafIsProvable(h: Hasher, nodes: seq<seq<Digest>>, i: nat, path: seq<ProofNode>)
    requires IsTower(h, nodes) && i < |nodes[0]| && IsAuthPath(nodes, i, path)
    ensures |path| == Height(|nodes[0]|)
    ensures Climb(h, nodes[0][i], path) == Root(h, nodes[0])
  {
    ClimbFollowsTheTower(h, nodes, i, path, |path|);
    TowerHeight(h, nodes);
    assert path[..|path|] == path;
  }
}
