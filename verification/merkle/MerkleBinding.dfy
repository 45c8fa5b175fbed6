/** What an equal root says about the leaves, under collision freedom of the pairs involved. */
module MerkleBinding {
  import opened Hashing
  import opened MerkleLevels
  import opened MerkleProofs

  /** The pair hashed at the top of a node with these children. */
  function TopPair(h: Hasher, left: HashTree, right: HashTree): (Digest, Digest) {
    Sorted(DigestOf(h, left), DigestOf(h, right))
  }

  /** All pairs hashed inside a tree, each in the order it is hashed. */
  ghost function TreePairs(h: Hasher, t: HashTree): set<(Digest, Digest)> {
    match t
    case Leaf(_) => {}
    case Node(left, right) => {TopPair(h, left, right)} + TreePairs(h, left) + TreePairs(h, right)
  }

  /** All pairs hashed while checking a proof. */
  ghost function PathPairs(h: Hasher, start: Digest, path: seq<ProofNode>): set<(Digest, Digest)> {
    if path == [] then {}
    else
      var front := path[..|path| - 1];
      {StepPair(Climb(h, start, front), path[|path| - 1])} + PathPairs(h, start, front)
  }

  /** The tree `build` makes of a list of leaf hashes. */
  function BuiltTree(xs: seq<Digest>): HashTree
    requires xs != []
  {
    HeightIsCeilLog2(|xs|);
    TreeOf(Height(|xs|), xs)
  }

  // ---- Membership soundness -------------------------------------------------------------

  /** Some node `k` levels below the top of `t` has digest `x`. */
  ghost predicate HasBelow(h: Hasher, t: HashTree, k: nat, x: Digest) {
    if k == 0 then x == DigestOf(h, t)
    else t.Node? && (HasBelow(h, t.left, k - 1, x) || HasBelow(h, t.right, k - 1, x))
  }

  lemma {:induction false} ClimbStartsBelow(h: Hasher, t: HashTree, d: nat, start: Digest, path: seq<ProofNode>)
    requires Perfect(t, d) && |path| <= d
    requires NoCollision(h, TreePairs(h, t), PathPairs(h, start, path))
    requires Climb(h, start, path) == DigestOf(h, t)
    ensures HasBelow(h, t, |path|, start)
    decreases d
  {
    if path != [] {
      var front := path[..|path| - 1];
      assert !Collision(h, TopPair(h, t.left, t.right), StepPair(Climb(h, start, front), path[|path| - 1]));
      if Climb(h, start, front) == DigestOf(h, t.left) {
        ClimbStartsBelow(h, t.left, d - 1, start, front);
      } else {
        ClimbStartsBelow(h, t.right, d - 1, start, front);
      }
    }
  }

  lemma {:induction false} LeavesAreBelow(h: Hasher, d: nat, xs: seq<Digest>, x: Digest)
    requires 0 < |xs| <= Pow2(d)
    ensures HasBelow(h, TreeOf(d, xs), d, x) <==> x in xs
  {
    if d > 0 {
      var half := Pow2(d - 1);
      if |xs| <= half {
        LeavesAreBelow(h, d - 1, xs, x);
      } else {
        LeavesAreBelow(h, d - 1, xs[..half], x);
        LeavesAreBelow(h, d - 1, xs[half..], x);
        assert xs == xs[..half] + xs[half..];
      }
    }
  }

  lemma {:induction false} BelowOfHalves(h: Hasher, d: nat, xs: seq<Digest>, k: nat, x: Digest)
    requires Pow2(d) < |xs| <= Pow2(d + 1) && k > 0
    ensures HasBelow(h, TreeOf(d + 1, xs), k, x)
       <==> HasBelow(h, TreeOf(d, xs[..Pow2(d)]), k - 1, x) || HasBelow(h, TreeOf(d, xs[Pow2(d)..]), k - 1, x)
  {
  }

  lemma {:induction false} BelowOfNextHalves(h: Hasher, d: nat, xs: seq<Digest>, k: nat, x: Digest)
    requires d > 0 && Pow2(d) < |xs| <= Pow2(d + 1) && k > 0
    ensures HasBelow(h, TreeOf(d, NextLevel(h, xs)), k, x) <==>
      (|| HasBelow(h, TreeOf(d - 1, NextLevel(h, xs[..Pow2(d)])), k - 1, x)
       || HasBelow(h, TreeOf(d - 1, NextLevel(h, xs[Pow2(d)..])), k - 1, x))
  {
    NextLevelOfHalves(h, xs, Pow2(d - 1));
    BelowOfHalves(h, d - 1, NextLevel(h, xs), k, x);
  }

  lemma {:induction false} BelowOfTwins(h: Hasher, d: nat, xs: seq<Digest>, k: nat, x: Digest)
    requires 0 < |xs| <= Pow2(d) && k > 0
    ensures HasBelow(h, TreeOf(d + 1, xs), k, x) <==> HasBelow(h, TreeOf(d, xs), k - 1, x)
  {
  }

  /** Hashing one level of neighbours first keeps every digest above the leaves where it is. */
  lemma {:induction false} BelowNextLevel(h: Hasher, d: nat, xs: seq<Digest>, k: nat, x: Digest)
    requires 0 < |xs| <= Pow2(d + 1) && k <= d
    ensures HasBelow(h, TreeOf(d + 1, xs), k, x) <==> HasBelow(h, TreeOf(d, NextLevel(h, xs)), k, x)
    decreases d
  {
    if k == 0 {
      DigestOfNextLevel(h, d, xs);
    } else if |xs| <= Pow2(d) {
      BelowOfTwins(h, d, xs, k, x);
      BelowOfTwins(h, d - 1, NextLevel(h, xs), k, x);
      BelowNextLevel(h, d - 1, xs, k - 1, x);
    } else {
      BelowOfHalves(h, d, xs, k, x);
      BelowOfNextHalves(h, d, xs, k, x);
      BelowNextLevel(h, d - 1, xs[..Pow2(d)], k - 1, x);
      BelowNextLevel(h, d - 1, xs[Pow2(d)..], k - 1, x);
    }
  }

  lemma TowerFitsItsHeight(h: Hasher, nodes: seq<seq<Digest>>)
    requires IsTower(h, nodes)
    ensures 0 < |nodes[0]| <= Pow2(|nodes| - 1)
  {
    TowerHeight(h, nodes);
    HeightIsCeilLog2(|nodes[0]|);
  }

  lemma {:induction false} LevelsAreBelow(h: Hasher, nodes: seq<seq<Digest>>, d: nat, k: nat, x: Digest)
    requires IsTower(h, nodes) && |nodes| == d + 1 && k <= d
    requires 0 < |nodes[0]| <= Pow2(d)
    ensures HasBelow(h, TreeOf(d, nodes[0]), k, x) <==> x in nodes[d - k]
    decreases d
  {
    if k == d {
      LeavesAreBelow(h, d, nodes[0], x);
    } else {
      var above := nodes[1..];
      assert Follows(h, nodes, 0);
      assert above[0] == NextLevel(h, nodes[0]) && above[d - 1 - k] == nodes[d - k];
      TowerAbove(h, nodes);
      TowerFitsItsHeight(h, above);
      BelowNextLevel(h, d - 1, nodes[0], k, x);
      LevelsAreBelow(h, above, d - 1, k, x);
    }
  }

  /** The verifier does not look at the length of a proof, so an accepted one speaks about the level it
      starts on: with m steps, at most the tree's height, it starts at a digest stored m levels below
      the root, whatever its siblings and flags are. */
  lemma AcceptedProofStartsAtItsLevel(h: Hasher, nodes: seq<seq<Digest>>, p: MerkleProof)
    requires IsTower(h, nodes) && nodes[0] != [] && |p.proof| < |nodes|
    requires NoCollision(h, TreePairs(h, BuiltTree(nodes[0])), PathPairs(h, StartHash(h, p), p.proof))
    requires Accepted(h, p, Root(h, nodes[0]))
    ensures p.leafHash != 0 ==> p.leafHash in nodes[|nodes| - 1 - |p.proof|]
    ensures p.leafHash == 0 ==> h.leaf(p.leaf) in nodes[|nodes| - 1 - |p.proof|]
  {
    TowerHeight(h, nodes);
    RootIsDigestOfTree(h, nodes[0]);
    ClimbStartsBelow(h, BuiltTree(nodes[0]), |nodes| - 1, StartHash(h, p), p.proof);
    LevelsAreBelow(h, nodes, |nodes| - 1, |p.proof|, StartHash(h, p));
  }

  lemma {:induction false} TowerFrom(h: Hasher, nodes: seq<seq<Digest>>, k: nat)
    requires IsTower(h, nodes) && k < |nodes|
    ensures IsTower(h, nodes[k..])
    decreases k
  {
    if k > 0 {
      TowerAbove(h, nodes);
      TowerFrom(h, nodes[1..], k - 1);
      assert nodes[1..][k - 1..] == nodes[k..];
    }
  }

  /** The other direction: every digest of every level has an accepted proof, of just that length. */
  lemma EveryNodeIsProvable(h: Hasher, nodes: seq<seq<Digest>>, k: nat, i: nat, path: seq<ProofNode>)
    requires IsTower(h, nodes) && k < |nodes| && i < |nodes[k]| && IsAuthPath(nodes[k..], i, path)
    ensures |path| == |nodes| - 1 - k
    ensures [Climb(h, nodes[k][i], path)] == nodes[|nodes| - 1]
  {
    TowerFrom(h, nodes, k);
    EveryLeafIsProvable(h, nodes[k..], i, path);
    TowerHeight(h, nodes[k..]);
  }

  /** An accepted proof whose length is the tree's height starts at one of the tree's leaf hashes. */
  lemma AcceptedProofIsMembership(h: Hasher, xs: seq<Digest>, p: MerkleProof)
    requires xs != [] && |p.proof| == Height(|xs|)
    requires NoCollision(h, TreePairs(h, BuiltTree(xs)), PathPairs(h, StartHash(h, p), p.proof))
    requires Accepted(h, p, Root(h, xs))
    ensures p.leafHash != 0 ==> p.leafHash in xs
    ensures p.leafHash == 0 ==> h.leaf(p.leaf) in xs
  {
    RootIsDigestOfTree(h, xs);
    ClimbStartsBelow(h, BuiltTree(xs), Height(|xs|), StartHash(h, p), p.proof);
    LeavesAreBelow(h, Height(|xs|), xs, StartHash(h, p));
  }

  /** `x` is the hash of none of these pairs. */
  ghost predicate NoPairHash(h: Hasher, ps: set<(Digest, Digest)>, x: Digest) {
    forall p :: p in ps ==> h.concat(p.0, p.1) != x
  }

  lemma AClimbEndsWithAPairHash(h: Hasher, start: Digest, path: seq<ProofNode>)
    ensures NoPairHash(h, PathPairs(h, start, path), Climb(h, start, path)) ==> path == []
  {
    if path != [] {
      assert StepPair(Climb(h, start, path[..|path| - 1]), path[|path| - 1]) in PathPairs(h, start, path);
    }
  }

  lemma {:induction false} ClimbIsFromALeaf(
    h: Hasher, t: HashTree, d: nat, start: Digest, path: seq<ProofNode>, leaves: multiset<Digest>)
    requires Perfect(t, d) && LeafBag(t) <= leaves
    requires NoCollision(h, TreePairs(h, t), PathPairs(h, start, path))
    requires NoPairHash(h, TreePairs(h, t), start)
    requires forall x :: x in leaves ==> NoPairHash(h, PathPairs(h, start, path), x)
    requires Climb(h, start, path) == DigestOf(h, t)
    ensures |path| == d && start in LeafBag(t)
    decreases d
  {
    if d == 0 {
      assert t.digest in LeafBag(t) && t.digest in leaves;
      AClimbEndsWithAPairHash(h, start, path);
    } else {
      var top := TopPair(h, t.left, t.right);
      assert top in TreePairs(h, t);
      var front := path[..|path| - 1];
      assert !Collision(h, top, StepPair(Climb(h, start, front), path[|path| - 1]));
      assert PathPairs(h, start, front) <= PathPairs(h, start, path);
      forall x | x in leaves ensures NoPairHash(h, PathPairs(h, start, front), x) {
        assert NoPairHash(h, PathPairs(h, start, path), x);
      }
      if Climb(h, start, front) == DigestOf(h, t.left) {
        ClimbIsFromALeaf(h, t.left, d - 1, start, front, leaves);
      } else {
        ClimbIsFromALeaf(h, t.right, d - 1, start, front, leaves);
      }
    }
  }

  /** Where leaf hashes and pair hashes differ, an accepted proof of any length has the right length and
      starts at a leaf hash: the start must not be a pair hash of the tree, nor a leaf hash one of the path. */
  lemma AcceptedProofOfAnyLength(h: Hasher, xs: seq<Digest>, p: MerkleProof)
    requires xs != []
    requires NoCollision(h, TreePairs(h, BuiltTree(xs)), PathPairs(h, StartHash(h, p), p.proof))
    requires NoPairHash(h, TreePairs(h, BuiltTree(xs)), StartHash(h, p))
    requires forall x :: x in xs ==> NoPairHash(h, PathPairs(h, StartHash(h, p), p.proof), x)
    requires Accepted(h, p, Root(h, xs))
    ensures p.leafHash != 0 ==> p.leafHash in xs
    ensures p.leafHash == 0 ==> h.leaf(p.leaf) in xs
    ensures |p.proof| == Height(|xs|)
  {
    RootIsDigestOfTree(h, xs);
    forall x ensures x in LeafBag(BuiltTree(xs)) <==> x in xs {
      LeavesOfTree(Height(|xs|), xs, x);
    }
    ClimbIsFromALeaf(h, BuiltTree(xs), Height(|xs|), StartHash(h, p), p.proof, LeafBag(BuiltTree(xs)));
  }

  /** Two different starts never climb to the same digest over the same path. */
  lemma {:induction false} ClimbIsInjective(h: Hasher, a: Digest, b: Digest, path: seq<ProofNode>)
    requires NoCollision(h, PathPairs(h, a, path), PathPairs(h, b, path))
    requires a != b
    ensures Climb(h, a, path) != Climb(h, b, path)
    decreases |path|
  {
    if path != [] {
      var front, node := path[..|path| - 1], path[|path| - 1];
      ClimbIsInjective(h, a, b, front);
      assert !Collision(h, StepPair(Climb(h, a, front), node), StepPair(Climb(h, b, front), node));
    }
  }

  /** Replacing the non-zero leaf hash of an accepted proof by another one makes it rejected. */
  lemma TamperedLeafHashIsRejected(h: Hasher, p: MerkleProof, forged: Digest, root: Digest)
    requires p.leafHash != 0 && forged != 0 && forged != p.leafHash
    requires NoCollision(h, PathPairs(h, p.leafHash, p.proof), PathPairs(h, forged, p.proof))
    requires Accepted(h, p, root)
    ensures !Accepted(h, p.(leafHash := forged), root)
  {
    ClimbIsInjective(h, p.leafHash, forged, p.proof);
  }

  /** Replacing it by zeros has the payload hashed instead: the proof is still accepted if and only if
      the payload hashes to the leaf hash it had. */
  lemma ZeroedLeafHashChecksThePayload(h: Hasher, p: MerkleProof, root: Digest)
    requires p.leafHash != 0 && Accepted(h, p, root)
    requires NoCollision(h, PathPairs(h, p.leafHash, p.proof), PathPairs(h, h.leaf(p.leaf), p.proof))
    ensures Accepted(h, p.(leafHash := 0), root) <==> h.leaf(p.leaf) == p.leafHash
  {
    if h.leaf(p.leaf) != p.leafHash {
      ClimbIsInjective(h, p.leafHash, h.leaf(p.leaf), p.proof);
    }
  }

  /** Besides the path, only the leaf hash matters while it is not zero: neither the payload nor the
      index nor the proof's own root has a say. */
  lemma OnlyTheLeafHashCounts(h: Hasher, p: MerkleProof, q: MerkleProof, root: Digest)
    requires p.leafHash == q.leafHash != 0 && p.proof == q.proof
    ensures Accepted(h, p, root) <==> Accepted(h, q, root)
  {
  }

  /** Replacing one sibling hash of an accepted proof makes it rejected. */
  lemma {:induction false} TamperedSiblingIsRejected(
    h: Hasher, start: Digest, path: seq<ProofNode>, k: nat, forged: Digest, root: Digest)
    requires k < |path| && forged != path[k].hash
    requires NoCollision(h, PathPairs(h, start, path),
                            PathPairs(h, start, path[k := path[k].(hash := forged)]))
    requires Climb(h, start, path) == root
    ensures Climb(h, start, path[k := path[k].(hash := forged)]) != root
    decreases |path|
  {
    var d, path' := |path| - 1, path[k := path[k].(hash := forged)];
    if k == d {
      assert path'[..d] == path[..d];
    } else {
      assert path'[..d] == path[..d][k := path[k].(hash := forged)];
      TamperedSiblingIsRejected(h, start, path[..d], k, forged, Climb(h, start, path[..d]));
    }
    assert !Collision(h, StepPair(Climb(h, start, path[..d]), path[d]),
                         StepPair(Climb(h, start, path'[..d]), path'[d]));
  }

  // ---- Root binding ---------------------------------------------------------------------

  /** Equal up to exchanging the two children of some nodes. */
  ghost predicate Mirrored(t: HashTree, u: HashTree) {
    match (t, u)
    case (Leaf(a), Leaf(b)) => a == b
    case (Node(a, b), Node(c, d)) =>
      (Mirrored(a, c) && Mirrored(b, d)) || (Mirrored(a, d) && Mirrored(b, c))
    case _ => false
  }

  lemma {:induction false} MirroredTreesHaveEqualDigests(h: Hasher, t: HashTree, u: HashTree)
    requires Mirrored(t, u)
    ensures DigestOf(h, t) == DigestOf(h, u)
  {
    if t.Node? {
      if Mirrored(t.left, u.left) && Mirrored(t.right, u.right) {
        MirroredTreesHaveEqualDigests(h, t.left, u.left);
        MirroredTreesHaveEqualDigests(h, t.right, u.right);
      } else {
        MirroredTreesHaveEqualDigests(h, t.left, u.right);
        MirroredTreesHaveEqualDigests(h, t.right, u.left);
      }
    }
  }

  lemma {:induction false} MirroredTreesHaveEqualLeaves(t: HashTree, u: HashTree)
    requires Mirrored(t, u)
    ensures LeafBag(t) == LeafBag(u)
  {
    if t.Node? {
      if Mirrored(t.left, u.left) && Mirrored(t.right, u.right) {
        MirroredTreesHaveEqualLeaves(t.left, u.left);
        MirroredTreesHaveEqualLeaves(t.right, u.right);
      } else {
        MirroredTreesHaveEqualLeaves(t.left, u.right);
        MirroredTreesHaveEqualLeaves(t.right, u.left);
      }
    }
  }

  lemma {:induction false} EqualDigestsMakeMirroredTrees(h: Hasher, d: nat, t: HashTree, u: HashTree)
    requires Perfect(t, d) && Perfect(u, d)
    requires NoCollision(h, TreePairs(h, t), TreePairs(h, u))
    requires DigestOf(h, t) == DigestOf(h, u)
    ensures Mirrored(t, u)
    decreases d
  {
    if d > 0 {
      assert !Collision(h, TopPair(h, t.left, t.right), TopPair(h, u.left, u.right));
      if DigestOf(h, t.left) == DigestOf(h, u.left) {
        EqualDigestsMakeMirroredTrees(h, d - 1, t.left, u.left);
        EqualDigestsMakeMirroredTrees(h, d - 1, t.right, u.right);
      } else {
        EqualDigestsMakeMirroredTrees(h, d - 1, t.left, u.right);
        EqualDigestsMakeMirroredTrees(h, d - 1, t.right, u.left);
      }
    }
  }

  /** What a root commits to, exactly: for trees of equal height the roots are equal if and only if the
      trees differ by exchanged siblings only. Equal roots then mean equal sets of leaf hashes. */
  lemma RootBinding(h: Hasher, xs: seq<Digest>, ys: seq<Digest>)
    requires xs != [] && ys != [] && Height(|xs|) == Height(|ys|)
    requires NoCollision(h, TreePairs(h, BuiltTree(xs)), TreePairs(h, BuiltTree(ys)))
    ensures Root(h, xs) == Root(h, ys) <==> Mirrored(BuiltTree(xs), BuiltTree(ys))
    ensures Root(h, xs) == Root(h, ys) ==> forall x :: x in xs <==> x in ys
  {
    var t, u := BuiltTree(xs), BuiltTree(ys);
    RootIsDigestOfTree(h, xs);
    RootIsDigestOfTree(h, ys);
    if Root(h, xs) == Root(h, ys) {
      EqualDigestsMakeMirroredTrees(h, Height(|xs|), t, u);
    }
    if Mirrored(t, u) {
      MirroredTreesHaveEqualDigests(h, t, u);
      MirroredTreesHaveEqualLeaves(t, u);
      forall x ensures x in xs <==> x in ys {
        LeavesOfTree(Height(|xs|), xs, x);
        LeavesOfTree(Height(|ys|), ys, x);
      }
    }
  }

  /** With 2^d leaves on both sides no leaf is paired with itself, and the counts agree as well. */
  lemma RootBindsTheLeafBag(h: Hasher, d: nat, xs: seq<Digest>, ys: seq<Digest>)
    requires |xs| == |ys| == Pow2(d)
    requires NoCollision(h, TreePairs(h, BuiltTree(xs)), TreePairs(h, BuiltTree(ys)))
    requires Root(h, xs) == Root(h, ys)
    ensures multiset(xs) == multiset(ys)
  {
    HeightOfPow2(d);
    RootBinding(h, xs, ys);
    MirroredTreesHaveEqualLeaves(BuiltTree(xs), BuiltTree(ys));
    LeavesOfFullTree(d, xs);
    LeavesOfFullTree(d, ys);
  }

  lemma {:induction false} HeightOfPow2(d: nat)
    ensures Height(Pow2(d)) == d
  {
    if d > 0 {
      HeightOfPow2(d - 1);
    }
  }

  // ---- What the root does not bind ------------------------------------------------------

  lemma NextLevelOfBlocks(h: Hasher, a: seq<Digest>, b: seq<Digest>, c: seq<Digest>, d: seq<Digest>)
    requires |a| % 2 == 0 && |b| % 2 == 0 && |c| % 2 == 0
    ensures NextLevel(h, a + (b + (c + d)))
         == NextLevel(h, a) + (NextLevel(h, b) + (NextLevel(h, c) + NextLevel(h, d)))
  {
    NextLevelOfConcat(h, a, b + (c + d));
    NextLevelOfConcat(h, b, c + d);
    NextLevelOfConcat(h, c, d);
  }

  lemma NextLevelOfSwappedLeaves(h: Hasher, b: seq<Digest>, c: seq<Digest>, d: seq<Digest>)
    requires |b| == |c| == 1
    ensures NextLevel(h, b + (c + d)) == NextLevel(h, c + (b + d))
  {
    assert b + (c + d) == (b + c) + d && c + (b + d) == (c + b) + d;
    NextLevelOfConcat(h, b + c, d);
    NextLevelOfConcat(h, c + b, d);
    assert NextLevel(h, b + c) == NextLevel(h, c + b);
  }

  lemma TwiceAsManyBlocks(j: nat, k: nat)
    ensures j * Pow2(k + 1) == j * Pow2(k) + j * Pow2(k)
  {
    assert Pow2(k + 1) == Pow2(k) + Pow2(k);
  }

  lemma NextLevelSizes(h: Hasher, j: nat, k: nat, a: seq<Digest>, b: seq<Digest>)
    requires |a| == j * Pow2(k + 1) && |b| == Pow2(k)
    ensures |a| % 2 == 0 && |NextLevel(h, a)| == j * Pow2(k)
    ensures k > 0 ==> |b| % 2 == 0 && |NextLevel(h, b)| == Pow2(k - 1)
  {
    TwiceAsManyBlocks(j, k);
  }

  lemma RootOfNextLevel(h: Hasher, xs: seq<Digest>)
    requires |xs| > 1
    ensures Root(h, xs) == Root(h, NextLevel(h, xs))
  {
  }

  lemma {:induction false} SwappedNeighboursKeepTheRoot(
    h: Hasher, a: seq<Digest>, b: seq<Digest>, c: seq<Digest>, d: seq<Digest>)
    requires |a| % 2 == 0 && |b| == |c| == 1
    ensures Root(h, a + (b + (c + d))) == Root(h, a + (c + (b + d)))
  {
    NextLevelOfConcat(h, a, b + (c + d));
    NextLevelOfConcat(h, a, c + (b + d));
    NextLevelOfSwappedLeaves(h, b, c, d);
    RootOfNextLevel(h, a + (b + (c + d)));
    RootOfNextLevel(h, a + (c + (b + d)));
  }

  /** Exchanging two full sibling blocks of 2^k leaves (aligned: they start at a multiple of their
      joint size) keeps the root. */
  lemma {:induction false} SwappedBlocksKeepTheRoot(
    h: Hasher, j: nat, k: nat, a: seq<Digest>, b: seq<Digest>, c: seq<Digest>, d: seq<Digest>)
    requires |a| == j * Pow2(k + 1) && |b| == |c| == Pow2(k)
    ensures Root(h, a + (b + (c + d))) == Root(h, a + (c + (b + d)))
    decreases k
  {
    NextLevelSizes(h, j, k, a, b);
    NextLevelSizes(h, j, k, a, c);
    if k == 0 {
      SwappedNeighboursKeepTheRoot(h, a, b, c, d);
    } else {
      NextLevelOfBlocks(h, a, b, c, d);
      NextLevelOfBlocks(h, a, c, b, d);
      RootOfNextLevel(h, a + (b + (c + d)));
      RootOfNextLevel(h, a + (c + (b + d)));
      SwappedBlocksKeepTheRoot(h, j, k - 1,
        NextLevel(h, a), NextLevel(h, b), NextLevel(h, c), NextLevel(h, d));
    }
  }
}
