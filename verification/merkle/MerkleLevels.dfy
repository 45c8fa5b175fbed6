/** The levels of a Merkle tree, bottom up as the code builds them and top down as a reference. */
module MerkleLevels {
  import opened Hashing

  /** Two digests are hashed in ascending order, whichever comes first. */
  lemma PairsAreHashedInOrder(h: Hasher, low: Digest, high: Digest)
    requires low <= high
    ensures HashPair(h, low, high) == HashPair(h, high, low) == h.concat(low, high)
  {
  }

  /** One level up: neighbours are paired, and an odd last node is paired with itself. */
  function NextLevel(h: Hasher, xs: seq<Digest>): (ys: seq<Digest>)
    ensures |ys| == (|xs| + 1) / 2
    ensures forall i :: 0 <= i < |ys| ==>
      ys[i] == HashPair(h, xs[2 * i], if 2 * i + 1 < |xs| then xs[2 * i + 1] else xs[2 * i])
  {
    seq((|xs| + 1) / 2, i requires 0 <= i < (|xs| + 1) / 2 =>
      HashPair(h, xs[2 * i], if 2 * i + 1 < |xs| then xs[2 * i + 1] else xs[2 * i]))
  }

  /** Level k + 1 is the one that level k is hashed to. */
  ghost predicate Follows(h: Hasher, levels: seq<seq<Digest>>, k: nat)
    requires k + 1 < |levels|
  {
    |levels[k]| > 1 && levels[k + 1] == NextLevel(h, levels[k])
  }

  /** All levels of a tree: each follows from the one below, and the first with one digest is the last. */
  ghost predicate IsTower(h: Hasher, levels: seq<seq<Digest>>) {
    && levels != [] && |levels[|levels| - 1]| == 1
    && forall k {:trigger Follows(h, levels, k)} :: 0 <= k < |levels| - 1 ==> Follows(h, levels, k)
  }

  /** The digest left when levels are taken until one remains. */
  function Root(h: Hasher, xs: seq<Digest>): Digest
    requires xs != []
    decreases |xs|
  {
    if |xs| == 1 then xs[0] else Root(h, NextLevel(h, xs))
  }

  /** The least k with n <= 2^k (see HeightIsCeilLog2). */
  function Height(n: nat): nat {
    if n <= 1 then 0 else 1 + Height((n + 1) / 2)
  }

  /** The inner loop of `build_levels`. */
  method PairUp(h: Hasher, currentLevel: seq<Digest>) returns (nextLevel: seq<Digest>)
    ensures nextLevel == NextLevel(h, currentLevel)
  {
    nextLevel := [];
    var i := 0;
    while i < |currentLevel|
      invariant 0 <= i <= |currentLevel| + 1 && i % 2 == 0
      invariant |nextLevel| == i / 2
      invariant forall j :: 0 <= j < |nextLevel| ==> nextLevel[j] == NextLevel(h, currentLevel)[j]
    {
      var left := currentLevel[i];
      var right := if i + 1 < |currentLevel| then currentLevel[i + 1] else left;
      nextLevel := nextLevel + [HashPair(h, left, right)];
      i := i + 2;
    }
  }

  /** The outer loop of `build_levels`: on every non-empty input it ends, with the tower over it. */
  method BuildLevels(h: Hasher, leafHashes: seq<Digest>) returns (levels: seq<seq<Digest>>)
    requires leafHashes != []
    ensures IsTower(h, levels) && levels[0] == leafHashes
  {
    levels := [];
    var currentLevel := leafHashes;
    while true
      invariant currentLevel != []
      invariant levels == [] ==> currentLevel == leafHashes
      invariant levels != [] ==> levels[0] == leafHashes
      invariant levels != [] ==> |levels[|levels| - 1]| > 1
      invariant levels != [] ==> currentLevel == NextLevel(h, levels[|levels| - 1])
      invariant forall k {:trigger Follows(h, levels, k)} :: 0 <= k < |levels| - 1 ==> Follows(h, levels, k)
      decreases |currentLevel|
    {
      assert forall k {:trigger Follows(h, levels + [currentLevel], k)} ::
        0 <= k < |levels| - 1 && Follows(h, levels, k) ==> Follows(h, levels + [currentLevel], k);
      levels := levels + [currentLevel];
      if |currentLevel| == 1 {
        break;
      }
      currentLevel := PairUp(h, currentLevel);
    }
  }

  // ---- Shape ----------------------------------------------------------------------------

  lemma {:induction false} HeightIsCeilLog2(n: nat)
    requires n > 0
    ensures n <= Pow2(Height(n))
    ensures n > 1 ==> Height(n) > 0 && Pow2(Height(n) - 1) < n
  {
    if n > 1 {
      HeightIsCeilLog2((n + 1) / 2);
    }
  }

  lemma {:induction false} HeightBound(n: nat, k: nat)
    requires n <= Pow2(k)
    ensures Height(n) <= k
  {
    if n > 1 {
      HeightBound((n + 1) / 2, k - 1);
    }
  }

  lemma TowerAbove(h: Hasher, levels: seq<seq<Digest>>)
    requires IsTower(h, levels) && |levels| > 1
    ensures IsTower(h, levels[1..])
  {
    forall k | 0 <= k < |levels[1..]| - 1
      ensures Follows(h, levels[1..], k)
    {
      assert Follows(h, levels, k + 1);
    }
  }

  /** A tower over n digests has Height(n) + 1 levels and ends with their root. */
  lemma {:induction false} TowerHeight(h: Hasher, levels: seq<seq<Digest>>)
    requires IsTower(h, levels)
    ensures levels[0] != [] && |levels| == Height(|levels[0]|) + 1
    ensures levels[|levels| - 1] == [Root(h, levels[0])]
    decreases |levels|
  {
    if |levels| > 1 {
      assert Follows(h, levels, 0);
      TowerAbove(h, levels);
      TowerHeight(h, levels[1..]);
    }
  }

  /** There is only one tower over given digests. */
  lemma {:induction false} TowerIsUnique(h: Hasher, levels: seq<seq<Digest>>, others: seq<seq<Digest>>)
    requires IsTower(h, levels) && IsTower(h, others) && levels[0] == others[0]
    ensures levels == others
    decreases |levels|
  {
    if |others| > 1 {
      assert Follows(h, others, 0);
    }
    if |levels| > 1 {
      assert Follows(h, levels, 0);
      TowerAbove(h, levels);
      TowerAbove(h, others);
      TowerIsUnique(h, levels[1..], others[1..]);
      assert levels == [levels[0]] + levels[1..] && others == [others[0]] + others[1..];
    }
  }

  /** size == ceil(n / p) */
  ghost predicate IsCeilQuotient(size: int, n: int, p: int) {
    (size - 1) * p < n <= size * p
  }

  lemma HalfOfCeilQuotient(size: int, n: int, p: int)
    requires IsCeilQuotient(size, n, p) && p > 0
    ensures IsCeilQuotient((size + 1) / 2, n, p + p)
  {
    var half := (size + 1) / 2;
    assert half * (p + p) == (half + half) * p && (half - 1) * (p + p) == (half + half - 2) * p;
    if half + half == size + 1 {
      assert (half + half) * p == size * p + p && (half + half - 2) * p == (size - 1) * p;
    } else {
      assert half + half == size && (half + half - 2) * p == (size - 1) * p - p;
    }
  }

  /** Level k holds ceil(n / 2^k) digests. */
  lemma {:induction false} LevelSize(h: Hasher, levels: seq<seq<Digest>>, k: nat)
    requires IsTower(h, levels) && k < |levels|
    ensures IsCeilQuotient(|levels[k]|, |levels[0]|, Pow2(k))
    decreases k
  {
    if k > 0 {
      LevelSize(h, levels, k - 1);
      assert Follows(h, levels, k - 1);
      HalfOfCeilQuotient(|levels[k - 1]|, |levels[0]|, Pow2(k - 1));
    }
  }

  // ---- The tree the levels stand for ----------------------------------------------------

  datatype HashTree = Leaf(digest: Digest) | Node(left: HashTree, right: HashTree)

  function DigestOf(h: Hasher, t: HashTree): Digest {
    match t
    case Leaf(digest) => digest
    case Node(left, right) => HashPair(h, DigestOf(h, left), DigestOf(h, right))
  }

  /** All leaves lie `d` levels below the top. */
  ghost predicate Perfect(t: HashTree, d: nat) {
    match t
    case Leaf(_) => d == 0
    case Node(left, right) => d > 0 && Perfect(left, d - 1) && Perfect(right, d - 1)
  }

  /** The tree of height `d` over `xs`, top down: 2^(d-1) leaves go left and the others right; with no
      more than that many, the left child is its own neighbour. */
  function TreeOf(d: nat, xs: seq<Digest>): (t: HashTree)
    requires 0 < |xs| <= Pow2(d)
    ensures Perfect(t, d)
  {
    if d == 0 then Leaf(xs[0])
    else
      var half := Pow2(d - 1);
      if |xs| <= half then Node(TreeOf(d - 1, xs), TreeOf(d - 1, xs))
      else Node(TreeOf(d - 1, xs[..half]), TreeOf(d - 1, xs[half..]))
  }

  lemma NextLevelOfConcat(h: Hasher, a: seq<Digest>, b: seq<Digest>)
    requires |a| % 2 == 0
    ensures NextLevel(h, a + b) == NextLevel(h, a) + NextLevel(h, b)
  {
    var whole, left, right := NextLevel(h, a + b), NextLevel(h, a), NextLevel(h, b);
    assert |whole| == |left| + |right|;
    forall i | 0 <= i < |left| ensures whole[i] == left[i] {
      assert (a + b)[2 * i] == a[2 * i] && (a + b)[2 * i + 1] == a[2 * i + 1];
    }
    forall j | 0 <= j < |right| ensures whole[|left| + j] == right[j] {
      assert 2 * (|left| + j) == |a| + 2 * j && (a + b)[|a| + 2 * j] == b[2 * j];
    }
  }

  lemma NextLevelOfHalves(h: Hasher, xs: seq<Digest>, k: nat)
    requires k + k <= |xs|
    ensures NextLevel(h, xs)[..k] == NextLevel(h, xs[..k + k])
    ensures NextLevel(h, xs)[k..] == NextLevel(h, xs[k + k..])
  {
    assert xs == xs[..k + k] + xs[k + k..];
    NextLevelOfConcat(h, xs[..k + k], xs[k + k..]);
  }

  /** Hashing one level of neighbours first does not change the digest of the tree. */
  lemma {:induction false} DigestOfNextLevel(h: Hasher, d: nat, xs: seq<Digest>)
    requires 0 < |xs| <= Pow2(d + 1)
    ensures DigestOf(h, TreeOf(d + 1, xs)) == DigestOf(h, TreeOf(d, NextLevel(h, xs)))
  {
    if d == 0 {
      assert TreeOf(1, xs) == Node(Leaf(xs[0]), Leaf(xs[|xs| - 1]));
    } else {
      var half := Pow2(d);
      if |xs| <= half {
        DigestOfNextLevel(h, d - 1, xs);
      } else {
        DigestOfNextLevel(h, d - 1, xs[..half]);
        DigestOfNextLevel(h, d - 1, xs[half..]);
        NextLevelOfHalves(h, xs, Pow2(d - 1));
      }
    }
  }

  /** The root the level-by-level loop ends with is the digest of the recursively defined tree. */
  lemma {:induction false} RootIsDigestOfTree(h: Hasher, xs: seq<Digest>)
    requires xs != []
    ensures |xs| <= Pow2(Height(|xs|))
    ensures Root(h, xs) == DigestOf(h, TreeOf(Height(|xs|), xs))
    decreases |xs|
  {
    HeightIsCeilLog2(|xs|);
    if |xs| > 1 {
      RootIsDigestOfTree(h, NextLevel(h, xs));
      DigestOfNextLevel(h, Height(|xs|) - 1, xs);
    }
  }

  // ---- Leaves ---------------------------------------------------------------------------

  ghost function LeafBag(t: HashTree): multiset<Digest> {
    match t
    case Leaf(digest) => multiset{digest}
    case Node(left, right) => LeafBag(left) + LeafBag(right)
  }

  lemma {:induction false} LeavesOfTree(d: nat, xs: seq<Digest>, x: Digest)
    requires 0 < |xs| <= Pow2(d)
    ensures x in LeafBag(TreeOf(d, xs)) <==> x in xs
  {
    if d > 0 {
      var half := Pow2(d - 1);
      if |xs| <= half {
        LeavesOfTree(d - 1, xs, x);
      } else {
        LeavesOfTree(d - 1, xs[..half], x);
        LeavesOfTree(d - 1, xs[half..], x);
        assert xs == xs[..half] + xs[half..];
      }
    }
  }

  lemma {:induction false} LeavesOfFullTree(d: nat, xs: seq<Digest>)
    requires |xs| == Pow2(d)
    ensures LeafBag(TreeOf(d, xs)) == multiset(xs)
  {
    if d == 0 {
      assert xs == [xs[0]];
    } else {
      var half := Pow2(d - 1);
      LeavesOfFullTree(d - 1, xs[..half]);
      LeavesOfFullTree(d - 1, xs[half..]);
      assert xs == xs[..half] + xs[half..];
    }
  }
}
