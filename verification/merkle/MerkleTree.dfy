/** The mutable tree: build, append, update, prove. The whole state is a function of the leaves. */
module MerkleTrees {
  import opened Hashing
  import opened MerkleLevels
  import opened MerkleProofs

  datatype TreeError = NoLeaves | OverCapacity | NotBuilt | OutOfBounds
  datatype Outcome = Ok | Err(error: TreeError)
  datatype ProofOutcome = Proved(proof: MerkleProof) | NoProof(error: TreeError)

  datatype Update = Update(index: nat, leaf: Bytes)

  /** `max_leaves`: 2^levels, or the largest machine word from 64 levels on. */
  function Capacity(levels: nat): nat {
    if levels >= 64 then USIZE_MAX else Pow2(levels)
  }

  function SaturatingAdd(a: nat, b: nat): nat {
    if a + b <= USIZE_MAX then a + b else USIZE_MAX
  }

  // ---- The reference: what each call does to the list of leaves --------------------------

  datatype Call =
    | Build(leaves: seq<Bytes>)
    | Append(leaves: seq<Bytes>)
    | UpdateOne(update: Update)
    | UpdateMany(updates: seq<Update>)

  /** Updates applied first to last. */
  function Updated(data: seq<Bytes>, updates: seq<Update>): (data': seq<Bytes>)
    requires forall u :: u in updates ==> u.index < |data|
    ensures |data'| == |data|
  {
    if updates == [] then data
    else
      var front, last := updates[..|updates| - 1], updates[|updates| - 1];
      Updated(data, front)[last.index := last.leaf]
  }

  /** The outcome of a call on a tree over `data` (no leaves: never built). */
  function OutcomeOf(levels: nat, data: seq<Bytes>, call: Call): Outcome {
    match call
    case Build(leaves) =>
      if leaves == [] then Err(NoLeaves)
      else if |leaves| > Capacity(levels) then Err(OverCapacity)
      else Ok
    case Append(leaves) =>
      if leaves == [] then Ok
      else if data == [] then Err(NotBuilt)
      else if |data| + |leaves| > Capacity(levels) then Err(OverCapacity)
      else Ok
    case UpdateOne(u) =>
      if data == [] then Err(NotBuilt) else if u.index >= |data| then Err(OutOfBounds) else Ok
    case UpdateMany(updates) =>
      if updates == [] then Ok
      else if data == [] then Err(NotBuilt)
      else if exists u :: u in updates && u.index >= |data| then Err(OutOfBounds)
      else Ok
  }

  /** The leaves afterwards: a failed call leaves them alone. */
  function LeavesAfter(levels: nat, data: seq<Bytes>, call: Call): seq<Bytes> {
    if OutcomeOf(levels, data, call) != Ok then data
    else
      match call
      case Build(leaves) => leaves
      case Append(leaves) => data + leaves
      case UpdateOne(u) => data[u.index := u.leaf]
      case UpdateMany(updates) => Updated(data, updates)
  }

  /** From 64 levels on, where nothing is refused, the joint length must still be a machine word. */
  predicate Fits(levels: nat, data: seq<Bytes>, call: Call) {
    call.Append? && levels >= 64 ==> |data| + |call.leaves| <= USIZE_MAX
  }

  /** The leaves after a run of calls on a new tree. */
  function LeavesAfterRun(levels: nat, calls: seq<Call>): seq<Bytes> {
    if calls == [] then []
    else LeavesAfter(levels, LeavesAfterRun(levels, calls[..|calls| - 1]), calls[|calls| - 1])
  }

  // ---- The class ------------------------------------------------------------------------

  class MerkleTree {
    const h: Hasher
    const levels: nat
    var root: Digest
    var leafCount: nat
    var dataLeaves: seq<Bytes>
    var nodes: seq<seq<Digest>>
    var leafHashes: seq<Digest>

    /** Every field is what a fresh `build` of `dataLeaves` would store (towers are unique). */
    ghost predicate Valid()
      reads this
    {
      && leafCount == |dataLeaves|
      && leafHashes == LeafHashes(h, dataLeaves)
      && leafCount <= Capacity(levels)
      && if dataLeaves == [] then nodes == [] && root == 0
         else IsTower(h, nodes) && nodes[0] == leafHashes && [root] == nodes[|nodes| - 1]
    }

    constructor (h: Hasher, levels: nat)
      ensures Valid() && dataLeaves == [] && this.h == h && this.levels == levels
    {
      this.h, this.levels := h, levels;
      root, leafCount, dataLeaves, nodes, leafHashes := 0, 0, [], [], [];
    }

    /** Builds the levels over `leafHashes` and takes the root from the last one. */
    method Rebuild()
      requires leafHashes != []
      modifies this`nodes, this`root
      ensures IsTower(h, nodes) && nodes[0] == leafHashes && [root] == nodes[|nodes| - 1]
    {
      nodes := BuildLevels(h, leafHashes);
      root := nodes[|nodes| - 1][0];
    }

    method Build(leaves: seq<Bytes>) returns (r: Outcome)
      requires Valid()
      modifies this
      ensures Valid()
      ensures r == OutcomeOf(levels, old(dataLeaves), Call.Build(leaves))
      ensures dataLeaves == LeavesAfter(levels, old(dataLeaves), Call.Build(leaves))
    {
      if leaves == [] {
        return Err(NoLeaves);
      }
      var maxLeaves := if levels >= 64 then USIZE_MAX else Pow2(levels);
      if |leaves| > maxLeaves {
        return Err(OverCapacity);
      }
      leafHashes := LeafHashes(h, leaves);
      Rebuild();
      dataLeaves := leaves;
      leafCount := |dataLeaves|;
      return Ok;
    }

    method AppendLeaves(newLeaves: seq<Bytes>) returns (r: Outcome)
      requires Valid() && Fits(levels, dataLeaves, Append(newLeaves))
      modifies this
      ensures Valid()
      ensures r == OutcomeOf(levels, old(dataLeaves), Append(newLeaves))
      ensures dataLeaves == LeavesAfter(levels, old(dataLeaves), Append(newLeaves))
    {
      if newLeaves == [] {
        assert dataLeaves + newLeaves == dataLeaves;
        return Ok;
      }
      if nodes == [] {
        return Err(NotBuilt);
      }
      var maxLeaves := if levels >= 64 then USIZE_MAX else Pow2(levels);
      CapacityIsAWord(levels);
      if SaturatingAdd(leafCount, |newLeaves|) > maxLeaves {
        return Err(OverCapacity);
      }
      var newLeafHashes := LeafHashes(h, newLeaves);
      leafHashes := leafHashes + newLeafHashes;
      dataLeaves := dataLeaves + newLeaves;
      leafCount := |dataLeaves|;
      Rebuild();
      return Ok;
    }

    method UpdateLeaf(leafIndex: nat, newLeafData: Bytes) returns (r: Outcome)
      requires Valid()
      modifies this
      ensures Valid()
      ensures r == OutcomeOf(levels, old(dataLeaves), UpdateOne(Update(leafIndex, newLeafData)))
      ensures dataLeaves == LeavesAfter(levels, old(dataLeaves), UpdateOne(Update(leafIndex, newLeafData)))
    {
      if nodes == [] {
        return Err(NotBuilt);
      }
      if leafIndex >= leafCount {
        return Err(OutOfBounds);
      }
      var newLeafHash := h.leaf(newLeafData);
      if leafHashes[leafIndex] == newLeafHash {
        dataLeaves := dataLeaves[leafIndex := newLeafData];
        assert leafHashes == LeafHashes(h, dataLeaves);
        return Ok;
      }
      leafHashes := leafHashes[leafIndex := newLeafHash];
      dataLeaves := dataLeaves[leafIndex := newLeafData];
      assert leafHashes == LeafHashes(h, dataLeaves);
      Rebuild();
      return Ok;
    }

    method UpdateLeaves(updates: seq<Update>) returns (r: Outcome)
      requires Valid()
      modifies this
      ensures Valid()
      ensures r == OutcomeOf(levels, old(dataLeaves), UpdateMany(updates))
      ensures dataLeaves == LeavesAfter(levels, old(dataLeaves), UpdateMany(updates))
    {
      if updates == [] {
        return Ok;
      }
      if nodes == [] {
        return Err(NotBuilt);
      }
      for k := 0 to |updates|
        invariant forall j :: 0 <= j < k ==> updates[j].index < leafCount
      {
        if updates[k].index >= leafCount {
          assert updates[k] in updates;
          return Err(OutOfBounds);
        }
      }
      var hasChanges := AnyHashChanges(updates);
      if !hasChanges {
        dataLeaves := ApplyData(updates);
        return Ok;
      }
      for k := 0 to |updates|
        invariant dataLeaves == Updated(old(dataLeaves), updates[..k])
        invariant leafHashes == LeafHashes(h, dataLeaves)
        invariant leafCount == old(leafCount)
      {
        var u := updates[k];
        assert updates[..k + 1][..k] == updates[..k];
        leafHashes := leafHashes[u.index := h.leaf(u.leaf)];
        dataLeaves := dataLeaves[u.index := u.leaf];
        assert leafHashes == LeafHashes(h, dataLeaves);
      }
      assert updates[..|updates|] == updates;
      Rebuild();
      return Ok;
    }

    method Perform(call: Call) returns (r: Outcome)
      requires Valid() && Fits(levels, dataLeaves, call)
      modifies this
      ensures Valid()
      ensures r == OutcomeOf(levels, old(dataLeaves), call)
      ensures dataLeaves == LeavesAfter(levels, old(dataLeaves), call)
    {
      match call {
        case Build(leaves) => r := Build(leaves);
        case Append(leaves) => r := AppendLeaves(leaves);
        case UpdateOne(u) => r := UpdateLeaf(u.index, u.leaf);
        case UpdateMany(updates) => r := UpdateLeaves(updates);
      }
    }

    /** The loop of `update_leaves` that looks for an update with a new hash. */
    method AnyHashChanges(updates: seq<Update>) returns (found: bool)
      requires Valid() && forall j :: 0 <= j < |updates| ==> updates[j].index < leafCount
      ensures found <==> exists j :: 0 <= j < |updates| && leafHashes[updates[j].index] != h.leaf(updates[j].leaf)
    {
      for k := 0 to |updates|
        invariant forall j :: 0 <= j < k ==> leafHashes[updates[j].index] == h.leaf(updates[j].leaf)
      {
        if leafHashes[updates[k].index] != h.leaf(updates[k].leaf) {
          return true;
        }
      }
      return false;
    }

    /** The loop of `update_leaves` for updates that change no hash: only the payloads are stored. */
    method ApplyData(updates: seq<Update>) returns (data: seq<Bytes>)
      requires Valid() && forall j :: 0 <= j < |updates| ==> updates[j].index < leafCount
      requires forall j :: 0 <= j < |updates| ==> leafHashes[updates[j].index] == h.leaf(updates[j].leaf)
      ensures data == Updated(dataLeaves, updates)
      ensures LeafHashes(h, data) == leafHashes
    {
      data := dataLeaves;
      for k := 0 to |updates|
        invariant data == Updated(dataLeaves, updates[..k])
        invariant LeafHashes(h, data) == leafHashes
      {
        assert updates[..k + 1][..k] == updates[..k];
        data := data[updates[k].index := updates[k].leaf];
        assert LeafHashes(h, data) == leafHashes;
      }
      assert updates[..|updates|] == updates;
    }

    /** Every proof handed out is accepted, even when the leaf hash is all zeros and the payload is
        hashed instead, and has ceil(log2 n) <= levels steps. */
    method GenerateProof(leafIndex: nat) returns (r: ProofOutcome)
      requires Valid()
      ensures dataLeaves == [] ==> r == NoProof(NotBuilt)
      ensures dataLeaves != [] && leafIndex >= |dataLeaves| ==> r == NoProof(OutOfBounds)
      ensures leafIndex < |dataLeaves| ==> r.Proved? && r.proof.leafIndex == leafIndex
      ensures leafIndex < |dataLeaves| ==> r.proof.leaf == dataLeaves[leafIndex]
      ensures leafIndex < |dataLeaves| ==> r.proof.leafHash == h.leaf(dataLeaves[leafIndex])
      ensures leafIndex < |dataLeaves| ==> IsAuthPath(nodes, leafIndex, r.proof.proof)
      ensures leafIndex < |dataLeaves| ==> |r.proof.proof| == Height(|dataLeaves|) <= levels
      ensures leafIndex < |dataLeaves| ==>
        r.proof.root == root && Accepted(h, r.proof, root)
    {
      if nodes == [] {
        return NoProof(NotBuilt);
      }
      if leafIndex >= leafCount {
        return NoProof(OutOfBounds);
      }
      var proof := CollectPath(h, nodes, leafIndex);
      EveryLeafIsProvable(h, nodes, leafIndex, proof);
      TowerHeight(h, nodes);
      CapacityBoundsHeight(levels, leafCount);
      return Proved(MerkleProof(leafIndex, dataLeaves[leafIndex], nodes[0][leafIndex], root, proof));
    }
  }

  lemma Pow2Of64()
    ensures Pow2(64) == USIZE_MAX + 1
  {
    assert Pow2(8) == 256;
    assert Pow2(16) == 256 * Pow2(8);
    assert Pow2(24) == 256 * Pow2(16);
    assert Pow2(32) == 256 * Pow2(24);
    assert Pow2(40) == 256 * Pow2(32);
    assert Pow2(48) == 256 * Pow2(40);
    assert Pow2(56) == 256 * Pow2(48);
    assert Pow2(64) == 256 * Pow2(56);
  }

  lemma {:induction false} Pow2IsMonotone(j: nat, k: nat)
    requires j <= k
    ensures Pow2(j) <= Pow2(k)
  {
    if j < k {
      Pow2IsMonotone(j, k - 1);
    }
  }

  lemma CapacityIsAWord(levels: nat)
    ensures levels < 64 ==> Capacity(levels) < USIZE_MAX
    ensures Capacity(levels) <= USIZE_MAX
  {
    if levels < 64 {
      Pow2Of64();
      Pow2IsMonotone(levels, 63);
    }
  }

  lemma CapacityBoundsHeight(levels: nat, n: nat)
    requires n <= Capacity(levels)
    ensures Height(n) <= levels
  {
    if levels < 64 {
      HeightBound(n, levels);
    } else {
      Pow2Of64();
      HeightBound(n, 64);
    }
  }

  /** The capacity check: n leaves fit if and only if their tree is no higher than the configured levels. */
  lemma CapacityIsHeight(levels: nat, n: nat)
    requires n <= USIZE_MAX
    ensures n <= Capacity(levels) <==> Height(n) <= levels
  {
    if levels < 64 && 0 < n && Height(n) <= levels {
      HeightIsCeilLog2(n);
      Pow2IsMonotone(Height(n), levels);
    } else if n <= Capacity(levels) {
      CapacityBoundsHeight(levels, n);
    }
  }

  /** Two trees with the same configuration and the same leaves agree in every field, however they got
      there: after any calls the tree is the one a fresh `build` of its leaves would be. */
  lemma SameLeavesSameTree(t: MerkleTree, u: MerkleTree)
    requires t.Valid() && u.Valid()
    requires t.h == u.h && t.levels == u.levels && t.dataLeaves == u.dataLeaves
    ensures t.nodes == u.nodes && t.root == u.root
    ensures t.leafHashes == u.leafHashes && t.leafCount == u.leafCount
  {
    if t.dataLeaves != [] {
      TowerIsUnique(t.h, t.nodes, u.nodes);
    }
  }

  // ---- How the calls relate ---------------------------------------------------------------

  /** `build` succeeds if and only if there are leaves and their tree fits the configured levels. */
  lemma BuildSucceedsExactly(levels: nat, data: seq<Bytes>, leaves: seq<Bytes>)
    requires |leaves| <= USIZE_MAX
    ensures OutcomeOf(levels, data, Call.Build(leaves)) == Ok <==> leaves != [] && Height(|leaves|) <= levels
    ensures LeavesAfter(levels, data, Call.Build(leaves))
         == if leaves != [] && Height(|leaves|) <= levels then leaves else data
  {
    CapacityIsHeight(levels, |leaves|);
  }

  /** Appending to a built tree succeeds and ends exactly as building from all leaves would. */
  lemma AppendIsBuildOfAll(levels: nat, data: seq<Bytes>, leaves: seq<Bytes>)
    requires data != [] && leaves != []
    ensures OutcomeOf(levels, data, Append(leaves)) == OutcomeOf(levels, data, Call.Build(data + leaves))
    ensures LeavesAfter(levels, data, Append(leaves)) == LeavesAfter(levels, data, Call.Build(data + leaves))
  {
  }

  /** A list of updates succeeds if and only if each of them would alone; then it does what they do in
      turn, and otherwise nothing. */
  lemma {:induction false} BatchIsAllOrNothing(levels: nat, data: seq<Bytes>, updates: seq<Update>)
    requires updates != []
    ensures OutcomeOf(levels, data, UpdateMany(updates)) == Ok
       <==> forall u :: u in updates ==> OutcomeOf(levels, data, UpdateOne(u)) == Ok
    ensures LeavesAfter(levels, data, UpdateMany(updates)) ==
      if forall u :: u in updates ==> OutcomeOf(levels, data, UpdateOne(u)) == Ok
      then InTurn(levels, data, updates) else data
  {
    var ok := forall u :: u in updates ==> OutcomeOf(levels, data, UpdateOne(u)) == Ok;
    if data == [] {
      assert updates[0] in updates && OutcomeOf(levels, data, UpdateOne(updates[0])) != Ok;
    } else if exists u :: u in updates && u.index >= |data| {
      var u :| u in updates && u.index >= |data|;
      assert OutcomeOf(levels, data, UpdateOne(u)) != Ok;
    } else {
      InTurnIsUpdated(levels, data, updates);
    }
  }

  /** The leaves after single updates, first to last. */
  function InTurn(levels: nat, data: seq<Bytes>, updates: seq<Update>): seq<Bytes>
    decreases |updates|
  {
    if updates == [] then data else InTurn(levels, LeavesAfter(levels, data, UpdateOne(updates[0])), updates[1..])
  }

  lemma {:induction false} InTurnIsUpdated(levels: nat, data: seq<Bytes>, updates: seq<Update>)
    requires forall u :: u in updates ==> u.index < |data|
    ensures InTurn(levels, data, updates) == Updated(data, updates)
    decreases |updates|
  {
    if updates != [] {
      var next := LeavesAfter(levels, data, UpdateOne(updates[0]));
      InTurnIsUpdated(levels, next, updates[1..]);
      FirstUpdate(data, updates);
    }
  }

  lemma {:induction false} FirstUpdate(data: seq<Bytes>, updates: seq<Update>)
    requires updates != [] && forall u :: u in updates ==> u.index < |data|
    ensures Updated(data, updates) == Updated(data[updates[0].index := updates[0].leaf], updates[1..])
    decreases |updates|
  {
    var front := updates[..|updates| - 1];
    if front != [] {
      FirstUpdate(data, front);
      assert front[1..] == updates[1..][..|updates| - 2];
    }
  }

  /** Until it is built, a tree stays empty. */
  lemma {:induction false} NothingBeforeTheFirstBuild(levels: nat, calls: seq<Call>)
    requires forall call :: call in calls ==> !call.Build?
    ensures LeavesAfterRun(levels, calls) == []
    decreases |calls|
  {
    if calls != [] {
      NothingBeforeTheFirstBuild(levels, calls[..|calls| - 1]);
    }
  }

  // ---- Runs -----------------------------------------------------------------------------

  /** Of several updates of one leaf the last wins. */
  lemma {:induction false} LastUpdateWins(data: seq<Bytes>, updates: seq<Update>, j: nat)
    requires forall u :: u in updates ==> u.index < |data|
    requires j < |updates| && forall k :: j < k < |updates| ==> updates[k].index != updates[j].index
    ensures Updated(data, updates)[updates[j].index] == updates[j].leaf
    decreases |updates|
  {
    if j < |updates| - 1 {
      LastUpdateWins(data, updates[..|updates| - 1], j);
    }
  }

  lemma {:induction false} OtherLeavesStay(data: seq<Bytes>, updates: seq<Update>, i: nat)
    requires forall u :: u in updates ==> u.index < |data|
    requires i < |data| && forall k :: 0 <= k < |updates| ==> updates[k].index != i
    ensures Updated(data, updates)[i] == data[i]
    decreases |updates|
  {
    if updates != [] {
      OtherLeavesStay(data, updates[..|updates| - 1], i);
    }
  }

  /** Incremental changes refine a rebuild: after any run of calls, failing ones included, on a new tree,
      `build` accepts the resulting leaves (if there are any), and the tree it makes of them has the same
      nodes, root, leaf hashes and leaf count. */
  method RunAndRebuild(h: Hasher, levels: nat, calls: seq<Call>)
    returns (changed: MerkleTree, rebuilt: MerkleTree, r: Outcome)
    requires forall k :: 0 <= k < |calls| ==> Fits(levels, LeavesAfterRun(levels, calls[..k]), calls[k])
    ensures changed.Valid() && changed.h == rebuilt.h == h && changed.levels == rebuilt.levels == levels
    ensures changed.dataLeaves == rebuilt.dataLeaves == LeavesAfterRun(levels, calls)
    ensures r == if changed.dataLeaves == [] then Err(NoLeaves) else Ok
    ensures changed.nodes == rebuilt.nodes && changed.root == rebuilt.root
    ensures changed.leafHashes == rebuilt.leafHashes && changed.leafCount == rebuilt.leafCount
  {
    changed := new MerkleTree(h, levels);
    for k := 0 to |calls|
      invariant changed.Valid() && changed.h == h && changed.levels == levels && fresh(changed)
      invariant changed.dataLeaves == LeavesAfterRun(levels, calls[..k])
    {
      assert calls[..k + 1][..k] == calls[..k];
      var outcome := changed.Perform(calls[k]);
    }
    assert calls[..|calls|] == calls;
    rebuilt := new MerkleTree(h, levels);
    r := rebuilt.Build(changed.dataLeaves);
    SameLeavesSameTree(changed, rebuilt);
  }
}
