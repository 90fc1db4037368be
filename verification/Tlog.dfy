/**
  internal/tlog/tlog.go: the root of a list of leaf hashes, the hash of a tree
  node recomputed from the leaves, and consistency proofs.
 */
module Tlog {
  import opened Wrappers
  import opened Hashing
  import opened Binary
  import opened Rfc6962
  import opened CompactRanges
  import opened ProofNodes
  import opened ProofRefinement
  import Verifier
  import Consistency

  datatype ProofError = NodeOutsideTree | OldSizeOutOfRange

  /** The Merkle tree hash of the given leaf hashes. */
  method Root(sha: Sha, leaves: seq<Hash>) returns (root: Hash)
    ensures root == RootOf(sha, leaves)
  {
    if |leaves| == 0 {
      return EmptyRoot(sha);
    }
    var r := new CompactRange(sha);
    for i := 0 to |leaves|
      invariant r.Valid() && r.sha == sha && fresh(r)
      invariant r.leaves == leaves[..i]
    {
      r.Append(leaves[i]);
    }
    assert leaves[..|leaves|] == leaves;
    root := r.GetRootHash();
  }

  /** The hash of a perfect subtree, recomputed from the leaves. */
  method HashNode(sha: Sha, leaves: seq<Hash>, id: NodeID) returns (r: Result<Hash, ProofError>)
    ensures id.End() > |leaves| ==> r == Err(NodeOutsideTree)
    ensures id.End() <= |leaves| ==> r == Ok(NodeHash(sha, leaves, id))
  {
    var begin, end := id.Begin(), id.End();
    if end > |leaves| {
      return Err(NodeOutsideTree);
    }
    ShlMonotone(id.index, id.index + 1, id.level);
    var root := Root(sha, leaves[begin..end]);
    MthShift(sha, leaves[begin..end], leaves, begin, 0, end - begin);
    return Ok(root);
  }

  /** The hash of every listed node, with the ephemeral node collapsed. */
  method Fetch(sha: Sha, leaves: seq<Hash>, nodes: Nodes) returns (r: Result<seq<Hash>, ProofError>)
    requires nodes.begin <= nodes.end <= |nodes.ids|
    ensures r.Ok? <==> AllInside(nodes.ids, |leaves|)
    ensures r.Ok? ==> r.value == Rehash(sha, NodeHashes(sha, leaves, nodes.ids), nodes.begin, nodes.end)
    ensures r.Err? ==> r.error == NodeOutsideTree
  {
    var hashes: seq<Hash> := [];
    for i := 0 to |nodes.ids|
      invariant AllInside(nodes.ids[..i], |leaves|)
      invariant hashes == NodeHashes(sha, leaves, nodes.ids[..i])
    {
      var h := HashNode(sha, leaves, nodes.ids[i]);
      if h.Err? {
        return Err(NodeOutsideTree);
      }
      assert nodes.ids[..i + 1] == nodes.ids[..i] + [nodes.ids[i]];
      hashes := hashes + [h.value];
    }
    assert nodes.ids[..|nodes.ids|] == nodes.ids;
    return Ok(Rehash(sha, hashes, nodes.begin, nodes.end));
  }

  /** What `ConsistencyProof` returns for every input. */
  ghost function ProofResult(sha: Sha, leaves: seq<Hash>, m: nat): Result<seq<Hash>, ProofError> {
    if m > |leaves| then Err(OldSizeOutOfRange)
    else if m == 0 then Ok([])
    else Ok(Proof(sha, leaves, m))
  }

  /** The proof that a tree of size `m` is a prefix of a tree of the given leaves. */
  method ConsistencyProof(sha: Sha, leaves: seq<Hash>, m: nat) returns (r: Result<seq<Hash>, ProofError>)
    ensures r == ProofResult(sha, leaves, m)
  {
    var n := |leaves|;
    if m > n {
      return Err(OldSizeOutOfRange);
    }
    if m == 0 || m == n {
      return Ok([]);
    }
    NodesAreProof(sha, leaves, m);
    r := Fetch(sha, leaves, ConsistencyNodes(m, n));
  }

  /**
    Completeness of what `ConsistencyProof` returns: for every size up to that of
    the tree the proof is accepted, it is empty only for nothing and for the whole
    tree, and it has at most ceil(log2 n) + 1 hashes (`e` is any exponent with
    n <= Pow2(e)).
   */
  lemma ProofResultAccepted(sha: Sha, leaves: seq<Hash>, m: nat, e: nat)
    requires m <= |leaves| <= Pow2(e)
    ensures ProofResult(sha, leaves, m).Ok?
    ensures var path := ProofResult(sha, leaves, m).value;
            && Verifier.VerifyConsistency(sha, m, |leaves|, path, RootOf(sha, leaves[..m]), RootOf(sha, leaves))
            && (path == [] <==> m == 0 || m == |leaves|)
            && |path| <= e + 1
  {
    if m == 0 {
      if |leaves| == 0 { assert leaves[..0] == leaves; }
    } else {
      Consistency.ConsistencyComplete(sha, leaves, m);
      ProofEmptyIff(sha, leaves, m);
      SubProofLength(sha, leaves, m, 0, |leaves|, true, e);
    }
  }
}
