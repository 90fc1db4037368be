/**
  The Merkle tree of section 2.1 of RFC 6962: the tree hash MTH, and the
  recursive consistency proof PROOF of section 2.1.2.  These are the reference
  definitions that the program's loops are proved against.

  As in the RFC, a function is about a range of leaves, here the leaves from
  index `lo` up to index `hi` of one list.
 */
module Rfc6962 {
  import opened Hashing
  import opened Binary

  /** The largest power of two smaller than `n`. */
  ghost function SplitPoint(n: nat): (k: nat)
    requires n > 1
    ensures 0 < k < n <= 2 * k
  {
    Pow2(Log2(n - 1))
  }

  /** MTH(D[lo:hi]), where D is the list of leaf hashes. */
  ghost function Mth(sha: Sha, leaves: seq<Hash>, lo: nat, hi: nat): Hash
    requires lo <= hi <= |leaves|
    decreases hi - lo
  {
    if lo == hi then EmptyRoot(sha)
    else if lo + 1 == hi then leaves[lo]
    else
      var k := lo + SplitPoint(hi - lo);
      HashChildren(sha, Mth(sha, leaves, lo, k), Mth(sha, leaves, k, hi))
  }

  /** `hashed` holds every string hashed to compute `Mth(sha, leaves, lo, hi)`. */
  ghost predicate TreeHashed(sha: Sha, hashed: set<bytes>, leaves: seq<Hash>, lo: nat, hi: nat)
    requires lo <= hi <= |leaves|
    decreases hi - lo
  {
    if lo == hi then [] in hashed
    else if lo + 1 == hi then true
    else
      var k := lo + SplitPoint(hi - lo);
      && NodeInput(Mth(sha, leaves, lo, k), Mth(sha, leaves, k, hi)) in hashed
      && TreeHashed(sha, hashed, leaves, lo, k) && TreeHashed(sha, hashed, leaves, k, hi)
  }

  /** SUBPROOF(m, D[lo:hi], known) of section 2.1.2 of RFC 6962; `m` counts from the start of D. */
  ghost function SubProof(sha: Sha, leaves: seq<Hash>, m: nat, lo: nat, hi: nat, known: bool): seq<Hash>
    requires lo < m <= hi <= |leaves|
    decreases hi - lo
  {
    if m == hi then
      if known then [] else [Mth(sha, leaves, lo, hi)]
    else
      var k := lo + SplitPoint(hi - lo);
      if m <= k then
        SubProof(sha, leaves, m, lo, k, known) + [Mth(sha, leaves, k, hi)]
      else
        SubProof(sha, leaves, m, k, hi, false) + [Mth(sha, leaves, lo, k)]
  }

  /** The root of a list of leaf hashes. */
  ghost function RootOf(sha: Sha, leaves: seq<Hash>): Hash {
    Mth(sha, leaves, 0, |leaves|)
  }

  /** `hashed` holds every string hashed to compute `RootOf(sha, leaves)`. */
  ghost predicate RootHashed(sha: Sha, hashed: set<bytes>, leaves: seq<Hash>) {
    TreeHashed(sha, hashed, leaves, 0, |leaves|)
  }

  /** PROOF(m, D[n]). */
  ghost function Proof(sha: Sha, leaves: seq<Hash>, m: nat): seq<Hash>
    requires 0 < m <= |leaves|
  {
    SubProof(sha, leaves, m, 0, |leaves|, true)
  }

  lemma SplitPointUnique(n: nat, j: nat)
    requires Pow2(j) < n <= 2 * Pow2(j)
    ensures n > 1 && SplitPoint(n) == Pow2(j)
  {
    ShlAtLeast(1, j);
    Log2Unique(n - 1, j);
  }

  lemma MthSplit(sha: Sha, leaves: seq<Hash>, lo: nat, k: nat, hi: nat)
    requires lo + 1 < hi <= |leaves| && k == lo + SplitPoint(hi - lo)
    ensures Mth(sha, leaves, lo, hi) == HashChildren(sha, Mth(sha, leaves, lo, k), Mth(sha, leaves, k, hi))
  {
  }

  lemma SubProofLeft(sha: Sha, leaves: seq<Hash>, m: nat, lo: nat, k: nat, hi: nat, known: bool)
    requires lo < m <= k < hi <= |leaves| && k == lo + SplitPoint(hi - lo)
    ensures SubProof(sha, leaves, m, lo, hi, known)
         == SubProof(sha, leaves, m, lo, k, known) + [Mth(sha, leaves, k, hi)]
  {
  }

  lemma SubProofRight(sha: Sha, leaves: seq<Hash>, m: nat, lo: nat, k: nat, hi: nat, known: bool)
    requires lo < k < m < hi <= |leaves| && k == lo + SplitPoint(hi - lo)
    ensures SubProof(sha, leaves, m, lo, hi, known)
         == SubProof(sha, leaves, m, k, hi, false) + [Mth(sha, leaves, lo, k)]
  {
  }

  lemma {:induction false} TreeHashedHalves(sha: Sha, hashed: set<bytes>, leaves: seq<Hash>, lo: nat, k: nat, hi: nat)
    requires lo < k < hi <= |leaves| && k == lo + SplitPoint(hi - lo)
    ensures TreeHashed(sha, hashed, leaves, lo, hi) <==>
              && NodeInput(Mth(sha, leaves, lo, k), Mth(sha, leaves, k, hi)) in hashed
              && TreeHashed(sha, hashed, leaves, lo, k) && TreeHashed(sha, hashed, leaves, k, hi)
  {
  }

  /** A tree hash depends on its own leaves only. */
  lemma {:induction false} MthLocal(sha: Sha, hashed: set<bytes>, a: seq<Hash>, b: seq<Hash>, lo: nat, hi: nat)
    requires lo <= hi <= |a| && hi <= |b|
    requires forall i :: lo <= i < hi ==> a[i] == b[i]
    ensures Mth(sha, a, lo, hi) == Mth(sha, b, lo, hi)
    ensures TreeHashed(sha, hashed, a, lo, hi) == TreeHashed(sha, hashed, b, lo, hi)
    decreases hi - lo
  {
    if lo + 1 < hi {
      var k := lo + SplitPoint(hi - lo);
      MthLocal(sha, hashed, a, b, lo, k);
      MthLocal(sha, hashed, a, b, k, hi);
    }
  }

  /** The tree hash of a range is that of the same leaves in a list of their own. */
  lemma {:induction false} MthShift(sha: Sha, a: seq<Hash>, b: seq<Hash>, off: nat, lo: nat, hi: nat)
    requires lo <= hi <= |a| && hi + off <= |b|
    requires forall i :: lo <= i < hi ==> a[i] == b[i + off]
    ensures Mth(sha, a, lo, hi) == Mth(sha, b, lo + off, hi + off)
    decreases hi - lo
  {
    if lo + 1 < hi {
      var k := lo + SplitPoint(hi - lo);
      MthShift(sha, a, b, off, lo, k);
      MthShift(sha, a, b, off, k, hi);
    }
  }

  /** The root of a prefix is the tree hash of the range it covers. */
  lemma RootOfPrefix(sha: Sha, leaves: seq<Hash>, m: nat)
    requires m <= |leaves|
    ensures RootOf(sha, leaves[..m]) == Mth(sha, leaves, 0, m)
  {
    MthLocal(sha, {}, leaves[..m], leaves, 0, m);
  }

  /**
    A tree hash binds its leaves: two lists with one tree hash for a range agree
    on that range, unless the strings hashed for them collide.
   */
  lemma {:induction false} MthBindsLeaves(sha: Sha, hashed: set<bytes>, a: seq<Hash>, b: seq<Hash>, lo: nat, hi: nat)
    requires lo <= hi <= |a| && hi <= |b|
    requires CollisionFree(sha, hashed)
    requires TreeHashed(sha, hashed, a, lo, hi) && TreeHashed(sha, hashed, b, lo, hi)
    requires Mth(sha, a, lo, hi) == Mth(sha, b, lo, hi)
    ensures forall i :: lo <= i < hi ==> a[i] == b[i]
    decreases hi - lo
  {
    if lo + 1 < hi {
      var k := lo + SplitPoint(hi - lo);
      NodeInjective(sha, hashed, Mth(sha, a, lo, k), Mth(sha, a, k, hi), Mth(sha, b, lo, k), Mth(sha, b, k, hi));
      MthBindsLeaves(sha, hashed, a, b, lo, k);
      MthBindsLeaves(sha, hashed, a, b, k, hi);
    }
  }

  /** For lists of one length, equal roots mean equal lists. */
  lemma RootBindsLeaves(sha: Sha, hashed: set<bytes>, a: seq<Hash>, b: seq<Hash>)
    requires |a| == |b| && RootOf(sha, a) == RootOf(sha, b)
    requires CollisionFree(sha, hashed)
    requires RootHashed(sha, hashed, a) && RootHashed(sha, hashed, b)
    ensures a == b
  {
    MthBindsLeaves(sha, hashed, a, b, 0, |a|);
  }

  /**
    A proof has at most ceil(log2 n) + 1 hashes: `e` is any exponent with
    `n <= Pow2(e)`, the least of which is that logarithm.
   */
  lemma {:induction false} SubProofLength(sha: Sha, leaves: seq<Hash>, m: nat, lo: nat, hi: nat, known: bool, e: nat)
    requires lo < m <= hi <= |leaves| && hi - lo <= Pow2(e)
    ensures |SubProof(sha, leaves, m, lo, hi, known)| <= e + 1
    decreases hi - lo
  {
    if m < hi {
      var k := lo + SplitPoint(hi - lo);
      var j := Log2(hi - lo - 1);
      assert j < e by {
        if e <= j { Pow2Monotone(e, j); }
      }
      Pow2Monotone(j, e - 1);
      if m <= k {
        SubProofLength(sha, leaves, m, lo, k, known, e - 1);
      } else {
        SubProofLength(sha, leaves, m, k, hi, false, e - 1);
      }
    }
  }

  /** A proof is empty exactly when nothing has to be shown. */
  lemma ProofEmptyIff(sha: Sha, leaves: seq<Hash>, m: nat)
    requires 0 < m <= |leaves|
    ensures Proof(sha, leaves, m) == [] <==> m == |leaves|
  {
  }

  /**
    Whether the old root is known only decides whether its hash is sent: it is
    the first hash, left out when `m` is a power of two.
   */
  lemma {:induction false} SubProofKnown(sha: Sha, leaves: seq<Hash>, m: nat, hi: nat)
    requires 0 < m <= hi <= |leaves|
    requires IsPow2(hi) || m < hi
    ensures |SubProof(sha, leaves, m, 0, hi, false)| > 0
    ensures SubProof(sha, leaves, m, 0, hi, true)
         == if IsPow2(m) then SubProof(sha, leaves, m, 0, hi, false)[1..] else SubProof(sha, leaves, m, 0, hi, false)
    decreases hi
  {
    if m < hi {
      var k := SplitPoint(hi);
      var j := Log2(hi - 1);
      Pow2IsPow2(j);
      if m <= k {
        SubProofKnown(sha, leaves, m, k);
      } else {
        NotPow2Between(m, j);
      }
    }
  }

  lemma {:induction false} Pow2IsPow2(j: nat)
    ensures Pow2(j) > 0 && TrailingZeros(Pow2(j)) == j
    ensures IsPow2(Pow2(j))
  {
    if j > 0 {
      Pow2IsPow2(j - 1);
      ShlOnce(1, j - 1);
      TrailingZerosDouble(Pow2(j - 1));
    }
  }

  lemma {:induction false} NotPow2Between(m: nat, j: nat)
    requires Pow2(j) < m < 2 * Pow2(j)
    ensures !IsPow2(m)
  {
    if IsPow2(m) {
      var e := TrailingZeros(m);
      if e <= j { Pow2Monotone(e, j); } else { Pow2Monotone(j, e); }
    }
  }
}
