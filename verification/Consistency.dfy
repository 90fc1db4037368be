/**
  What an accepted consistency proof means, and that honest ones are accepted.
 */
module Consistency {
  import opened Wrappers
  import opened Hashing
  import opened Binary
  import opened Rfc6962
  import opened Verifier

  /** A part of the tree for which the verifier's counters run out exactly. */
  ghost predicate Provable(m: nat, lo: nat, hi: nat) {
    lo < m < hi || (lo < m == hi && exists j: nat :: hi - lo == Pow2(j))
  }

  /** The two roots of a part of the tree. */
  ghost function RootsAt(sha: Sha, leaves: seq<Hash>, m: nat, lo: nat, hi: nat): Roots
    requires lo <= m <= hi <= |leaves|
  {
    Roots(Mth(sha, leaves, lo, m), Mth(sha, leaves, lo, hi))
  }

  /** A part of the tree and its two halves. */
  lemma Halves(sha: Sha, leaves: seq<Hash>, lo: nat, k: nat, hi: nat, j: nat)
    requires k == lo + Pow2(j) && k < hi <= lo + 2 * Pow2(j) && hi <= |leaves|
    ensures lo < k
    ensures Mth(sha, leaves, lo, hi) == HashChildren(sha, Mth(sha, leaves, lo, k), Mth(sha, leaves, k, hi))
  {
    ShlAtLeast(1, j);
    SplitPointUnique(hi - lo, j);
  }

  /** If the strings hashed for a part of the tree are known, so are those of its halves, and its own. */
  lemma HalvesHashed(sha: Sha, hashed: set<bytes>, leaves: seq<Hash>, lo: nat, k: nat, hi: nat, j: nat)
    requires k == lo + Pow2(j) && k < hi <= lo + 2 * Pow2(j) && hi <= |leaves|
    requires TreeHashed(sha, hashed, leaves, lo, hi)
    ensures lo < k
    ensures NodeInput(Mth(sha, leaves, lo, k), Mth(sha, leaves, k, hi)) in hashed
    ensures TreeHashed(sha, hashed, leaves, lo, k) && TreeHashed(sha, hashed, leaves, k, hi)
  {
    ShlAtLeast(1, j);
    SplitPointUnique(hi - lo, j);
    TreeHashedHalves(sha, hashed, leaves, lo, k, hi);
  }

  /** The part of the tree from `lo` to `hi` is rebuilt from `seeded`. */
  ghost function RebuildAt(sha: Sha, m: nat, lo: nat, hi: nat, seeded: seq<Hash>): Option<Roots>
    requires lo < m <= hi
  {
    Rebuild(sha, m - lo, hi - lo, seeded)
  }

  ghost predicate RebuildHashedAt(sha: Sha, hashed: set<bytes>, m: nat, lo: nat, hi: nat, seeded: seq<Hash>)
    requires lo < m <= hi
  {
    RebuildHashed(sha, hashed, m - lo, hi - lo, seeded)
  }

  lemma RebuildLeftAt(sha: Sha, hashed: set<bytes>, m: nat, lo: nat, hi: nat, j: nat, init: seq<Hash>, last: Hash)
    requires lo < m <= lo + Pow2(j) < hi <= lo + 2 * Pow2(j) && init != []
    ensures var sub := RebuildAt(sha, m, lo, lo + Pow2(j), init);
            && Extends(sha, false, last, sub, RebuildAt(sha, m, lo, hi, init + [last]))
            && (sub.Some? && RebuildHashedAt(sha, hashed, m, lo, hi, init + [last]) ==>
                  RebuildHashedAt(sha, hashed, m, lo, lo + Pow2(j), init) && JoinHashed(hashed, false, sub.value, last))
  {
    RebuildLeft(sha, hashed, m - lo, hi - lo, j, init, last);
  }

  lemma RebuildRightAt(sha: Sha, hashed: set<bytes>, m: nat, lo: nat, hi: nat, j: nat, init: seq<Hash>, last: Hash)
    requires lo + Pow2(j) < m < hi <= lo + 2 * Pow2(j) && init != []
    ensures var sub := RebuildAt(sha, m, lo + Pow2(j), hi, init);
            && Extends(sha, true, last, sub, RebuildAt(sha, m, lo, hi, init + [last]))
            && (sub.Some? && RebuildHashedAt(sha, hashed, m, lo, hi, init + [last]) ==>
                  RebuildHashedAt(sha, hashed, m, lo + Pow2(j), hi, init) && JoinHashed(hashed, true, sub.value, last))
  {
    var k := lo + Pow2(j);
    RebuildRight(sha, hashed, m - k, hi - k, m - lo, hi - lo, j, init, last);
  }

  lemma RebuildWholeAt(sha: Sha, lo: nat, hi: nat, seeded: seq<Hash>)
    requires lo < hi && Provable(hi, lo, hi) && seeded != []
    ensures RebuildAt(sha, hi, lo, hi, seeded)
         == if |seeded| == 1 then Some(Roots(seeded[0], seeded[0])) else None
  {
    var j: nat :| hi - lo == Pow2(j);
    RebuildWhole(sha, j, seeded);
  }

  /** The recursive proof rebuilds both roots. */
  lemma {:induction false} RebuildProof(sha: Sha, leaves: seq<Hash>, m: nat, lo: nat, hi: nat)
    requires hi <= |leaves| && Provable(m, lo, hi)
    ensures SubProof(sha, leaves, m, lo, hi, false) != []
    ensures RebuildAt(sha, m, lo, hi, SubProof(sha, leaves, m, lo, hi, false)) == Some(RootsAt(sha, leaves, m, lo, hi))
    decreases hi - lo
  {
    if m == hi {
      RebuildWholeAt(sha, lo, hi, [Mth(sha, leaves, lo, hi)]);
    } else {
      var j := Log2(hi - lo - 1);
      var k := lo + Pow2(j);
      if m <= k {
        RebuildProof(sha, leaves, m, lo, k);
        SubProofLeft(sha, leaves, m, lo, k, hi, false);
        RebuildLeftAt(sha, {}, m, lo, hi, j, SubProof(sha, leaves, m, lo, k, false), Mth(sha, leaves, k, hi));
        Halves(sha, leaves, lo, k, hi, j);
      } else {
        RebuildProof(sha, leaves, m, k, hi);
        SubProofRight(sha, leaves, m, lo, k, hi, false);
        RebuildRightAt(sha, {}, m, lo, hi, j, SubProof(sha, leaves, m, k, hi, false), Mth(sha, leaves, lo, k));
        Halves(sha, leaves, lo, k, hi, j);
        Halves(sha, leaves, lo, k, m, j);
      }
    }
  }

  /** `seeded` rebuilds the given new root, and the strings hashed for that are known. */
  ghost predicate RebuildsTo(sha: Sha, hashed: set<bytes>, m: nat, lo: nat, hi: nat, seeded: seq<Hash>, root: Hash)
    requires lo < m <= hi
  {
    && RebuildHashedAt(sha, hashed, m, lo, hi, seeded)
    && RebuildAt(sha, m, lo, hi, seeded).Some?
    && RebuildAt(sha, m, lo, hi, seeded).value.second == root
  }

  /** `seeded` rebuilds the new root, and nothing hashed for that collides with the tree. */
  ghost predicate Rebuilds(sha: Sha, hashed: set<bytes>, leaves: seq<Hash>, m: nat, lo: nat, hi: nat, seeded: seq<Hash>)
    requires lo < m <= hi <= |leaves|
  {
    && CollisionFree(sha, hashed) && TreeHashed(sha, hashed, leaves, lo, hi)
    && RebuildsTo(sha, hashed, m, lo, hi, seeded, Mth(sha, leaves, lo, hi))
  }

  /**
    If joining one more hash gives the hash of two known children, the parts
    joined are those children.
   */
  lemma JoinSound(sha: Sha, hashed: set<bytes>, left: bool, last: Hash, sub: Option<Roots>, whole: Option<Roots>,
                  a: Hash, b: Hash)
    requires Extends(sha, left, last, sub, whole) && whole.Some?
    requires CollisionFree(sha, hashed)
    requires NodeInput(a, b) in hashed && (sub.Some? ==> JoinHashed(hashed, left, sub.value, last))
    requires whole.value.second == HashChildren(sha, a, b)
    ensures sub.Some? && whole.value == Join(sha, left, sub.value, last)
    ensures (last, sub.value.second) == if left then (a, b) else (b, a)
  {
    if left {
      NodeInjective(sha, hashed, last, sub.value.second, a, b);
    } else {
      NodeInjective(sha, hashed, sub.value.second, last, a, b);
    }
  }

  lemma StepLeft(sha: Sha, hashed: set<bytes>, m: nat, lo: nat, k: nat, hi: nat, j: nat, init: seq<Hash>, last: Hash,
                 a: Hash, b: Hash)
    requires k == lo + Pow2(j) && lo < m <= k < hi <= lo + 2 * Pow2(j) && init != []
    requires CollisionFree(sha, hashed) && NodeInput(a, b) in hashed
    requires RebuildsTo(sha, hashed, m, lo, hi, init + [last], HashChildren(sha, a, b))
    ensures last == b && RebuildsTo(sha, hashed, m, lo, k, init, a)
    ensures RebuildAt(sha, m, lo, hi, init + [last]).value.first == RebuildAt(sha, m, lo, k, init).value.first
  {
    RebuildLeftAt(sha, hashed, m, lo, hi, j, init, last);
    JoinSound(sha, hashed, false, last, RebuildAt(sha, m, lo, k, init), RebuildAt(sha, m, lo, hi, init + [last]), a, b);
  }

  lemma StepRight(sha: Sha, hashed: set<bytes>, m: nat, lo: nat, k: nat, hi: nat, j: nat, init: seq<Hash>, last: Hash,
                  a: Hash, b: Hash)
    requires k == lo + Pow2(j) && lo <= k < m < hi <= lo + 2 * Pow2(j) && init != []
    requires CollisionFree(sha, hashed) && NodeInput(a, b) in hashed
    requires RebuildsTo(sha, hashed, m, lo, hi, init + [last], HashChildren(sha, a, b))
    ensures last == a && RebuildsTo(sha, hashed, m, k, hi, init, b)
    ensures RebuildAt(sha, m, lo, hi, init + [last]).value.first
         == HashChildren(sha, last, RebuildAt(sha, m, k, hi, init).value.first)
    ensures NodeInput(last, RebuildAt(sha, m, k, hi, init).value.first) in hashed
  {
    RebuildRightAt(sha, hashed, m, lo, hi, j, init, last);
    JoinSound(sha, hashed, true, last, RebuildAt(sha, m, k, hi, init), RebuildAt(sha, m, lo, hi, init + [last]), a, b);
  }

  /** In the left half, the last hash is the right part of the tree, and the others rebuild the left one. */
  lemma SoundLeft(sha: Sha, hashed: set<bytes>, leaves: seq<Hash>, m: nat, lo: nat, k: nat, hi: nat, j: nat,
                  init: seq<Hash>, last: Hash)
    requires k == lo + Pow2(j) && lo < m <= k < hi <= lo + 2 * Pow2(j) && hi <= |leaves| && init != []
    requires Rebuilds(sha, hashed, leaves, m, lo, hi, init + [last])
    ensures Rebuilds(sha, hashed, leaves, m, lo, k, init)
    ensures last == Mth(sha, leaves, k, hi)
    ensures RebuildAt(sha, m, lo, hi, init + [last]).value.first
         == RebuildAt(sha, m, lo, k, init).value.first
  {
    Halves(sha, leaves, lo, k, hi, j);
    HalvesHashed(sha, hashed, leaves, lo, k, hi, j);
    StepLeft(sha, hashed, m, lo, k, hi, j, init, last, Mth(sha, leaves, lo, k), Mth(sha, leaves, k, hi));
  }

  /** In the right half, the last hash is the left part of the tree, and the others rebuild the right one. */
  lemma SoundRight(sha: Sha, hashed: set<bytes>, leaves: seq<Hash>, m: nat, lo: nat, k: nat, hi: nat, j: nat,
                   init: seq<Hash>, last: Hash)
    requires k == lo + Pow2(j) && lo <= k < m < hi <= lo + 2 * Pow2(j) && hi <= |leaves| && init != []
    requires Rebuilds(sha, hashed, leaves, m, lo, hi, init + [last])
    ensures Rebuilds(sha, hashed, leaves, m, k, hi, init)
    ensures last == Mth(sha, leaves, lo, k)
    ensures RebuildAt(sha, m, lo, hi, init + [last]).value.first
         == HashChildren(sha, last, RebuildAt(sha, m, k, hi, init).value.first)
    ensures NodeInput(last, RebuildAt(sha, m, k, hi, init).value.first) in hashed
  {
    Halves(sha, leaves, lo, k, hi, j);
    HalvesHashed(sha, hashed, leaves, lo, k, hi, j);
    StepRight(sha, hashed, m, lo, k, hi, j, init, last, Mth(sha, leaves, lo, k), Mth(sha, leaves, k, hi));
  }

  /** The strings hashed for a part of the tree are those of its halves, and its own. */
  lemma {:induction false} HashedFromHalves(sha: Sha, hashed: set<bytes>, leaves: seq<Hash>, lo: nat, k: nat, hi: nat,
                                            j: nat)
    requires k == lo + Pow2(j) && lo < k < hi <= lo + 2 * Pow2(j) && hi <= |leaves|
    requires NodeInput(Mth(sha, leaves, lo, k), Mth(sha, leaves, k, hi)) in hashed
    requires TreeHashed(sha, hashed, leaves, lo, k) && TreeHashed(sha, hashed, leaves, k, hi)
    ensures TreeHashed(sha, hashed, leaves, lo, hi)
  {
    SplitPointUnique(hi - lo, j);
    TreeHashedHalves(sha, hashed, leaves, lo, k, hi);
  }

  /**
    Whatever rebuilds the new root is the recursive proof, and so rebuilds the
    old root as well.  By then the strings hashed for the old tree are known too.
   */
  lemma {:induction false} RebuildSound(sha: Sha, hashed: set<bytes>, leaves: seq<Hash>, m: nat, lo: nat, hi: nat,
                                        seeded: seq<Hash>)
    requires hi <= |leaves| && Provable(m, lo, hi)
    requires Rebuilds(sha, hashed, leaves, m, lo, hi, seeded)
    ensures RebuildAt(sha, m, lo, hi, seeded).value.first == Mth(sha, leaves, lo, m)
    ensures seeded == SubProof(sha, leaves, m, lo, hi, false)
    ensures TreeHashed(sha, hashed, leaves, lo, m)
    decreases hi - lo
  {
    if m == hi {
      RebuildWholeAt(sha, lo, hi, seeded);
      assert seeded == [seeded[0]];
    } else {
      var j := Log2(hi - lo - 1);
      var k := lo + Pow2(j);
      NotSeedAlone(sha, m - lo, hi - lo, seeded);
      var init, last := seeded[..|seeded| - 1], seeded[|seeded| - 1];
      assert seeded == init + [last];
      if m <= k {
        SoundLeft(sha, hashed, leaves, m, lo, k, hi, j, init, last);
        RebuildSound(sha, hashed, leaves, m, lo, k, init);
        SubProofLeft(sha, leaves, m, lo, k, hi, false);
      } else {
        SoundRight(sha, hashed, leaves, m, lo, k, hi, j, init, last);
        RebuildSound(sha, hashed, leaves, m, k, hi, init);
        SubProofRight(sha, leaves, m, lo, k, hi, false);
        Halves(sha, leaves, lo, k, m, j);
        HalvesHashed(sha, hashed, leaves, lo, k, hi, j);
        HashedFromHalves(sha, hashed, leaves, lo, k, m, j);
      }
    }
  }

  /** A seed alone proves growth of no tree. */
  lemma {:induction false} NotSeedAlone(sha: Sha, m: nat, n: nat, seeded: seq<Hash>)
    requires 0 < m < n && Rebuild(sha, m, n, seeded).Some?
    ensures |seeded| > 1
  {
    TrimOnesPositive(m - 1, n - 1);
  }

  lemma {:induction false} TrimOnesPositive(fn: nat, sn: nat)
    requires fn < sn
    ensures TrimOnes(fn, sn).1 > 0
  {
    if fn % 2 == 1 { TrimOnesPositive(fn / 2, sn / 2); }
  }

  /** The seeded proof of a whole tree. */
  lemma SeededProof(sha: Sha, leaves: seq<Hash>, m: nat)
    requires 0 < m < |leaves|
    ensures WithSeed(m, RootOf(sha, leaves[..m]), Proof(sha, leaves, m))
         == SubProof(sha, leaves, m, 0, |leaves|, false)
  {
    SubProofKnown(sha, leaves, m, |leaves|);
    if IsPow2(m) {
      RootOfPrefix(sha, leaves, m);
      FirstHash(sha, leaves, m, |leaves|);
    }
  }

  lemma {:induction false} FirstHash(sha: Sha, leaves: seq<Hash>, m: nat, hi: nat)
    requires 0 < m <= hi <= |leaves| && IsPow2(m) && (m == hi ==> IsPow2(hi))
    ensures SubProof(sha, leaves, m, 0, hi, false) != []
    ensures SubProof(sha, leaves, m, 0, hi, false)[0] == Mth(sha, leaves, 0, m)
    decreases hi
  {
    if m < hi {
      var k := SplitPoint(hi);
      var j := Log2(hi - 1);
      if m <= k {
        Pow2IsPow2(j);
        FirstHash(sha, leaves, m, k);
      } else {
        NotPow2Between(m, j);
      }
    }
  }

  /** Completeness: the proof of the tree that grew is accepted. */
  lemma ConsistencyComplete(sha: Sha, leaves: seq<Hash>, m: nat)
    requires 0 < m <= |leaves|
    ensures VerifyConsistency(sha, m, |leaves|, Proof(sha, leaves, m), RootOf(sha, leaves[..m]), RootOf(sha, leaves))
  {
    if m == |leaves| {
      assert leaves[..m] == leaves;
    } else {
      SeededProof(sha, leaves, m);
      RebuildProof(sha, leaves, m, 0, |leaves|);
      RootOfPrefix(sha, leaves, m);
      ProofEmptyIff(sha, leaves, m);
    }
  }

  /**
    Soundness: an accepted proof to the root of a list shows that the old root is
    the root of the first `m` leaves of that list, and the proof is the recursive
    one, unless the strings hashed for the list and by the verifier collide.  The
    strings hashed for those first leaves are then among them, so that one accepted
    proof can be followed back to the one before it.
   */
  lemma ConsistencySound(sha: Sha, hashed: set<bytes>, leaves: seq<Hash>, m: nat, path: seq<Hash>, oldRoot: Hash)
    requires 0 < m <= |leaves|
    requires VerifyConsistency(sha, m, |leaves|, path, oldRoot, RootOf(sha, leaves))
    requires CollisionFree(sha, hashed)
    requires RootHashed(sha, hashed, leaves) && VerifyHashed(sha, hashed, m, |leaves|, path, oldRoot)
    ensures oldRoot == RootOf(sha, leaves[..m])
    ensures path == Proof(sha, leaves, m)
    ensures RootHashed(sha, hashed, leaves[..m])
  {
    if m == |leaves| {
      assert leaves[..m] == leaves;
    } else {
      var seeded := WithSeed(m, oldRoot, path);
      RebuildSound(sha, hashed, leaves, m, 0, |leaves|, seeded);
      RootOfPrefix(sha, leaves, m);
      MthLocal(sha, hashed, leaves[..m], leaves, 0, m);
      SubProofKnown(sha, leaves, m, |leaves|);
      if IsPow2(m) { assert seeded[1..] == path; }
    }
  }

  /** Both at once: the verifier accepts one old root and one proof only. */
  lemma ConsistencyExact(sha: Sha, hashed: set<bytes>, leaves: seq<Hash>, m: nat, path: seq<Hash>, oldRoot: Hash)
    requires 0 < m <= |leaves|
    requires CollisionFree(sha, hashed)
    requires RootHashed(sha, hashed, leaves) && VerifyHashed(sha, hashed, m, |leaves|, path, oldRoot)
    ensures VerifyConsistency(sha, m, |leaves|, path, oldRoot, RootOf(sha, leaves))
       <==> oldRoot == RootOf(sha, leaves[..m]) && path == Proof(sha, leaves, m)
  {
    if VerifyConsistency(sha, m, |leaves|, path, oldRoot, RootOf(sha, leaves)) {
      ConsistencySound(sha, hashed, leaves, m, path, oldRoot);
    }
    ConsistencyComplete(sha, leaves, m);
  }
}
