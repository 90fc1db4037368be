/**
  The compact range of the Merkle library: a growing list of leaves represented
  by the roots of the perfect subtrees it splits into, largest first.
 */
module CompactRanges {
  import opened Hashing
  import opened Binary
  import opened Rfc6962

  /** The largest power of two that is at most `n`. */
  ghost function TopPow2(n: nat): (k: nat)
    requires n > 0
    ensures 0 < k <= n < 2 * k
  {
    Pow2(Log2(n))
  }

  /** The roots of the perfect subtrees that cover a range of leaves, largest first. */
  ghost function Peaks(sha: Sha, leaves: seq<Hash>, lo: nat, hi: nat): seq<Hash>
    requires lo <= hi <= |leaves|
    decreases hi - lo
  {
    if lo == hi then []
    else
      var k := lo + TopPow2(hi - lo);
      [Mth(sha, leaves, lo, k)] + Peaks(sha, leaves, k, hi)
  }

  /** Folding the peaks from the smallest up. */
  ghost function FoldPeaks(sha: Sha, peaks: seq<Hash>): Hash
    requires |peaks| > 0
  {
    if |peaks| == 1 then peaks[0]
    else HashChildren(sha, peaks[0], FoldPeaks(sha, peaks[1..]))
  }

  /** The top power of two of a multiple of `Pow2(d)`, and of a little more. */
  lemma TopOfMultiple(q: nat, d: nat, low: nat)
    requires q > 0 && low < Pow2(d)
    ensures Shl(q, d) + low > 0
    ensures TopPow2(Shl(q, d) + low) == Shl(TopPow2(q), d)
    ensures Shl(q, d) - Shl(TopPow2(q), d) == Shl(q - TopPow2(q), d)
  {
    var t := Log2(q);
    var p := Pow2(t);
    assert Pow2(t + d) == Shl(p, d) by { ShlShl(1, t, d); }
    assert Shl(p, d) <= Shl(q, d) by { ShlMonotone(p, q, d); }
    assert Shl(q, d) + Pow2(d) <= 2 * Shl(p, d) by {
      ShlMonotone(q + 1, p + p, d);
      ShlAdd(q, 1, d);
      ShlAdd(p, p, d);
    }
    Log2Unique(Shl(q, d) + low, t + d);
    ShlAdd(p, q - p, d);
  }

  lemma SameTop(m: nat, n: nat, q: nat, d: nat) returns (k: nat, rest: nat)
    requires q > 0 && m == Shl(q, d) <= n < m + Pow2(d)
    ensures m > 0 && k == TopPow2(m) == TopPow2(n)
    ensures rest < q && m - k == Shl(rest, d)
  {
    TopOfMultiple(q, d, 0);
    TopOfMultiple(q, d, n - m);
    k, rest := TopPow2(m), q - TopPow2(q);
  }

  lemma {:induction false} PeaksLocal(sha: Sha, a: seq<Hash>, b: seq<Hash>, lo: nat, hi: nat)
    requires lo <= hi <= |a| && hi <= |b|
    requires forall i :: lo <= i < hi ==> a[i] == b[i]
    ensures Peaks(sha, a, lo, hi) == Peaks(sha, b, lo, hi)
    decreases hi - lo
  {
    if lo < hi {
      var k := lo + TopPow2(hi - lo);
      MthLocal(sha, {}, a, b, lo, k);
      PeaksLocal(sha, a, b, k, hi);
    }
  }

  /** One more leaf leaves the peaks before it as they are. */
  lemma PeaksOfGrown(sha: Sha, leaves: seq<Hash>, leaf: Hash)
    ensures Peaks(sha, leaves + [leaf], 0, |leaves|) == Peaks(sha, leaves, 0, |leaves|)
  {
    PeaksLocal(sha, leaves, leaves + [leaf], 0, |leaves|);
  }

  /** The leaves from `mid` to `hi` are the last peak of those from `lo`. */
  ghost predicate LastPeak(sha: Sha, leaves: seq<Hash>, lo: nat, mid: nat, hi: nat)
    requires lo <= mid <= hi <= |leaves|
  {
    Peaks(sha, leaves, lo, hi) == Peaks(sha, leaves, lo, mid) + [Mth(sha, leaves, mid, hi)]
  }

  lemma OnlyPeak(sha: Sha, leaves: seq<Hash>, mid: nat, hi: nat, e: nat)
    requires mid < hi <= |leaves| && hi - mid == Pow2(e)
    ensures LastPeak(sha, leaves, mid, mid, hi)
  {
    Log2Unique(hi - mid, e);
  }

  /** The first peak and the others. */
  lemma PeaksStep(sha: Sha, leaves: seq<Hash>, lo: nat, k: nat, hi: nat)
    requires lo < k <= hi <= |leaves| && k == lo + TopPow2(hi - lo)
    ensures Peaks(sha, leaves, lo, hi) == [Mth(sha, leaves, lo, k)] + Peaks(sha, leaves, k, hi)
  {
  }

  lemma PeakBefore(sha: Sha, leaves: seq<Hash>, lo: nat, k: nat, mid: nat, hi: nat)
    requires lo < k <= mid < hi <= |leaves|
    requires k - lo == TopPow2(mid - lo) == TopPow2(hi - lo)
    requires LastPeak(sha, leaves, k, mid, hi)
    ensures LastPeak(sha, leaves, lo, mid, hi)
  {
    PeaksStep(sha, leaves, lo, k, mid);
    PeaksStep(sha, leaves, lo, k, hi);
  }

  /** A block smaller than every peak so far becomes the last peak. */
  lemma {:induction false} PeaksExtend(sha: Sha, leaves: seq<Hash>, lo: nat, mid: nat, hi: nat, q: nat, d: nat)
    requires lo <= mid < hi <= |leaves|
    requires d > 0 && hi - mid == Pow2(d - 1)
    requires mid - lo == Shl(q, d)
    ensures LastPeak(sha, leaves, lo, mid, hi)
    decreases q
  {
    if q == 0 {
      ShlZero(d);
      OnlyPeak(sha, leaves, mid, hi, d - 1);
    } else {
      var k, rest := SameTop(mid - lo, hi - lo, q, d);
      PeaksExtend(sha, leaves, lo + k, mid, hi, rest, d);
      PeakBefore(sha, leaves, lo, lo + k, mid, hi);
    }
  }

  /**
    A one bit in the count is a merge: with `count` blocks of one size before
    `mid`, an odd count leaves a last block that is a peak of its own, and that
    block and the next one form a block of twice the size, from `cut` to `hi`.
   */
  lemma MergeBlocks(sha: Sha, leaves: seq<Hash>, mid: nat, hi: nat, count: nat, e: nat) returns (cut: nat)
    requires mid < hi <= |leaves|
    requires hi - mid == Pow2(e)
    requires mid == Shl(count, e) && count % 2 == 1
    ensures cut == Shl(count / 2, e + 1) < mid && hi - cut == Pow2(e + 1)
    ensures var peaks := Peaks(sha, leaves, 0, mid);
            && |peaks| > 0 && peaks[..|peaks| - 1] == Peaks(sha, leaves, 0, cut)
            && HashChildren(sha, peaks[|peaks| - 1], Mth(sha, leaves, mid, hi)) == Mth(sha, leaves, cut, hi)
  {
    var q;
    q, cut := TwinBelow(mid, hi, count, e);
    PeaksExtend(sha, leaves, 0, cut, mid, q, e + 1);
    MthOfTwins(sha, leaves, cut, mid, hi, e);
  }

  lemma TwinBelow(mid: nat, hi: nat, count: nat, e: nat) returns (q: nat, cut: nat)
    requires mid < hi && hi - mid == Pow2(e)
    requires mid == Shl(count, e) && count % 2 == 1
    ensures q == count / 2 && cut == Shl(q, e + 1)
    ensures cut < mid && mid - cut == Pow2(e) && hi - cut == Pow2(e + 1)
  {
    q := count / 2;
    cut := Shl(q, e + 1);
    assert count == 2 * q + 1;
    ShlOdd(q, e);
    ShlOnce(1, e);
  }

  /** Two equally large perfect subtrees side by side form the next larger one. */
  lemma MthOfTwins(sha: Sha, leaves: seq<Hash>, lo: nat, mid: nat, hi: nat, e: nat)
    requires lo < mid < hi <= |leaves| && mid - lo == hi - mid == Pow2(e)
    ensures HashChildren(sha, Mth(sha, leaves, lo, mid), Mth(sha, leaves, mid, hi)) == Mth(sha, leaves, lo, hi)
  {
    ShlAtLeast(1, e);
    SplitPointUnique(hi - lo, e);
    MthSplit(sha, leaves, lo, mid, hi);
  }

  lemma DoubleShift(count: nat, e: nat)
    requires count % 2 == 0
    ensures Shl(count, e) == Shl(count / 2, e + 1)
  {
    ShlAdd(count / 2, count / 2, e);
  }

  lemma FoldCons(sha: Sha, first: Hash, rest: seq<Hash>)
    requires rest != []
    ensures FoldPeaks(sha, [first] + rest) == HashChildren(sha, first, FoldPeaks(sha, rest))
  {
    assert ([first] + rest)[1..] == rest;
  }

  /** A tree whose leaves are more than its first peak. */
  lemma SplitAtPeak(sha: Sha, leaves: seq<Hash>, lo: nat, k: nat, hi: nat)
    requires lo < k < hi <= |leaves| && k == lo + TopPow2(hi - lo)
    ensures Mth(sha, leaves, lo, hi) == HashChildren(sha, Mth(sha, leaves, lo, k), Mth(sha, leaves, k, hi))
  {
    var e := Log2(hi - lo);
    assert k == lo + Pow2(e);
    SplitPointUnique(hi - lo, e);
    MthSplit(sha, leaves, lo, k, hi);
  }

  /** Folding the peaks of a list is its tree hash. */
  lemma {:induction false} FoldPeaksIsMth(sha: Sha, leaves: seq<Hash>, lo: nat, hi: nat)
    requires lo < hi <= |leaves|
    ensures |Peaks(sha, leaves, lo, hi)| > 0
    ensures FoldPeaks(sha, Peaks(sha, leaves, lo, hi)) == Mth(sha, leaves, lo, hi)
    decreases hi - lo
  {
    var k := lo + TopPow2(hi - lo);
    PeaksStep(sha, leaves, lo, k, hi);
    if k < hi {
      SplitAtPeak(sha, leaves, lo, k, hi);
      FoldPeaksIsMth(sha, leaves, k, hi);
      FoldCons(sha, Mth(sha, leaves, lo, k), Peaks(sha, leaves, k, hi));
    }
  }

  /**
    A state of merging: `stack` holds the peaks before `cut`, which are `count`
    blocks of `Pow2(level)` leaves, and `node` is the hash of the next such block.
   */
  ghost predicate Merging(sha: Sha, leaves: seq<Hash>, stack: seq<Hash>, node: Hash, count: nat, cut: nat, level: nat) {
    && cut < |leaves| && cut == Shl(count, level) && |leaves| - cut == Pow2(level)
    && stack == Peaks(sha, leaves, 0, cut) && node == Mth(sha, leaves, cut, |leaves|)
  }

  lemma MergeStep(sha: Sha, leaves: seq<Hash>, stack: seq<Hash>, node: Hash, count: nat, cut: nat, level: nat)
    requires Merging(sha, leaves, stack, node, count, cut, level) && count % 2 == 1
    ensures |stack| > 0
    ensures var top := |stack| - 1;
            Merging(sha, leaves, stack[..top], HashChildren(sha, stack[top], node), count / 2,
                    Shl(count / 2, level + 1), level + 1)
  {
    var cut' := MergeBlocks(sha, leaves, cut, |leaves|, count, level);
  }

  lemma MergeEnds(sha: Sha, leaves: seq<Hash>, stack: seq<Hash>, node: Hash, count: nat, cut: nat, level: nat)
    requires Merging(sha, leaves, stack, node, count, cut, level) && count % 2 == 0
    ensures stack + [node] == Peaks(sha, leaves, 0, |leaves|)
  {
    DoubleShift(count, level);
    PeaksExtend(sha, leaves, 0, cut, |leaves|, count / 2, level + 1);
  }

  class CompactRange {
    var hashes: seq<Hash>
    var end: nat
    ghost var leaves: seq<Hash>
    const sha: Sha

    ghost predicate Valid()
      reads this
    {
      end == |leaves| && hashes == Peaks(sha, leaves, 0, end)
    }

    /** An empty range at zero. */
    constructor (sha: Sha)
      ensures Valid() && this.sha == sha && leaves == []
    {
      hashes, end, leaves := [], 0, [];
      this.sha := sha;
    }

    /** Appends the next leaf, merging equally large subtrees. */
    method Append(leaf: Hash)
      requires Valid()
      modifies this
      ensures Valid() && leaves == old(leaves) + [leaf]
    {
      ghost var grown := leaves + [leaf];
      PeaksOfGrown(sha, leaves, leaf);
      var stack := MergeLeaf(leaf, grown);
      hashes, end, leaves := stack, end + 1, grown;
    }

    /** The peaks with one more leaf: every low one bit of the size is a merge. */
    method MergeLeaf(leaf: Hash, ghost grown: seq<Hash>) returns (stack: seq<Hash>)
      requires |grown| == end + 1 && grown[end] == leaf
      requires hashes == Peaks(sha, grown, 0, end)
      ensures stack == Peaks(sha, grown, 0, end + 1)
    {
      stack := hashes;
      var node, count := leaf, end;
      ghost var level := 0;
      while count % 2 == 1
        invariant Merging(sha, grown, stack, node, count, Shl(count, level), level)
        decreases count
      {
        MergeStep(sha, grown, stack, node, count, Shl(count, level), level);
        node := HashChildren(sha, stack[|stack| - 1], node);
        stack := stack[..|stack| - 1];
        count := count / 2;
        level := level + 1;
      }
      MergeEnds(sha, grown, stack, node, count, Shl(count, level), level);
      stack := stack + [node];
    }

    /** The root hash: the peaks folded from the smallest up. */
    method GetRootHash() returns (root: Hash)
      requires Valid() && leaves != []
      ensures root == RootOf(sha, leaves)
    {
      FoldPeaksIsMth(sha, leaves, 0, end);
      var i := |hashes| - 1;
      root := hashes[i];
      while i > 0
        invariant 0 <= i < |hashes|
        invariant root == FoldPeaks(sha, hashes[i..])
      {
        i := i - 1;
        root := HashChildren(sha, hashes[i], root);
        assert hashes[i..][1..] == hashes[i + 1..];
      }
      assert hashes[0..] == hashes;
    }
  }
}
