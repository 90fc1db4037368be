/**
  The node list of a consistency proof, hashed and with its ephemeral node
  folded, is the recursive proof of section 2.1.2 of RFC 6962; and every node in
  it lies inside the tree.
 */
module ProofRefinement {
  import opened Hashing
  import opened Binary
  import opened Rfc6962
  import opened CompactRanges
  import opened ProofNodes

  /** Every listed subtree ends inside the first `n` leaves. */
  ghost predicate AllInside(ids: seq<NodeID>, n: nat) {
    forall i :: 0 <= i < |ids| ==> ids[i].End() <= n
  }

  ghost function NodeHash(sha: Sha, leaves: seq<Hash>, id: NodeID): Hash
    requires id.End() <= |leaves|
  {
    ShlMonotone(id.index, id.index + 1, id.level);
    Mth(sha, leaves, id.Begin(), id.End())
  }

  ghost function NodeHashes(sha: Sha, leaves: seq<Hash>, ids: seq<NodeID>): (hashes: seq<Hash>)
    requires AllInside(ids, |leaves|)
    ensures |hashes| == |ids|
  {
    seq(|ids|, i requires 0 <= i < |ids| => NodeHash(sha, leaves, ids[i]))
  }

  // ---------- Peaks ----------

  /** A smaller block at an aligned position. */
  lemma AlignedBlock(pos: nat, r: nat, d: nat, level: nat) returns (q: nat)
    requires pos == Shl(r, d) && level < d
    ensures var first := NodeID(level, Shr(pos, level));
            first.Begin() == pos && first.End() == pos + Pow2(level) == Shl(q, level)
  {
    q := Shl(r, d - level) + 1;
    ShlShl(r, d - level, level);
    ShrShl(q - 1, level);
    ShlAdd(q - 1, 1, level);
  }

  lemma TopLevel(len: nat, d: nat)
    requires 0 < len < Pow2(d)
    ensures var level := BitLen(len) - 1;
            0 <= level < d && TopPow2(len) == Pow2(level) && len - Pow2(level) < Pow2(level)
  {
    var level := Log2(len);
    Log2Unique(len, level);
    if d <= level { Pow2Monotone(d, level); }
  }

  /** The first subtree of a range is aligned, and so is the rest of the range. */
  lemma RangeStep(pos: nat, len: nat, r: nat, d: nat) returns (first: NodeID, q: nat)
    requires pos == Shl(r, d) && 0 < len < Pow2(d)
    ensures var k := TopPow2(len);
            && first.Begin() == pos && first.End() == pos + k == Shl(q, first.level)
            && len - k < Pow2(first.level)
            && RangeIDs(pos, len) == [first] + RangeIDs(pos + k, len - k)
  {
    TopLevel(len, d);
    var level := BitLen(len) - 1;
    first := NodeID(level, Shr(pos, level));
    q := AlignedBlock(pos, r, d, level);
  }

  lemma AllInsideCons(ids: seq<NodeID>, n: nat)
    requires |ids| > 0 && ids[0].End() <= n && AllInside(ids[1..], n)
    ensures AllInside(ids, n)
  {
    forall i | 0 <= i < |ids|
      ensures ids[i].End() <= n
    {
      if i > 0 { assert ids[i] == ids[1..][i - 1]; }
    }
  }

  /** The nodes are inside the tree, and hash to the peaks of a range. */
  ghost predicate ArePeaks(sha: Sha, leaves: seq<Hash>, ids: seq<NodeID>, lo: nat, hi: nat)
    requires lo <= hi <= |leaves|
  {
    AllInside(ids, |leaves|) && NodeHashes(sha, leaves, ids) == Peaks(sha, leaves, lo, hi)
  }

  lemma PeaksCons(sha: Sha, leaves: seq<Hash>, id: NodeID, rest: seq<NodeID>, lo: nat, hi: nat)
    requires id.Begin() == lo < id.End() <= hi <= |leaves| && id.End() - lo == TopPow2(hi - lo)
    requires ArePeaks(sha, leaves, rest, id.End(), hi)
    ensures ArePeaks(sha, leaves, [id] + rest, lo, hi)
  {
    var ids := [id] + rest;
    assert ids[1..] == rest;
    AllInsideCons(ids, |leaves|);
    NodeHashesCons(sha, leaves, ids);
  }

  lemma {:induction false} RangeIDsArePeaks(sha: Sha, leaves: seq<Hash>, pos: nat, len: nat, r: nat, d: nat)
    requires pos == Shl(r, d) && len < Pow2(d)
    requires pos + len <= |leaves|
    ensures ArePeaks(sha, leaves, RangeIDs(pos, len), pos, pos + len)
    decreases len
  {
    if len > 0 {
      var first, q := RangeStep(pos, len, r, d);
      var k := TopPow2(len);
      RangeIDsArePeaks(sha, leaves, pos + k, len - k, q, first.level);
      PeaksCons(sha, leaves, first, RangeIDs(pos + k, len - k), pos, pos + len);
    }
  }

  lemma NodeHashesCons(sha: Sha, leaves: seq<Hash>, ids: seq<NodeID>)
    requires |ids| > 0 && AllInside(ids, |leaves|)
    ensures AllInside(ids[1..], |leaves|)
    ensures NodeHashes(sha, leaves, ids) == [NodeHash(sha, leaves, ids[0])] + NodeHashes(sha, leaves, ids[1..])
  {
  }

  lemma NodeHashesConcat(sha: Sha, leaves: seq<Hash>, a: seq<NodeID>, b: seq<NodeID>)
    requires AllInside(a, |leaves|) && AllInside(b, |leaves|)
    ensures AllInside(a + b, |leaves|)
    ensures NodeHashes(sha, leaves, a + b) == NodeHashes(sha, leaves, a) + NodeHashes(sha, leaves, b)
  {
  }

  lemma {:induction false} ReverseAt<T>(s: seq<T>, i: nat)
    requires i < |s|
    ensures Reverse(s)[i] == s[|s| - 1 - i]
  {
    if i < |s| - 1 { ReverseAt(s[1..], i); }
  }

  lemma ReverseNodeHashes(sha: Sha, leaves: seq<Hash>, ids: seq<NodeID>)
    requires AllInside(ids, |leaves|)
    ensures AllInside(Reverse(ids), |leaves|)
    ensures NodeHashes(sha, leaves, Reverse(ids)) == Reverse(NodeHashes(sha, leaves, ids))
  {
    forall i | 0 <= i < |ids|
      ensures Reverse(ids)[i] == ids[|ids| - 1 - i]
      ensures Reverse(NodeHashes(sha, leaves, ids))[i] == NodeHash(sha, leaves, ids[|ids| - 1 - i])
    {
      ReverseAt(ids, i);
      ReverseAt(NodeHashes(sha, leaves, ids), i);
    }
  }

  lemma {:induction false} FoldReversedPeaks(sha: Sha, peaks: seq<Hash>)
    requires |peaks| > 0
    ensures FoldReversed(sha, Reverse(peaks)) == FoldPeaks(sha, peaks)
  {
    if |peaks| == 1 {
      assert Reverse(peaks) == peaks;
    } else {
      FoldReversedPeaks(sha, peaks[1..]);
      var r := Reverse(peaks);
      assert r[..|r| - 1] == Reverse(peaks[1..]);
    }
  }

  // ---------- Paths ----------

  lemma PathAt(level: nat, index: nat, height: nat, t: nat)
    requires t < height
    ensures PathIDs(level, index, height)[t] == NodeID(level + t, Sibling(Shr(index, t)))
  {
  }

  /** A node, and below the top its sibling too, ends no later than its ancestor. */
  lemma BelowInside(level: nat, index: nat, height: nat)
    ensures NodeID(level, index).End() <= NodeID(level + height, Shr(index, height)).End()
    ensures height > 0 ==>
              NodeID(level, Sibling(index)).End() <= NodeID(level + height, Shr(index, height)).End()
  {
    var top := Shl(Shr(index, height) + 1, height);
    ShrBounds(index, height);
    ShlShl(Shr(index, height) + 1, height, level);
    ShlMonotone(index + 1, top, level);
    if height > 0 { ShlMonotone(Sibling(index) + 1, top, level); }
  }

  lemma SiblingInside(level: nat, index: nat, t: nat, rest: nat, height: nat)
    requires rest > 0 && height == t + rest
    ensures NodeID(level + t, Sibling(Shr(index, t))).End() <= NodeID(level + height, Shr(index, height)).End()
  {
    ShrShr(index, t, rest);
    BelowInside(level + t, Shr(index, t), rest);
  }

  /** The nodes of a path lie below the node it leads to. */
  lemma PathInside(level: nat, index: nat, height: nat)
    ensures AllInside(PathIDs(level, index, height), NodeID(level + height, Shr(index, height)).End())
  {
    var top := NodeID(level + height, Shr(index, height)).End();
    forall t | 0 <= t < height
      ensures PathIDs(level, index, height)[t].End() <= top
    {
      PathAt(level, index, height, t);
      SiblingInside(level, index, t, height - t, height);
    }
  }

  /** The node and the siblings on its path to the top of a perfect subtree. */
  ghost function SeedAndPath(level: nat, index: nat, height: nat): seq<NodeID> {
    [NodeID(level, index)] + PathIDs(level, index, height)
  }

  lemma AllInsideMonotone(ids: seq<NodeID>, m: nat, n: nat)
    requires AllInside(ids, m) && m <= n
    ensures AllInside(ids, n)
  {
  }

  lemma SeedAndPathInside(level: nat, index: nat, height: nat)
    ensures AllInside(SeedAndPath(level, index, height), NodeID(level + height, Shr(index, height)).End())
  {
    BelowInside(level, index, height);
    PathInside(level, index, height);
  }

  /** The hashes of the listed nodes are the recursive proof for a range of leaves. */
  ghost predicate RangeProves(sha: Sha, leaves: seq<Hash>, ids: seq<NodeID>, m: nat, lo: nat, hi: nat) {
    && lo < m <= hi <= |leaves| && AllInside(ids, |leaves|)
    && NodeHashes(sha, leaves, ids) == SubProof(sha, leaves, m, lo, hi, false)
  }

  /** The path from a node to the top of a perfect subtree is the recursive proof, with the node itself in front. */
  ghost predicate PathProves(sha: Sha, leaves: seq<Hash>, level: nat, index: nat, height: nat) {
    var top := NodeID(level + height, Shr(index, height));
    RangeProves(sha, leaves, SeedAndPath(level, index, height), NodeID(level, index).End(), top.Begin(), top.End())
  }

  lemma PathOfNode(sha: Sha, leaves: seq<Hash>, level: nat, index: nat)
    requires NodeID(level, index).End() <= |leaves|
    ensures PathProves(sha, leaves, level, index, 0)
  {
    ShlMonotone(index, index + 1, level);
    SeedAndPathInside(level, index, 0);
    AllInsideMonotone(SeedAndPath(level, index, 0), NodeID(level, index).End(), |leaves|);
  }

  /** A proof for one half of a range, and the hash of the other half. */
  lemma ProofGrows(sha: Sha, leaves: seq<Hash>, ids: seq<NodeID>, child: NodeID, other: NodeID,
                   lo: nat, mid: nat, hi: nat, m: nat)
    requires lo < mid < hi <= |leaves| && SplitPoint(hi - lo) == mid - lo
    requires AreHalves(child, other, lo, mid, hi, m)
    requires RangeProves(sha, leaves, ids, m, child.Begin(), child.End())
    ensures RangeProves(sha, leaves, ids + [other], m, lo, hi)
  {
    AllInsideConcat(ids, [other], |leaves|);
    NodeHashesConcat(sha, leaves, ids, [other]);
    OneNodeHash(sha, leaves, other);
    if m <= mid {
      SubProofLeft(sha, leaves, m, lo, mid, hi, false);
    } else {
      SubProofRight(sha, leaves, m, lo, mid, hi, false);
    }
  }

  lemma OneNodeHash(sha: Sha, leaves: seq<Hash>, id: NodeID)
    requires id.End() <= |leaves|
    ensures AllInside([id], |leaves|) && NodeHashes(sha, leaves, [id]) == [NodeHash(sha, leaves, id)]
  {
    assert [id][0] == id;
  }

  /** One level up, the path has the sibling of the child on it in addition. */
  lemma SeedAndPathStep(level: nat, index: nat, height: nat)
    requires height > 0
    ensures SeedAndPath(level, index, height)
         == SeedAndPath(level, index, height - 1) + [NodeID(level + height - 1, Sibling(Shr(index, height - 1)))]
  {
    PathAt(level, index, height, height - 1);
  }

  /** One level up, the sibling's hash is the next hash of the proof. */
  lemma PathStep(sha: Sha, leaves: seq<Hash>, level: nat, index: nat, height: nat)
    requires height > 0 && index % 2 == 0
    requires NodeID(level + height, Shr(index, height)).End() <= |leaves|
    requires PathProves(sha, leaves, level, index, height - 1)
    ensures PathProves(sha, leaves, level, index, height)
  {
    var lo, mid, hi := PerfectStep(level, index, height);
    var child := NodeID(level + height - 1, Shr(index, height - 1));
    SeedAndPathStep(level, index, height);
    ProofGrows(sha, leaves, SeedAndPath(level, index, height - 1), child, NodeID(child.level, Sibling(child.index)),
               lo, mid, hi, NodeID(level, index).End());
  }

  lemma {:induction false} PerfectPath(sha: Sha, leaves: seq<Hash>, level: nat, index: nat, height: nat)
    requires index % 2 == 0
    requires NodeID(level + height, Shr(index, height)).End() <= |leaves|
    ensures PathProves(sha, leaves, level, index, height)
    decreases height
  {
    if height == 0 {
      PathOfNode(sha, leaves, level, index);
    } else {
      BelowInside(level + height - 1, Shr(index, height - 1), 1);
      PerfectPath(sha, leaves, level, index, height - 1);
      PathStep(sha, leaves, level, index, height);
    }
  }

  lemma AllInsideConcat(a: seq<NodeID>, b: seq<NodeID>, n: nat)
    ensures AllInside(a + b, n) <==> AllInside(a, n) && AllInside(b, n)
  {
    if AllInside(a + b, n) {
      assert forall i :: 0 <= i < |a| ==> a[i] == (a + b)[i];
      assert forall i :: 0 <= i < |b| ==> b[i] == (a + b)[|a| + i];
    }
  }

  /** Two nodes are the halves of a range, and the old size lies in the half of `child`. */
  ghost predicate AreHalves(child: NodeID, other: NodeID, lo: nat, mid: nat, hi: nat, m: nat) {
    || (child.Begin() == lo && child.End() == mid == other.Begin() && other.End() == hi && m <= mid)
    || (other.Begin() == lo && other.End() == mid == child.Begin() && child.End() == hi && mid < m < hi)
  }

  /**
    One level up: a node's child on the path and the sibling of that child are
    the two halves, and the old size lies in the child's half.
   */
  lemma PerfectStep(level: nat, index: nat, height: nat) returns (lo: nat, mid: nat, hi: nat)
    requires height > 0 && index % 2 == 0
    ensures var top := NodeID(level + height, Shr(index, height));
            && top.Begin() == lo < mid < hi == top.End()
            && SplitPoint(hi - lo) == mid - lo
    ensures var child := NodeID(level + height - 1, Shr(index, height - 1));
            AreHalves(child, NodeID(child.level, Sibling(child.index)), lo, mid, hi, NodeID(level, index).End())
  {
    var h := level + height - 1;
    var below := Shr(index, height - 1);
    lo, mid, hi := TwinBlocks(below / 2, h);
    BelowInside(level, index, height - 1);
    if below % 2 == 1 { OddEndInside(level, index, height); }
  }

  /** A block and its two halves. */
  lemma TwinBlocks(p: nat, h: nat) returns (lo: nat, mid: nat, hi: nat)
    ensures lo == Shl(2 * p, h) == Shl(p, h + 1) && mid == Shl(2 * p + 1, h)
    ensures hi == Shl(2 * p + 2, h) == Shl(p + 1, h + 1)
    ensures lo < mid < hi && SplitPoint(hi - lo) == mid - lo
  {
    lo, mid, hi := Shl(2 * p, h), Shl(2 * p + 1, h), Shl(2 * p + 2, h);
    DoubleShift(2 * p, h);
    DoubleShift(2 * p + 2, h);
    ShlAdd(2 * p, 1, h);
    ShlAdd(2 * p + 1, 1, h);
    ShlAtLeast(1, h);
    SplitPointUnique(2 * Pow2(h), h);
  }

  /** An even node in the right half neither reaches the left half nor the end. */
  lemma OddEndInside(level: nat, index: nat, height: nat)
    requires height > 0 && index % 2 == 0 && Shr(index, height - 1) % 2 == 1
    ensures NodeID(level + height - 1, Shr(index, height - 1)).Begin() < NodeID(level, index).End()
         < NodeID(level + height, Shr(index, height)).End()
  {
    var e := height - 1;
    assert e > 0;
    BeginsBefore(level, index, e);
    EndsBefore(level, index, e);
    DoubleShift(Shr(index, e) + 1, level + e);
  }

  lemma BeginsBefore(level: nat, index: nat, e: nat)
    ensures Shl(Shr(index, e), level + e) < Shl(index + 1, level)
  {
    ShrBounds(index, e);
    ShlShl(Shr(index, e), e, level);
    ShlMonotone(Shl(Shr(index, e), e), index + 1, level);
  }

  lemma EndsBefore(level: nat, index: nat, e: nat)
    requires e > 0 && index % 2 == 0
    ensures Shl(index + 1, level) < Shl(Shr(index, e) + 1, level + e)
  {
    var next := Shr(index, e) + 1;
    ShrBounds(index, e);
    ShlOnce(next, e - 1);
    ShlMonotone(index + 1, Shl(next, e), level);
    ShlShl(next, e, level);
  }

  // ---------- The fork ----------

  lemma ForkUnique(a: nat, b: nat, f: nat, g: nat)
    requires IsFork(a, b, f) && IsFork(a, b, g)
    ensures f == g
  {
    var low, high := if f < g then f else g, if f < g then g else f;
    if low < high {
      assert Shr(a, low + 1) == Shr(b, low + 1);
      ShrShr(a, low + 1, high - low - 1);
      ShrShr(b, low + 1, high - low - 1);
    }
  }

  /** The ancestor of a node at the height of an aligned block it lies in. */
  lemma InBlock(level: nat, index: nat, c: nat, h: nat)
    requires level <= h && Shl(c, h) < Shl(index + 1, level) <= Shl(c + 1, h)
    ensures Shr(index, h - level) == c
  {
    var e := h - level;
    ShlShl(c, e, level);
    ShlShl(c + 1, e, level);
    if index + 1 <= Shl(c, e) { ShlMonotone(index + 1, Shl(c, e), level); }
    if Shl(c + 1, e) < index + 1 { ShlMonotone(Shl(c + 1, e), index + 1, level); }
    ShrUnique(index, c, e);
  }

  /** A multiple of `Pow2(level)` strictly inside an aligned block: the block is larger. */
  lemma LevelBelowBlock(level: nat, x: nat, c: nat, h: nat)
    requires Shl(c, h) < Shl(x, level) < Shl(c + 1, h)
    ensures level < h
  {
    if h <= level {
      var y := Shl(x, level - h);
      ShlShl(x, level - h, h);
      if y <= c { ShlMonotone(y, c, h); } else { ShlMonotone(c + 1, y, h); }
    }
  }

  /** The fork of a node is above it, and found from the xor of the two paths. */
  ghost predicate ForkAbove(n: nat, node: NodeID, fork: NodeID) {
    IsAncestor(fork, node) && IsFork(node.index, Shr(n, node.level), fork.level - node.level)
  }

  /** A node that ends inside a range is no larger than the halves of the range. */
  lemma LevelInRange(node: NodeID, lo: nat, j: nat, c: nat)
    requires lo == Shl(c, j + 1) && lo < node.End() < lo + 2 * Pow2(j)
    ensures node.level <= j
  {
    Blocks(c, j + 1, lo);
    HalfBlock(c, j);
    LevelBelowBlock(node.level, node.index + 1, c, j + 1);
  }

  /** The range is all of a perfect subtree. */
  lemma ForkWhole(n: nat, node: NodeID, fork: NodeID, lo: nat, j: nat, c: nat)
    requires lo == Shl(c, j + 1) && n == lo + 2 * Pow2(j) && c % 2 == 0
    requires ForkAbove(n, node, fork) && lo < node.End() < n
    ensures fork.Begin() == lo && fork.End() == n
  {
    LevelInRange(node, lo, j, c);
    Blocks(c, j + 1, lo);
    HalfBlock(c, j);
    ForkIsBlock(n, node, fork, c, j + 1);
  }

  /** The node is in the left half of the range, which is the fork. */
  lemma ForkLeft(n: nat, node: NodeID, fork: NodeID, lo: nat, j: nat, c: nat)
    requires lo == Shl(c, j) && c % 2 == 0 && Pow2(j) < n - lo < 2 * Pow2(j)
    requires ForkAbove(n, node, fork) && lo < node.End() <= lo + Pow2(j) && node.level <= j
    ensures fork.Begin() == lo && fork.End() == lo + Pow2(j)
  {
    Blocks(c, j, lo);
    ForkIsBlock(n, node, fork, c, j);
  }

  /** The node is in the right part of the range. */
  lemma ForkRightOf(n: nat, node: NodeID, fork: NodeID, lo: nat, j: nat, c: nat)
    requires lo == Shl(c, j) && Pow2(j) < n - lo < 2 * Pow2(j)
    requires ForkAbove(n, node, fork) && lo + Pow2(j) < node.End() < n && node.level <= j
    ensures lo + Pow2(j) <= fork.Begin() < node.End()
  {
    Blocks(c, j, lo);
    ForkInBlock(n, node, fork, c + 1, j);
  }

  /**
    Where the fork is, for an aligned range that starts at `lo` and reaches to the
    end of the tree, with its first half of `Pow2(j)` leaves.
   */
  lemma ForkPosition(n: nat, node: NodeID, fork: NodeID, lo: nat, j: nat, c: nat)
    requires lo == Shl(c, j + 1) && Pow2(j) < n - lo <= 2 * Pow2(j)
    requires n == lo + 2 * Pow2(j) ==> c % 2 == 0
    requires ForkAbove(n, node, fork)
    requires lo < node.End() < n
    ensures var m, mid := node.End(), lo + Pow2(j);
            && (n == lo + 2 * Pow2(j) ==> fork.Begin() == lo && fork.End() == n)
            && (n < lo + 2 * Pow2(j) && m <= mid ==> fork.Begin() == lo && fork.End() == mid)
            && (n < lo + 2 * Pow2(j) && m > mid ==> mid <= fork.Begin() < m)
  {
    if n == lo + 2 * Pow2(j) {
      ForkWhole(n, node, fork, lo, j, c);
    } else {
      LevelInRange(node, lo, j, c);
      HalfBlock(c, j);
      if node.End() <= lo + Pow2(j) {
        ForkLeft(n, node, fork, lo, j, 2 * c);
      } else {
        ForkRightOf(n, node, fork, lo, j, 2 * c);
      }
    }
  }

  lemma ForkIsBlock(n: nat, node: NodeID, fork: NodeID, c: nat, h: nat)
    requires ForkAbove(n, node, fork)
    requires node.level <= h && c % 2 == 0
    requires Shl(c, h) < node.End() <= Shl(c + 1, h) <= n < Shl(c + 2, h)
    ensures fork == NodeID(h, c)
  {
    ForkAt(n, node.level, node.index, fork.level - node.level, c, h);
  }

  lemma ForkInBlock(n: nat, node: NodeID, fork: NodeID, c: nat, h: nat)
    requires ForkAbove(n, node, fork)
    requires node.level <= h && Shl(c, h) < node.End() < n < Shl(c + 1, h)
    ensures Shl(c, h) <= fork.Begin() < node.End()
  {
    ForkRight(n, node.level, node.index, fork.level - node.level, c, h);
  }

  /** The ends of neighbouring blocks. */
  lemma Blocks(c: nat, h: nat, lo: nat)
    requires lo == Shl(c, h)
    ensures Pow2(h) > 0 && Shl(c + 1, h) == lo + Pow2(h) && Shl(c + 2, h) == lo + 2 * Pow2(h)
  {
    ShlAtLeast(1, h);
    ShlAdd(c, 1, h);
    ShlAdd(c + 1, 1, h);
  }

  /** The same place, in blocks of half the size. */
  lemma HalfBlock(c: nat, j: nat)
    ensures Shl(2 * c, j) == Shl(c, j + 1) && Pow2(j + 1) == 2 * Pow2(j)
  {
    DoubleShift(2 * c, j);
  }

  /** The fork is the block that holds the node, when that block is the last left one. */
  lemma ForkAt(n: nat, level: nat, a: nat, f: nat, c: nat, h: nat)
    requires level <= h && c % 2 == 0
    requires Shl(c, h) < NodeID(level, a).End() <= Shl(c + 1, h) <= n < Shl(c + 2, h)
    requires IsFork(a, Shr(n, level), f)
    ensures level + f == h && Shr(a, f) == c
  {
    InBlock(level, a, c, h);
    ShrUnique(n, c + 1, h);
    ShrShr(n, level, h - level);
    ForkUnique(a, Shr(n, level), f, h - level);
  }

  /** The fork lies in the block that holds both the node and the end of the tree. */
  lemma ForkRight(n: nat, level: nat, a: nat, f: nat, c: nat, h: nat)
    requires level <= h
    requires Shl(c, h) < NodeID(level, a).End() < n < Shl(c + 1, h)
    requires IsFork(a, Shr(n, level), f)
    ensures Shl(c, h) <= NodeID(level + f, Shr(a, f)).Begin() < NodeID(level, a).End()
  {
    var e := h - level;
    InBlock(level, a, c, h);
    ShrUnique(n, c, h);
    ShrShr(n, level, e);
    if e <= f {
      ShrShr(a, e, f - e);
      ShrShr(Shr(n, level), e, f - e);
      assert false;
    }
    ShrShr(a, f, e - f);
    ShrBounds(Shr(a, f), e - f);
    ShlMonotone(Shl(c, e - f), Shr(a, f), level + f);
    ShlShl(c, e - f, level + f);
    ShrBounds(a, f);
    ShlShl(Shr(a, f), f, level);
    ShlMonotone(Shl(Shr(a, f), f), a + 1, level);
  }

  // ---------- The whole proof ----------

  /** `fork` is the ancestor of `node` at its level. */
  ghost predicate IsAncestor(fork: NodeID, node: NodeID) {
    node.level <= fork.level && fork.index == Shr(node.index, fork.level - node.level)
  }

  /** The nodes on the path from `node` up to its ancestor. */
  ghost function PathTo(node: NodeID, fork: NodeID): seq<NodeID>
    requires node.level <= fork.level
  {
    SeedAndPath(node.level, node.index, fork.level - node.level)
  }

  /** The fork, and with it the path up to it, lies between `lo` and `n`. */
  ghost predicate ForkInside(node: NodeID, fork: NodeID, lo: nat, n: nat) {
    && IsAncestor(fork, node)
    && AllInside(PathTo(node, fork), n)
    && lo <= fork.Begin() <= fork.End() <= n
  }

  /** The node, its path, the folded ephemeral node and the peaks to the left. */
  ghost function Assembled(sha: Sha, leaves: seq<Hash>, node: NodeID, fork: NodeID, lo: nat): seq<Hash>
    requires ForkInside(node, fork, lo, |leaves|)
  {
    NodeHashes(sha, leaves, PathTo(node, fork))
    + (if fork.End() < |leaves| then [Mth(sha, leaves, fork.End(), |leaves|)] else [])
    + Reverse(Peaks(sha, leaves, lo, fork.Begin()))
  }

  lemma {:induction false} AssembledIsProof(sha: Sha, leaves: seq<Hash>, node: NodeID, fork: NodeID,
                                            lo: nat, c: nat, d: nat)
    requires node.index % 2 == 0 && ForkInside(node, fork, 0, |leaves|)
    requires ForkAbove(|leaves|, node, fork)
    requires lo == Shl(c, d) && lo < node.End() < |leaves| < lo + Pow2(d)
    ensures ForkInside(node, fork, lo, |leaves|)
    ensures Assembled(sha, leaves, node, fork, lo) == SubProof(sha, leaves, node.End(), lo, |leaves|, false)
    decreases |leaves| - lo
  {
    var j, c', mid := ForkCases(|leaves|, node, fork, lo, c, d);
    if mid <= fork.Begin() {
      AssembledIsProof(sha, leaves, node, fork, mid, 2 * c' + 1, j);
      AssembledRight(sha, leaves, node, fork, lo, mid, j);
    } else {
      AssembledAtFork(sha, leaves, node, fork);
    }
  }

  /** The fork starts the range, or lies in its right half. */
  lemma ForkCases(n: nat, node: NodeID, fork: NodeID, lo: nat, c: nat, d: nat) returns (j: nat, c': nat, mid: nat)
    requires ForkAbove(n, node, fork)
    requires lo == Shl(c, d) && lo < node.End() < n < lo + Pow2(d)
    ensures mid == lo + Pow2(j) && lo < mid < n && SplitPoint(n - lo) == Pow2(j) && n <= lo + 2 * Pow2(j)
    ensures mid <= fork.Begin() ==>
              fork.Begin() < node.End() && mid == Shl(2 * c' + 1, j) && n < mid + Pow2(j)
    ensures mid > fork.Begin() ==>
              && fork.Begin() == lo && lo < fork.End()
              && (fork.End() == n || fork.End() - lo == SplitPoint(n - lo))
  {
    j, c' := SplitOfRange(n, lo, c, d);
    mid := lo + Pow2(j);
    ForkPosition(n, node, fork, lo, j, c');
    ShlOdd(c', j);
  }

  /** One more subtree to the left. */
  lemma AssembledRight(sha: Sha, leaves: seq<Hash>, node: NodeID, fork: NodeID, lo: nat, mid: nat, j: nat)
    requires ForkInside(node, fork, mid, |leaves|) && mid < node.End() < |leaves|
    requires Assembled(sha, leaves, node, fork, mid) == SubProof(sha, leaves, node.End(), mid, |leaves|, false)
    requires mid == lo + Pow2(j) && lo < mid && SplitPoint(|leaves| - lo) == Pow2(j)
    requires fork.Begin() < lo + 2 * Pow2(j)
    ensures ForkInside(node, fork, lo, |leaves|)
    ensures Assembled(sha, leaves, node, fork, lo) == SubProof(sha, leaves, node.End(), lo, |leaves|, false)
  {
    SubProofRight(sha, leaves, node.End(), lo, mid, |leaves|, false);
    PeaksWithFirst(sha, leaves, lo, mid, fork.Begin(), j);
  }

  /** The range that starts with the fork: nothing is left of it. */
  lemma AssembledAtFork(sha: Sha, leaves: seq<Hash>, node: NodeID, fork: NodeID)
    requires node.index % 2 == 0 && ForkInside(node, fork, 0, |leaves|)
    requires var n := |leaves|;
             && node.End() < n && fork.Begin() < fork.End()
             && (fork.End() == n || fork.End() - fork.Begin() == SplitPoint(n - fork.Begin()))
    ensures fork.Begin() < node.End()
    ensures Assembled(sha, leaves, node, fork, fork.Begin())
         == SubProof(sha, leaves, node.End(), fork.Begin(), |leaves|, false)
  {
    PathToProves(sha, leaves, node, fork);
    assert Reverse(Peaks(sha, leaves, fork.Begin(), fork.Begin())) == [];
    if fork.End() < |leaves| {
      SubProofLeft(sha, leaves, node.End(), fork.Begin(), fork.End(), |leaves|, false);
    }
  }

  /** The path to the fork is the recursive proof below it. */
  lemma PathToProves(sha: Sha, leaves: seq<Hash>, node: NodeID, fork: NodeID)
    requires node.index % 2 == 0 && IsAncestor(fork, node) && fork.End() <= |leaves|
    ensures RangeProves(sha, leaves, PathTo(node, fork), node.End(), fork.Begin(), fork.End())
  {
    var top := TopOf(node, fork);
    PerfectPath(sha, leaves, node.level, node.index, fork.level - node.level);
    PathProvesTo(sha, leaves, node, fork, top);
  }

  lemma TopOf(node: NodeID, fork: NodeID) returns (top: NodeID)
    requires IsAncestor(fork, node)
    ensures top == NodeID(node.level + (fork.level - node.level), Shr(node.index, fork.level - node.level))
    ensures top == fork
  {
    top := fork;
  }

  /** The same, by the names of the two nodes. */
  lemma {:induction false} PathProvesTo(sha: Sha, leaves: seq<Hash>, node: NodeID, fork: NodeID, top: NodeID)
    requires node.level <= fork.level
    requires PathProves(sha, leaves, node.level, node.index, fork.level - node.level)
    requires top == NodeID(node.level + (fork.level - node.level), Shr(node.index, fork.level - node.level))
    ensures RangeProves(sha, leaves, PathTo(node, fork), node.End(), top.Begin(), top.End())
  {
    assert node == NodeID(node.level, node.index);
  }

  /** The split of an aligned range that ends with the tree. */
  lemma SplitOfRange(n: nat, lo: nat, c: nat, d: nat) returns (j: nat, c': nat)
    requires lo == Shl(c, d) && lo + 1 < n < lo + Pow2(d)
    ensures SplitPoint(n - lo) == Pow2(j) && lo == Shl(c', j + 1)
    ensures n == lo + 2 * Pow2(j) ==> c' % 2 == 0
  {
    j := Log2(n - lo - 1);
    assert j < d by {
      if d <= j { Pow2Monotone(d, j); }
    }
    c' := Shl(c, d - j - 1);
    ShlShl(c, d - j - 1, j + 1);
    if n == lo + 2 * Pow2(j) { EvenShift(c, d, j); }
  }

  lemma EvenShift(c: nat, d: nat, j: nat)
    requires 2 * Pow2(j) < Pow2(d)
    ensures j + 1 < d && Shl(c, d - j - 1) % 2 == 0
  {
    ShlOnce(1, j);
    if d <= j + 1 { Pow2Monotone(d, j + 1); }
    ShlOnce(c, d - j - 2);
    assert d - j - 2 + 1 == d - j - 1;
  }

  lemma PeaksWithFirst(sha: Sha, leaves: seq<Hash>, lo: nat, mid: nat, hi: nat, j: nat)
    requires mid == lo + Pow2(j) <= hi < lo + 2 * Pow2(j) && hi <= |leaves|
    ensures lo <= hi
    ensures Reverse(Peaks(sha, leaves, lo, hi)) == Reverse(Peaks(sha, leaves, mid, hi)) + [Mth(sha, leaves, lo, mid)]
  {
    Log2Unique(hi - lo, j);
    assert Peaks(sha, leaves, lo, hi)[1..] == Peaks(sha, leaves, mid, hi);
  }

  // ---------- From node ids to the proof ----------

  lemma ReversedPeaks(sha: Sha, leaves: seq<Hash>, ids: seq<NodeID>, lo: nat, hi: nat)
    requires lo <= hi <= |leaves| && ArePeaks(sha, leaves, ids, lo, hi)
    ensures AllInside(Reverse(ids), |leaves|)
    ensures NodeHashes(sha, leaves, Reverse(ids)) == Reverse(Peaks(sha, leaves, lo, hi))
  {
    ReverseNodeHashes(sha, leaves, ids);
  }

  /** The peaks of the ephemeral node fold into its hash. */
  lemma EphemeralHash(sha: Sha, leaves: seq<Hash>, pos: nat, end: nat)
    requires pos < end <= |leaves|
    ensures |Reverse(Peaks(sha, leaves, pos, end))| > 0
    ensures FoldReversed(sha, Reverse(Peaks(sha, leaves, pos, end))) == Mth(sha, leaves, pos, end)
  {
    FoldPeaksIsMth(sha, leaves, pos, end);
    FoldReversedPeaks(sha, Peaks(sha, leaves, pos, end));
  }

  lemma RehashParts(sha: Sha, path: seq<Hash>, right: seq<Hash>, left: seq<Hash>)
    ensures Rehash(sha, path + right + left, |path|, |path| + |right|)
         == path + (if right == [] then [] else [FoldReversed(sha, right)]) + left
  {
    var all := path + right + left;
    assert all[..|path|] == path;
    assert all[|path|..|path| + |right|] == right;
    assert all[|path| + |right|..] == left;
  }

  /** A node list whose nodes are in a tree of `n` leaves and whose fold is not its first node. */
  ghost predicate Usable(nodes: Nodes, n: nat) {
    && AllInside(nodes.ids, n)
    && nodes.begin <= nodes.end <= |nodes.ids|
    && (nodes.begin == 0 <==> nodes.begin == nodes.end)
  }

  /** The hashes of a node list with the ephemeral node folded. */
  ghost function ProofHashes(sha: Sha, leaves: seq<Hash>, nodes: Nodes): seq<Hash>
    requires Usable(nodes, |leaves|)
  {
    Rehash(sha, NodeHashes(sha, leaves, nodes.ids), nodes.begin, nodes.end)
  }

  /** A path up to a fork, with what lies right and left of the fork. */
  lemma PartsRehash(sha: Sha, leaves: seq<Hash>, path: seq<NodeID>, fork: NodeID)
    requires |path| > 0 && AllInside(path, |leaves|)
    requires fork.End() <= |leaves| < fork.End() + Pow2(fork.level)
    ensures fork.Begin() <= fork.End()
    ensures var nodes := WithEphemeral(path, Reverse(RangeIDs(fork.End(), |leaves| - fork.End())),
                                       Reverse(RangeIDs(0, fork.Begin())));
            && Usable(nodes, |leaves|)
            && ProofHashes(sha, leaves, nodes)
            == NodeHashes(sha, leaves, path)
             + (if fork.End() < |leaves| then [Mth(sha, leaves, fork.End(), |leaves|)] else [])
             + Reverse(Peaks(sha, leaves, 0, fork.Begin()))
  {
    ShlMonotone(fork.index, fork.index + 1, fork.level);
    RightPart(sha, leaves, fork.End(), fork.index + 1, fork.level);
    LeftPart(sha, leaves, fork.Begin());
    FoldEphemeral(sha, leaves, path, Reverse(RangeIDs(fork.End(), |leaves| - fork.End())),
                  Reverse(RangeIDs(0, fork.Begin())));
  }

  lemma LeftPart(sha: Sha, leaves: seq<Hash>, end: nat)
    requires end <= |leaves|
    ensures AllInside(Reverse(RangeIDs(0, end)), |leaves|)
    ensures NodeHashes(sha, leaves, Reverse(RangeIDs(0, end))) == Reverse(Peaks(sha, leaves, 0, end))
  {
    ShlZero(end);
    Pow2AtLeast(end);
    RangeIDsArePeaks(sha, leaves, 0, end, 0, end);
    ReversedPeaks(sha, leaves, RangeIDs(0, end), 0, end);
  }

  lemma RightPart(sha: Sha, leaves: seq<Hash>, end: nat, r: nat, d: nat)
    requires end == Shl(r, d) && end <= |leaves| < end + Pow2(d)
    ensures var right := Reverse(RangeIDs(end, |leaves| - end));
            && AllInside(right, |leaves|)
            && (if right == [] then [] else [FoldReversed(sha, NodeHashes(sha, leaves, right))])
            == (if end < |leaves| then [Mth(sha, leaves, end, |leaves|)] else [])
  {
    var ids := RangeIDs(end, |leaves| - end);
    RangeIDsArePeaks(sha, leaves, end, |leaves| - end, r, d);
    ReversedPeaks(sha, leaves, ids, end, |leaves|);
    if end < |leaves| { EphemeralHash(sha, leaves, end, |leaves|); }
  }

  lemma FoldEphemeral(sha: Sha, leaves: seq<Hash>, path: seq<NodeID>, right: seq<NodeID>, left: seq<NodeID>)
    requires AllInside(path, |leaves|) && AllInside(right, |leaves|) && AllInside(left, |leaves|)
    requires |path| > 0
    ensures Usable(WithEphemeral(path, right, left), |leaves|)
    ensures ProofHashes(sha, leaves, WithEphemeral(path, right, left))
         == NodeHashes(sha, leaves, path)
          + (if right == [] then [] else [FoldReversed(sha, NodeHashes(sha, leaves, right))])
          + NodeHashes(sha, leaves, left)
  {
    AllInsideConcat(path, right, |leaves|);
    AllInsideConcat(path + right, left, |leaves|);
    NodeHashesConcat(sha, leaves, path, right);
    NodeHashesConcat(sha, leaves, path + right, left);
    RehashParts(sha, NodeHashes(sha, leaves, path), NodeHashes(sha, leaves, right), NodeHashes(sha, leaves, left));
  }

  lemma {:induction false} Pow2AtLeast(n: nat)
    ensures n < Pow2(n)
  {
    if n > 0 { Pow2AtLeast(n - 1); }
  }

  lemma NodeHashesTail(sha: Sha, leaves: seq<Hash>, ids: seq<NodeID>)
    requires |ids| > 0 && AllInside(ids, |leaves|)
    ensures AllInside(ids[1..], |leaves|)
    ensures NodeHashes(sha, leaves, ids[1..]) == NodeHashes(sha, leaves, ids)[1..]
  {
  }

  /** Leaving out the first hash, with the fold one place earlier. */
  lemma RehashTail(sha: Sha, all: seq<Hash>, begin: nat, end: nat)
    requires 0 < begin < end <= |all|
    ensures Rehash(sha, all, begin, end) != []
    ensures Rehash(sha, all[1..], begin - 1, end - 1) == Rehash(sha, all, begin, end)[1..]
  {
    assert all[1..][..begin - 1] == all[..begin][1..];
    assert all[1..][begin - 1..end - 1] == all[begin..end];
    assert all[1..][end - 1..] == all[end..];
  }

  /** The fork of a node in a tree of `n` leaves, of which the last block is to the right of the fork. */
  ghost predicate IsForkOf(fork: NodeID, node: NodeID, n: nat) {
    && ForkAbove(n, node, fork)
    && fork.End() <= n < fork.End() + Pow2(fork.level)
  }

  lemma ForkOfNode(m: nat, n: nat)
    requires 0 < m < n
    ensures var node := NodeBefore(m);
            && node.index % 2 == 0 && node.End() == m && (node.index == 0 <==> IsPow2(m))
            && ForkHeight(node.index, node.level, n) >= 0 && IsForkOf(ForkOf(node, n), node, n)
  {
    ForkInTree(m, n);
  }

  /** The nodes of a proof, hashed and folded, are the path and the peaks beside it. */
  lemma InclusionIsAssembled(sha: Sha, leaves: seq<Hash>, node: NodeID, fork: NodeID)
    requires IsForkOf(fork, node, |leaves|)
    ensures ForkInside(node, fork, 0, |leaves|)
    ensures Usable(InclusionNodes(node, fork, |leaves|), |leaves|)
    ensures ProofHashes(sha, leaves, InclusionNodes(node, fork, |leaves|)) == Assembled(sha, leaves, node, fork, 0)
  {
    PathToInside(node, fork, |leaves|);
    PartsRehash(sha, leaves, PathTo(node, fork), fork);
  }

  /** The node that ends at `m`, its path to the fork and the rest are the recursive proof. */
  lemma InclusionIsProof(sha: Sha, leaves: seq<Hash>, node: NodeID, fork: NodeID)
    requires node.index % 2 == 0 && node.End() < |leaves| && IsForkOf(fork, node, |leaves|)
    ensures node.End() > 0
    ensures Usable(InclusionNodes(node, fork, |leaves|), |leaves|)
    ensures ProofHashes(sha, leaves, InclusionNodes(node, fork, |leaves|))
         == SubProof(sha, leaves, node.End(), 0, |leaves|, false)
  {
    var n := |leaves|;
    ShlAtLeast(node.index + 1, node.level);
    InclusionIsAssembled(sha, leaves, node, fork);
    ShlZero(n);
    Pow2AtLeast(n);
    AssembledIsProof(sha, leaves, node, fork, 0, 0, n);
  }

  lemma PathToInside(node: NodeID, fork: NodeID, n: nat)
    requires IsAncestor(fork, node) && fork.End() <= n
    ensures AllInside(PathTo(node, fork), n)
  {
    SeedAndPathInside(node.level, node.index, fork.level - node.level);
    assert fork == NodeID(node.level + (fork.level - node.level), Shr(node.index, fork.level - node.level));
    AllInsideMonotone(PathTo(node, fork), fork.End(), n);
  }

  /** Every node is inside the tree, and the hashes with the ephemeral node folded are the given ones. */
  ghost predicate Proves(sha: Sha, leaves: seq<Hash>, nodes: Nodes, proof: seq<Hash>) {
    && AllInside(nodes.ids, |leaves|)
    && nodes.begin <= nodes.end <= |nodes.ids|
    && Rehash(sha, NodeHashes(sha, leaves, nodes.ids), nodes.begin, nodes.end) == proof
  }

  /** Leaving out the first node leaves out the first hash. */
  lemma ProvesSkipFirst(sha: Sha, leaves: seq<Hash>, nodes: Nodes)
    requires Usable(nodes, |leaves|) && |nodes.ids| > 0
    ensures ProofHashes(sha, leaves, nodes) != []
    ensures Proves(sha, leaves, SkipFirst(nodes), ProofHashes(sha, leaves, nodes)[1..])
  {
    if nodes.begin < nodes.end {
      SkipsBeforeFold(sha, leaves, nodes.ids, nodes.begin, nodes.end);
    } else {
      SkipsUnfolded(sha, leaves, nodes.ids);
    }
  }

  lemma SkipsBeforeFold(sha: Sha, leaves: seq<Hash>, ids: seq<NodeID>, begin: nat, end: nat)
    requires AllInside(ids, |leaves|) && 0 < begin < end <= |ids|
    ensures Rehash(sha, NodeHashes(sha, leaves, ids), begin, end) != []
    ensures Proves(sha, leaves, Nodes(ids[1..], begin - 1, end - 1),
                   Rehash(sha, NodeHashes(sha, leaves, ids), begin, end)[1..])
  {
    var hashes := NodeHashes(sha, leaves, ids);
    NodeHashesTail(sha, leaves, ids);
    RehashTail(sha, hashes, begin, end);
    ProvesParts(sha, leaves, ids[1..], begin - 1, end - 1, hashes[1..], Rehash(sha, hashes, begin, end)[1..]);
  }

  lemma SkipsUnfolded(sha: Sha, leaves: seq<Hash>, ids: seq<NodeID>)
    requires |ids| > 0 && AllInside(ids, |leaves|)
    ensures Rehash(sha, NodeHashes(sha, leaves, ids), 0, 0) != []
    ensures Proves(sha, leaves, Nodes(ids[1..], 0, 0), Rehash(sha, NodeHashes(sha, leaves, ids), 0, 0)[1..])
  {
    NodeHashesTail(sha, leaves, ids);
  }

  lemma ProvesParts(sha: Sha, leaves: seq<Hash>, ids: seq<NodeID>, begin: nat, end: nat, hashes: seq<Hash>,
                    proof: seq<Hash>)
    requires AllInside(ids, |leaves|) && begin <= end <= |ids|
    requires NodeHashes(sha, leaves, ids) == hashes && Rehash(sha, hashes, begin, end) == proof
    ensures Proves(sha, leaves, Nodes(ids, begin, end), proof)
  {
  }

  /**
    The library's node list is the recursive proof: every node lies inside the
    tree, and the node hashes with the ephemeral node folded are PROOF(m, D[n]).
   */
  lemma NodesAreProof(sha: Sha, leaves: seq<Hash>, m: nat)
    requires 0 < m < |leaves|
    ensures Proves(sha, leaves, ConsistencyNodes(m, |leaves|), Proof(sha, leaves, m))
  {
    var node := NodeBefore(m);
    ForkOfNode(m, |leaves|);
    var fork := ForkOf(node, |leaves|);
    InclusionIsProof(sha, leaves, node, fork);
    SubProofKnown(sha, leaves, m, |leaves|);
    if node.index == 0 { ProvesSkipFirst(sha, leaves, InclusionNodes(node, fork, |leaves|)); }
  }
}
