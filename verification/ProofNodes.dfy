/**
  Which tree nodes a consistency proof needs, as the Merkle library lists them:
  the node that ends at the old size, the siblings on its path up to the fork
  node, the peaks to the right of the fork (which are to be folded into one
  "ephemeral" hash), and the peaks to the left of it.
 */
module ProofNodes {
  import opened Hashing
  import opened Binary

  /** A perfect subtree: it covers leaves `index << level` to `(index + 1) << level`. */
  datatype NodeID = NodeID(level: nat, index: nat) {
    function Begin(): nat { Shl(index, level) }
    function End(): nat { Shl(index + 1, level) }
  }

  /** Node ids of a proof; those from `begin` to `end` are folded into one hash. */
  datatype Nodes = Nodes(ids: seq<NodeID>, begin: nat, end: nat)

  function Sibling(index: nat): nat {
    if index % 2 == 0 then index + 1 else index - 1
  }

  function Reverse<T>(s: seq<T>): (r: seq<T>)
    ensures |r| == |s|
  {
    if s == [] then [] else Reverse(s[1..]) + [s[0]]
  }

  /** The siblings met on `height` steps up from a node, lowest first. */
  function PathIDs(level: nat, index: nat, height: nat): seq<NodeID> {
    seq(height, t requires 0 <= t => NodeID(level + t, Sibling(Shr(index, t))))
  }

  /** The perfect subtrees that cover `len` leaves from `pos`, largest first. */
  function RangeIDs(pos: nat, len: nat): seq<NodeID>
    decreases len
  {
    if len == 0 then []
    else
      var level := BitLen(len) - 1;
      BitLenBounds(len);
      [NodeID(level, Shr(pos, level))] + RangeIDs(pos + Pow2(level), len - Pow2(level))
  }

  /** How far above a node its path leaves the path to the right border of the tree. */
  function ForkHeight(index: nat, level: nat, size: nat): int {
    BitLen(Xor(index, Shr(size, level))) - 1
  }

  /** The node where the path of a node leaves the path to the right border of the tree. */
  function ForkOf(node: NodeID, size: nat): NodeID
    requires ForkHeight(node.index, node.level, size) >= 0
  {
    var inner := ForkHeight(node.index, node.level, size);
    NodeID(node.level + inner, Shr(node.index, inner))
  }

  /** The nodes that prove a node to be in a tree of the given size, given its fork. */
  function InclusionNodes(node: NodeID, fork: NodeID, size: nat): Nodes
    requires node.level <= fork.level && fork.End() <= size
  {
    var path := [node] + PathIDs(node.level, node.index, fork.level - node.level);
    var right := Reverse(RangeIDs(fork.End(), size - fork.End()));
    var left := Reverse(RangeIDs(0, fork.Begin()));
    WithEphemeral(path, right, left)
  }

  /** A node list whose middle part is the ephemeral node, if it is not empty. */
  function WithEphemeral(path: seq<NodeID>, right: seq<NodeID>, left: seq<NodeID>): Nodes {
    var len1, len2 := |path|, |path| + |right|;
    if len1 < len2
    then Nodes(path + right + left, len1, len2)
    else Nodes(path + right + left, 0, 0)
  }

  /** The first node is left out when the receiver is sure to know it. */
  function SkipFirst(nodes: Nodes): Nodes
    requires |nodes.ids| > 0 && (nodes.begin < nodes.end ==> nodes.begin > 0)
  {
    if nodes.begin < nodes.end
    then Nodes(nodes.ids[1..], nodes.begin - 1, nodes.end - 1)
    else Nodes(nodes.ids[1..], nodes.begin, nodes.end)
  }

  /** The largest perfect subtree that ends at `m`. */
  function NodeBefore(m: nat): NodeID
    requires m > 0
  {
    var level := TrailingZeros(m);
    NodeID(level, Shr(m - 1, level))
  }

  /** The nodes of the proof that a tree of size `m` is a prefix of one of size `n`. */
  function ConsistencyNodes(m: nat, n: nat): Nodes
    requires 0 < m < n
  {
    ForkInTree(m, n);
    var node := NodeBefore(m);
    var nodes := InclusionNodes(node, ForkOf(node, n), n);
    if node.index == 0 then SkipFirst(nodes) else nodes
  }

  /** Folding reversed peaks, smallest first. */
  function FoldReversed(sha: Sha, hashes: seq<Hash>): Hash
    requires |hashes| > 0
  {
    if |hashes| == 1 then hashes[0]
    else HashChildren(sha, hashes[|hashes| - 1], FoldReversed(sha, hashes[..|hashes| - 1]))
  }

  /** The hashes of a proof, given those of its nodes. */
  function Rehash(sha: Sha, hashes: seq<Hash>, begin: nat, end: nat): seq<Hash>
    requires begin <= end <= |hashes|
  {
    if begin < end
    then hashes[..begin] + [FoldReversed(sha, hashes[begin..end])] + hashes[end..]
    else hashes
  }

  /**
    The fork: the node's ancestor and the right border's are neighbours, and the
    node's is the left one of a pair.
   */
  predicate IsFork(a: nat, b: nat, f: nat) {
    Shr(a, f) % 2 == 0 && Shr(b, f) == Shr(a, f) + 1
  }

  lemma {:induction false} ForkOfXor(a: nat, b: nat)
    requires a < b
    ensures BitLen(Xor(a, b)) > 0 && IsFork(a, b, BitLen(Xor(a, b)) - 1)
    decreases b
  {
    if a / 2 == b / 2 {
      XorSelf(a / 2);
      assert Xor(a, b) == 1 && BitLen(1) == 1 + BitLen(0) == 1;
      assert Shr(a, 0) == a && Shr(b, 0) == b;
    } else {
      XorPositive(a / 2, b / 2);
      ForkOfXor(a / 2, b / 2);
      var f := BitLen(Xor(a / 2, b / 2)) - 1;
      assert Xor(a, b) / 2 == Xor(a / 2, b / 2);
      ShrHalf(a, f);
      ShrHalf(b, f);
    }
  }

  lemma {:induction false} XorPositive(a: nat, b: nat)
    requires a != b
    ensures Xor(a, b) > 0
    decreases a + b
  {
    if a / 2 != b / 2 { XorPositive(a / 2, b / 2); }
  }

  /** The largest perfect subtree that ends at `m`: a left one of a pair, and the first one for a power of two. */
  lemma EndsAt(m: nat, l: nat, a: nat)
    requires m > 0 && l == TrailingZeros(m) && a == Shr(m - 1, l)
    ensures a % 2 == 0 && Shl(a + 1, l) == m && (a == 0 <==> IsPow2(m))
  {
    TrailingZerosSplit(m);
    ShlMonotone(1, a + 1, l);
  }

  /** A block that ends before `n` lies left of the border. */
  lemma LeftOfBorder(a: nat, l: nat, n: nat)
    requires Shl(a + 1, l) < n
    ensures a < Shr(n, l)
  {
    ShrBounds(n, l);
    if Shr(n, l) <= a { ShlMonotone(Shr(n, l) + 1, a + 1, l); }
  }

  /** The block before the border's ends in the tree, and what is right of it is smaller. */
  lemma BeforeBorder(n: nat, l: nat, f: nat, q: nat)
    requires Shr(Shr(n, l), f) == q + 1
    ensures Shl(q + 1, l + f) <= n < Shl(q + 1, l + f) + Pow2(l + f)
  {
    var e := l + f;
    ShrShr(n, l, f);
    ShrBounds(n, e);
    ShlAdd(q + 1, 1, e);
  }

  /** The fork of a consistency proof is in the tree, and what is right of it is small. */
  lemma ForkInTree(m: nat, n: nat)
    requires 0 < m < n
    ensures var l := TrailingZeros(m); var a := Shr(m - 1, l); var f := ForkHeight(a, l, n);
            && f >= 0 && IsFork(a, Shr(n, l), f)
            && a % 2 == 0 && Shl(a + 1, l) == m
            && (a == 0 <==> IsPow2(m))
            && NodeID(l + f, Shr(a, f)).End() <= n < NodeID(l + f, Shr(a, f)).End() + Pow2(l + f)
  {
    var l := TrailingZeros(m);
    var a := Shr(m - 1, l);
    EndsAt(m, l, a);
    LeftOfBorder(a, l, n);
    ForkOfXor(a, Shr(n, l));
    var f := ForkHeight(a, l, n);
    BeforeBorder(n, l, f, Shr(a, f));
  }
}
