/**
  The hash function of the tree.

  The model is about every function from byte strings to 32-byte strings, not
  about SHA-256 in particular, so a theorem cannot assume that the function is
  injective: none is.  What a theorem assumes instead, where it has to, is that
  the strings that were really hashed contain no collision (`CollisionFree`).
 */
module Hashing {

  /** A byte; text literals of ASCII characters are byte strings. */
  type byte = c: char | c as int < 256 witness '\0'
  type bytes = seq<byte>

  const HashSize := 32

  type Digest = d: bytes | |d| == HashSize witness seq(HashSize, _ => '\0')

  /** A tree node hash. */
  datatype Hash = Hash(digest: Digest)

  /** A hash function, SHA-256 in the program. */
  datatype Sha = Sha(sum: bytes -> Hash)

  /** The string hashed for a leaf: a zero byte and the entry. */
  function LeafInput(data: bytes): bytes {
    ['\0'] + data
  }

  /** The string hashed for an interior node: a one byte and both children. */
  function NodeInput(left: Hash, right: Hash): bytes {
    [1 as char] + left.digest + right.digest
  }

  function HashLeaf(sha: Sha, data: bytes): Hash {
    sha.sum(LeafInput(data))
  }

  function HashChildren(sha: Sha, left: Hash, right: Hash): Hash {
    sha.sum(NodeInput(left, right))
  }

  function EmptyRoot(sha: Sha): Hash {
    sha.sum([])
  }

  ghost predicate SameHash(sha: Sha, x: bytes, y: bytes) {
    sha.sum(x) == sha.sum(y)
  }

  /** No two different strings of `hashed` have the same hash. */
  ghost predicate CollisionFree(sha: Sha, hashed: set<bytes>) {
    forall x, y {:trigger SameHash(sha, x, y)} :: x in hashed && y in hashed && SameHash(sha, x, y) ==> x == y
  }

  /** Equal parents have equal children, unless their inputs collide. */
  lemma NodeInjective(sha: Sha, hashed: set<bytes>, a: Hash, b: Hash, c: Hash, d: Hash)
    requires CollisionFree(sha, hashed)
    requires NodeInput(a, b) in hashed && NodeInput(c, d) in hashed
    requires HashChildren(sha, a, b) == HashChildren(sha, c, d)
    ensures a == c && b == d
  {
    var x, y := NodeInput(a, b), NodeInput(c, d);
    assert SameHash(sha, x, y);
    assert a.digest == x[1..33] && c.digest == y[1..33];
    assert b.digest == x[33..] && d.digest == y[33..];
  }

  lemma LeafInjective(sha: Sha, hashed: set<bytes>, a: bytes, b: bytes)
    requires CollisionFree(sha, hashed)
    requires LeafInput(a) in hashed && LeafInput(b) in hashed
    requires HashLeaf(sha, a) == HashLeaf(sha, b)
    ensures a == b
  {
    assert SameHash(sha, LeafInput(a), LeafInput(b));
    assert a == LeafInput(a)[1..] && b == LeafInput(b)[1..];
  }
}
