/**
  The consistency proof verification of section 2.1.4.2 of RFC 9162, which a
  witness runs: two size counters shifted right together, and an old and a new
  root rebuilt from the proof.
 */
module Verifier {
  import opened Wrappers
  import opened Hashing
  import opened Binary

  /** The two roots rebuilt from a proof. */
  datatype Roots = Roots(first: Hash, second: Hash)

  /** Step 4: while the low bit of `fn` is set, shift both. */
  function TrimOnes(fn: nat, sn: nat): (nat, nat) {
    if fn % 2 == 1 then TrimOnes(fn / 2, sn / 2) else (fn, sn)
  }

  /** Step 6.b.iii: shift both until the low bit of `fn` is set or `fn` is 0. */
  function TrimZeros(fn: nat, sn: nat): (nat, nat) {
    if fn % 2 == 0 && fn > 0 then TrimZeros(fn / 2, sn / 2) else (fn, sn)
  }

  /** Step 6.b: whether the next hash is to the left of the roots built so far. */
  predicate JoinsLeft(fn: nat, sn: nat) {
    fn % 2 == 1 || fn == sn
  }

  /** The counters after the next hash. */
  function Next(fn: nat, sn: nat): (nat, nat) {
    var (f, s) := if JoinsLeft(fn, sn) then TrimZeros(fn, sn) else (fn, sn);
    (f / 2, s / 2)
  }

  /** The roots after the next hash. */
  function Join(sha: Sha, left: bool, roots: Roots, c: Hash): Roots {
    if left
    then Roots(HashChildren(sha, c, roots.first), HashChildren(sha, c, roots.second))
    else roots.(second := HashChildren(sha, roots.second, c))
  }

  /** `hashed` holds the strings hashed to join the next hash. */
  ghost predicate JoinHashed(hashed: set<bytes>, left: bool, roots: Roots, c: Hash) {
    if left then NodeInput(c, roots.first) in hashed && NodeInput(c, roots.second) in hashed
    else NodeInput(roots.second, c) in hashed
  }

  /** Steps 6 and 7: the roots after the remaining hashes, if the counters run out with the proof. */
  function Run(sha: Sha, fn: nat, sn: nat, roots: Roots, path: seq<Hash>): Option<Roots>
    decreases |path|
  {
    if path == [] then
      if sn == 0 then Some(roots) else None
    else if sn == 0 then None
    else
      var (fn', sn') := Next(fn, sn);
      Run(sha, fn', sn', Join(sha, JoinsLeft(fn, sn), roots, path[0]), path[1..])
  }

  /** `hashed` holds every string hashed by `Run`. */
  ghost predicate RunHashed(sha: Sha, hashed: set<bytes>, fn: nat, sn: nat, roots: Roots, path: seq<Hash>)
    decreases |path|
  {
    path == [] || sn == 0 ||
    var (fn', sn') := Next(fn, sn);
    && JoinHashed(hashed, JoinsLeft(fn, sn), roots, path[0])
    && RunHashed(sha, hashed, fn', sn', Join(sha, JoinsLeft(fn, sn), roots, path[0]), path[1..])
  }

  /** Steps 1 to 5: the proof with the hash it starts from in front. */
  function WithSeed(m: nat, oldRoot: Hash, path: seq<Hash>): seq<Hash> {
    if IsPow2(m) then [oldRoot] + path else path
  }

  /** The roots rebuilt from a proof that starts with its seed. */
  function Rebuild(sha: Sha, m: nat, n: nat, seeded: seq<Hash>): Option<Roots>
    requires 0 < m <= n
  {
    if seeded == [] then None
    else
      var (fn, sn) := TrimOnes(m - 1, n - 1);
      Run(sha, fn, sn, Roots(seeded[0], seeded[0]), seeded[1..])
  }

  ghost predicate RebuildHashed(sha: Sha, hashed: set<bytes>, m: nat, n: nat, seeded: seq<Hash>)
    requires 0 < m <= n
  {
    seeded == [] ||
    var (fn, sn) := TrimOnes(m - 1, n - 1);
    RunHashed(sha, hashed, fn, sn, Roots(seeded[0], seeded[0]), seeded[1..])
  }

  /**
    Accepts or rejects a proof that a tree of size `n` extends one of size `m`.
    A proof from nothing is empty; so is one to the same size, where the roots
    must be equal.
   */
  predicate VerifyConsistency(sha: Sha, m: nat, n: nat, path: seq<Hash>, oldRoot: Hash, newRoot: Hash) {
    if n < m then false
    else if m == n then path == [] && oldRoot == newRoot
    else if m == 0 then path == []
    else path != [] && Rebuild(sha, m, n, WithSeed(m, oldRoot, path)) == Some(Roots(oldRoot, newRoot))
  }

  /** `hashed` holds every string hashed by `VerifyConsistency`. */
  ghost predicate VerifyHashed(sha: Sha, hashed: set<bytes>, m: nat, n: nat, path: seq<Hash>, oldRoot: Hash) {
    0 < m < n && path != [] ==> RebuildHashed(sha, hashed, m, n, WithSeed(m, oldRoot, path))
  }

  // ---------- The counters follow the tree ----------

  /** What one more hash at the end of a proof does to the roots of the proof before it. */
  ghost predicate Extends(sha: Sha, left: bool, last: Hash, sub: Option<Roots>, whole: Option<Roots>) {
    whole == if sub.None? then None else Some(Join(sha, left, sub.value, last))
  }

  /** The first hash of a proof, and the others. */
  lemma RunCons(sha: Sha, hashed: set<bytes>, fn: nat, sn: nat, roots: Roots, c: Hash, rest: seq<Hash>)
    requires sn > 0
    ensures var (fn', sn') := Next(fn, sn); var joined := Join(sha, JoinsLeft(fn, sn), roots, c);
            && Run(sha, fn, sn, roots, [c] + rest) == Run(sha, fn', sn', joined, rest)
            && (RunHashed(sha, hashed, fn, sn, roots, [c] + rest) <==>
                  JoinHashed(hashed, JoinsLeft(fn, sn), roots, c) && RunHashed(sha, hashed, fn', sn', joined, rest))
  {
    assert ([c] + rest)[1..] == rest;
  }

  /** A proof cut at its first hash. */
  lemma FirstOf(init: seq<Hash>, last: Hash)
    requires init != []
    ensures init == [init[0]] + init[1..] && init + [last] == [init[0]] + (init[1..] + [last])
  {
  }

  /**
    The counters `fn` and `sn` follow `a` and `b`: with one more hash at the end,
    which joins to the roots built before it.
   */
  ghost predicate Follows(sha: Sha, hashed: set<bytes>, left: bool, a: nat, b: nat, fn: nat, sn: nat, roots: Roots,
                          init: seq<Hash>, last: Hash) {
    var sub := Run(sha, a, b, roots, init);
    && Extends(sha, left, last, sub, Run(sha, fn, sn, roots, init + [last]))
    && (sub.Some? && RunHashed(sha, hashed, fn, sn, roots, init + [last]) ==>
          RunHashed(sha, hashed, a, b, roots, init) && JoinHashed(hashed, left, sub.value, last))
  }

  /** They still do with one more hash in front. */
  lemma FollowsStep(sha: Sha, hashed: set<bytes>, left: bool, a: nat, b: nat, fn: nat, sn: nat, roots: Roots,
                    init: seq<Hash>, last: Hash, a': nat, b': nat, fn': nat, sn': nat, joined: Roots)
    requires init != [] && b > 0 && sn > 0
    requires Next(a, b) == (a', b') && Next(fn, sn) == (fn', sn') && JoinsLeft(fn, sn) == JoinsLeft(a, b)
    requires joined == Join(sha, JoinsLeft(a, b), roots, init[0])
    requires Follows(sha, hashed, left, a', b', fn', sn', joined, init[1..], last)
    ensures Follows(sha, hashed, left, a, b, fn, sn, roots, init, last)
  {
    FirstOf(init, last);
    RunCons(sha, hashed, fn, sn, roots, init[0], init[1..] + [last]);
    RunCons(sha, hashed, a, b, roots, init[0], init[1..]);
  }

  /** The one hash there is, with counters that run out over it or do not. */
  lemma FollowsOne(sha: Sha, hashed: set<bytes>, left: bool, a: nat, b: nat, fn: nat, sn: nat, roots: Roots, last: Hash)
    requires sn > 0 && (b == 0 <==> Next(fn, sn).1 == 0)
    requires b == 0 ==> JoinsLeft(fn, sn) == left
    ensures Follows(sha, hashed, left, a, b, fn, sn, roots, [], last)
  {
    assert [] + [last] == [last] + [];
    RunCons(sha, hashed, fn, sn, roots, last, []);
  }

  /**
    The left half: the path to the old size stays below bit `j`, so the counters
    behave as in the perfect tree of `Pow2(j)` leaves until that one's run out.
    One more hash joins the right part of the tree to the new root.
   */
  lemma {:induction false} RunLeft(sha: Sha, hashed: set<bytes>, fn: nat, sn: nat, j: nat, roots: Roots,
                                   init: seq<Hash>, last: Hash)
    requires fn < Pow2(j) <= sn < 2 * Pow2(j)
    ensures Follows(sha, hashed, false, fn, Pow2(j) - 1, fn, sn, roots, init, last)
    decreases |init|
  {
    assert Pow2(0) == 1;
    if j == 0 {
      if init == [] {
        FollowsOne(sha, hashed, false, 0, 0, 0, 1, roots, last);
      } else {
        FollowsNone(sha, hashed, false, 0, 0, 1, roots, init, last);
      }
    } else {
      assert Pow2(j) == 2 * Pow2(j - 1);
      assert Next(fn, sn) == (fn / 2, sn / 2);
      assert Next(fn, Pow2(j) - 1) == (fn / 2, Pow2(j - 1) - 1);
      if init == [] {
        FollowsOne(sha, hashed, false, fn, Pow2(j) - 1, fn, sn, roots, last);
      } else {
        var joined := Join(sha, JoinsLeft(fn, sn), roots, init[0]);
        RunLeft(sha, hashed, fn / 2, sn / 2, j - 1, joined, init[1..], last);
        FollowsStep(sha, hashed, false, fn, Pow2(j) - 1, fn, sn, roots, init, last,
                    fn / 2, Pow2(j - 1) - 1, fn / 2, sn / 2, joined);
      }
    }
  }

  /** Counters that have run out follow nothing: a proof that goes on is refused. */
  lemma FollowsNone(sha: Sha, hashed: set<bytes>, left: bool, a: nat, fn: nat, sn: nat, roots: Roots,
                    init: seq<Hash>, last: Hash)
    requires init != [] && sn > 0 && Next(fn, sn).1 == 0
    ensures Follows(sha, hashed, left, a, 0, fn, sn, roots, init, last)
  {
    FirstOf(init, last);
    RunCons(sha, hashed, fn, sn, roots, init[0], init[1..] + [last]);
  }

  lemma {:induction false} TrimZerosPow2(j: nat)
    ensures TrimZeros(Pow2(j), Pow2(j)) == (1, 1)
  {
    ShlAtLeast(1, j);
    if j > 0 {
      var half := Pow2(j - 1);
      assert Pow2(j) == 2 * half && (2 * half) / 2 == half;
      TrimZerosPow2(j - 1);
    }
  }

  /** An even number added changes no parity, and half of it is added to the half. */
  lemma AddEven(a: nat, p: nat)
    ensures (a + 2 * p) % 2 == a % 2 && (a + 2 * p) / 2 == a / 2 + p
  {
  }

  lemma {:induction false} TrimZerosShift(a: nat, j: nat) returns (i: nat)
    requires 0 < a < Pow2(j)
    ensures var x := TrimZeros(a, a).0;
            && TrimZeros(a, a).1 == x < Pow2(i) && i > 0
            && TrimZeros(a + Pow2(j), a + Pow2(j)) == (x + Pow2(i), x + Pow2(i))
  {
    assert Pow2(0) == 1;
    var p := Pow2(j - 1);
    assert Pow2(j) == 2 * p;
    AddEven(a, p);
    if a % 2 == 1 {
      i := j;
    } else {
      i := TrimZerosShift(a / 2, j - 1);
      assert TrimZeros(a + 2 * p, a + 2 * p) == TrimZeros(a / 2 + p, a / 2 + p);
    }
  }

  /** One step of the counters with and without bit `j`. */
  lemma NextRight(a: nat, b: nat, j: nat) returns (i: nat)
    requires a <= b < Pow2(j) && b > 0
    ensures JoinsLeft(a + Pow2(j), b + Pow2(j)) == JoinsLeft(a, b)
    ensures var (a', b') := Next(a, b);
            a' <= b' < Pow2(i) && Next(a + Pow2(j), b + Pow2(j)) == (a' + Pow2(i), b' + Pow2(i))
  {
    assert Pow2(0) == 1;
    assert Pow2(j) == 2 * Pow2(j - 1);
    if a == b {
      i := TrimZerosShift(a, j);
      assert Pow2(i) == 2 * Pow2(i - 1);
      i := i - 1;
    } else {
      i := j - 1;
    }
  }

  /** Both counters have bit `j` set, and are otherwise those of the right part alone. */
  ghost predicate RightCounters(a: nat, b: nat, fn: nat, sn: nat, j: nat) {
    a <= b < Pow2(j) && fn == a + Pow2(j) && sn == b + Pow2(j) && sn > 0
  }

  lemma RightStep(a: nat, b: nat, fn: nat, sn: nat, j: nat) returns (i: nat)
    requires RightCounters(a, b, fn, sn, j) && b > 0
    ensures JoinsLeft(fn, sn) == JoinsLeft(a, b)
    ensures RightCounters(Next(a, b).0, Next(a, b).1, Next(fn, sn).0, Next(fn, sn).1, i)
  {
    i := NextRight(a, b, j);
    ShlAtLeast(1, i);
  }

  lemma RightEnd(fn: nat, sn: nat, j: nat)
    requires RightCounters(0, 0, fn, sn, j)
    ensures Next(fn, sn) == (0, 0) && JoinsLeft(fn, sn)
  {
    TrimZerosPow2(j);
  }

  /**
    The right half: bit `j` is set in both counters, and the rest of them behaves
    as in the right part of the tree alone.  One more hash joins the left part of
    the tree to both roots.
   */
  lemma {:induction false} RunRight(sha: Sha, hashed: set<bytes>, a: nat, b: nat, fn: nat, sn: nat, j: nat,
                                    roots: Roots, init: seq<Hash>, last: Hash)
    requires RightCounters(a, b, fn, sn, j)
    ensures Follows(sha, hashed, true, a, b, fn, sn, roots, init, last)
    decreases |init|
  {
    if b == 0 {
      RightEnd(fn, sn, j);
      if init == [] {
        FollowsOne(sha, hashed, true, a, b, fn, sn, roots, last);
      } else {
        FollowsNone(sha, hashed, true, a, fn, sn, roots, init, last);
      }
    } else {
      var i := RightStep(a, b, fn, sn, j);
      var (a', b') := Next(a, b);
      var (fn', sn') := Next(fn, sn);
      if init == [] {
        FollowsOne(sha, hashed, true, a, b, fn, sn, roots, last);
      } else {
        var joined := Join(sha, JoinsLeft(a, b), roots, init[0]);
        RunRight(sha, hashed, a', b', fn', sn', i, joined, init[1..], last);
        FollowsStep(sha, hashed, true, a, b, fn, sn, roots, init, last, a', b', fn', sn', joined);
      }
    }
  }

  /** The first shift keeps the place of the old size below bit `j`. */
  lemma {:induction false} TrimOnesLeft(fn: nat, sn: nat, j: nat) returns (i: nat)
    requires fn < Pow2(j) <= sn < 2 * Pow2(j)
    ensures var (f, s) := TrimOnes(fn, sn);
            f < Pow2(i) <= s < 2 * Pow2(i) && TrimOnes(fn, Pow2(j) - 1) == (f, Pow2(i) - 1)
    decreases j
  {
    if fn % 2 == 1 {
      assert Pow2(0) == 1;
      assert Pow2(j) == 2 * Pow2(j - 1);
      i := TrimOnesLeft(fn / 2, sn / 2, j - 1);
    } else {
      i := j;
    }
  }

  lemma {:induction false} TrimOnesRight(a: nat, b: nat, fn: nat, sn: nat, j: nat) returns (i: nat)
    requires a < b && RightCounters(a, b, fn, sn, j)
    ensures RightCounters(TrimOnes(a, b).0, TrimOnes(a, b).1, TrimOnes(fn, sn).0, TrimOnes(fn, sn).1, i)
    decreases j
  {
    assert Pow2(0) == 1;
    var p := Pow2(j - 1);
    assert Pow2(j) == 2 * p;
    AddEven(a, p);
    AddEven(b, p);
    if a % 2 == 1 {
      i := TrimOnesRight(a / 2, b / 2, fn / 2, sn / 2, j - 1);
    } else {
      i := j;
    }
  }

  /** A seeded proof with one more hash at its end. */
  lemma RebuildSnoc(sha: Sha, hashed: set<bytes>, m: nat, n: nat, seeded: seq<Hash>, last: Hash)
    requires 0 < m <= n && seeded != []
    ensures var (f, s) := TrimOnes(m - 1, n - 1); var roots := Roots(seeded[0], seeded[0]);
            && Rebuild(sha, m, n, seeded + [last]) == Run(sha, f, s, roots, seeded[1..] + [last])
            && RebuildHashed(sha, hashed, m, n, seeded + [last])
            == RunHashed(sha, hashed, f, s, roots, seeded[1..] + [last])
  {
    assert (seeded + [last])[1..] == seeded[1..] + [last];
  }

  /** What `Follows` says of counters, for whole proofs: of the part of a tree, and of the tree. */
  ghost predicate RebuildFollows(sha: Sha, hashed: set<bytes>, left: bool, m1: nat, n1: nat, m: nat, n: nat,
                                 seeded: seq<Hash>, last: Hash)
    requires 0 < m1 <= n1 && 0 < m <= n
  {
    var sub := Rebuild(sha, m1, n1, seeded);
    && Extends(sha, left, last, sub, Rebuild(sha, m, n, seeded + [last]))
    && (sub.Some? && RebuildHashed(sha, hashed, m, n, seeded + [last]) ==>
          RebuildHashed(sha, hashed, m1, n1, seeded) && JoinHashed(hashed, left, sub.value, last))
  }

  lemma RebuildFrom(sha: Sha, hashed: set<bytes>, left: bool, m1: nat, n1: nat, m: nat, n: nat,
                    seeded: seq<Hash>, last: Hash, a: nat, b: nat, f: nat, s: nat)
    requires 0 < m1 <= n1 && 0 < m <= n && seeded != []
    requires TrimOnes(m1 - 1, n1 - 1) == (a, b) && TrimOnes(m - 1, n - 1) == (f, s)
    requires Follows(sha, hashed, left, a, b, f, s, Roots(seeded[0], seeded[0]), seeded[1..], last)
    ensures RebuildFollows(sha, hashed, left, m1, n1, m, n, seeded, last)
  {
    RebuildSnoc(sha, hashed, m, n, seeded, last);
  }

  /** The whole proof for an old size in the left half of the tree. */
  lemma RebuildLeft(sha: Sha, hashed: set<bytes>, m: nat, n: nat, j: nat, seeded: seq<Hash>, last: Hash)
    requires 0 < m <= Pow2(j) < n <= 2 * Pow2(j) && seeded != []
    ensures RebuildFollows(sha, hashed, false, m, Pow2(j), m, n, seeded, last)
  {
    var i := TrimOnesLeft(m - 1, n - 1, j);
    var (f, s) := TrimOnes(m - 1, n - 1);
    RunLeft(sha, hashed, f, s, i, Roots(seeded[0], seeded[0]), seeded[1..], last);
    RebuildFrom(sha, hashed, false, m, Pow2(j), m, n, seeded, last, f, Pow2(i) - 1, f, s);
  }

  /** The whole proof for an old size in the right half of the tree. */
  lemma RebuildRight(sha: Sha, hashed: set<bytes>, m1: nat, n1: nat, m: nat, n: nat, j: nat,
                     seeded: seq<Hash>, last: Hash)
    requires 0 < m1 < n1 <= Pow2(j) && m == m1 + Pow2(j) && n == n1 + Pow2(j) && seeded != []
    ensures RebuildFollows(sha, hashed, true, m1, n1, m, n, seeded, last)
  {
    var i := TrimOnesRight(m1 - 1, n1 - 1, m - 1, n - 1, j);
    var (a, b) := TrimOnes(m1 - 1, n1 - 1);
    var (f, s) := TrimOnes(m - 1, n - 1);
    RunRight(sha, hashed, a, b, f, s, i, Roots(seeded[0], seeded[0]), seeded[1..], last);
    RebuildFrom(sha, hashed, true, m1, n1, m, n, seeded, last, a, b, f, s);
  }

  /** The last block of the path: the old size is all of a perfect tree. */
  lemma RebuildWhole(sha: Sha, j: nat, seeded: seq<Hash>)
    requires seeded != []
    ensures Pow2(j) > 0
    ensures Rebuild(sha, Pow2(j), Pow2(j), seeded)
         == if |seeded| == 1 then Some(Roots(seeded[0], seeded[0])) else None
  {
    ShlAtLeast(1, j);
    TrimOnesAll(j);
  }

  lemma {:induction false} TrimOnesAll(j: nat)
    ensures Pow2(j) > 0 && TrimOnes(Pow2(j) - 1, Pow2(j) - 1) == (0, 0)
  {
    ShlAtLeast(1, j);
    if j > 0 {
      assert Pow2(j) == 2 * Pow2(j - 1);
      TrimOnesAll(j - 1);
    }
  }
}
