/**
  internal/gitlog/gitlog.go, reading: the bundles of a log tree, in any order the
  tree lists them, back to entries; and the round trip with what `Save` writes.
 */
module Reading {
  import opened Wrappers
  import opened Hashing
  import opened Entries
  import opened Storage

  /** Parses stored entries, up to the first bad one. */
  function ParseAll(raws: seq<bytes>): Result<seq<Entry>, StorageError> {
    if raws == [] then Ok([])
    else match ParseEntry(raws[0])
      case Err(e) => Err(BadEntry(e))
      case Ok(e) =>
        var rest :- ParseAll(raws[1..]);
        Ok([e] + rest)
  }

  function ReadBundle(content: bytes): Result<seq<Entry>, StorageError> {
    var raws :- Decode(content);
    ParseAll(raws)
  }

  /** No two bundles have one index. */
  ghost predicate DistinctIndices(paths: set<Path>) {
    forall p, q :: p in paths && q in paths && p.index == q.index ==> p == q
  }

  ghost predicate HasIndex(paths: set<Path>, i: nat) {
    exists p :: p in paths && p.index == i
  }

  ghost function PathAt(paths: set<Path>, i: nat): (p: Path)
    requires HasIndex(paths, i)
    ensures p in paths && p.index == i
  {
    var p :| p in paths && p.index == i; p
  }

  /** The entries of the bundles from index `i` on. */
  ghost function ReadFrom(tree: Tree, i: nat): Result<seq<Entry>, StorageError>
    decreases |tree| - i
  {
    if i >= |tree| then Ok([])
    else if !HasIndex(tree.Keys, i) then Err(MissingBundle)
    else
      var entries :- ReadBundle(tree[PathAt(tree.Keys, i)]);
      var rest :- ReadFrom(tree, i + 1);
      Ok(entries + rest)
  }

  /** What reading a log tree gives, whatever the order in which it is listed. */
  ghost function ReadTree(tree: Tree): Result<seq<Entry>, StorageError> {
    if !DistinctIndices(tree.Keys) then Err(DuplicateIndex) else ReadFrom(tree, 0)
  }

  /** A listing of a tree: every path once, in any order. */
  ghost predicate IsListing(listing: seq<Path>, paths: set<Path>) {
    && (forall p :: p in listing <==> p in paths)
    && (forall i, j :: 0 <= i < j < |listing| ==> listing[i] != listing[j])
  }

  lemma {:induction false} ListingSize(listing: seq<Path>, paths: set<Path>)
    requires IsListing(listing, paths)
    ensures |listing| == |paths|
  {
    if listing == [] {
      assert paths == {};
    } else {
      var p := listing[0];
      assert paths == (paths - {p}) + {p};
      assert forall q :: q in listing[1..] <==> q in paths - {p};
      ListingSize(listing[1..], paths - {p});
    }
  }

  /** Collects the bundle paths by their index. */
  method IndexPaths(listing: seq<Path>, ghost paths: set<Path>) returns (r: Result<map<nat, Path>, StorageError>)
    requires IsListing(listing, paths)
    ensures r.Ok? <==> DistinctIndices(paths)
    ensures r.Err? ==> r.error == DuplicateIndex
    ensures r.Ok? ==> |r.value| == |paths|
    ensures r.Ok? ==> forall i :: i in r.value <==> HasIndex(paths, i)
    ensures r.Ok? ==> forall i :: i in r.value ==> r.value[i] == PathAt(paths, i)
  {
    var bundles: map<nat, Path> := map[];
    for k := 0 to |listing|
      invariant |bundles| == k && Indexed(listing, k, bundles)
    {
      var path := listing[k];
      if path.index in bundles {
        IndexTaken(listing, k, bundles, paths);
        return Err(DuplicateIndex);
      }
      IndexMore(listing, k, bundles);
      bundles := bundles[path.index := path];
    }
    ListingSize(listing, paths);
    AllIndexed(listing, bundles, paths);
    return Ok(bundles);
  }

  /** The first `k` paths of a listing, by their index. */
  ghost predicate Indexed(listing: seq<Path>, k: nat, bundles: map<nat, Path>)
    requires k <= |listing|
  {
    && (forall j :: 0 <= j < k ==> listing[j].index in bundles && bundles[listing[j].index] == listing[j])
    && forall i :: i in bundles ==> bundles[i] in listing[..k] && bundles[i].index == i
  }

  /** One path more. */
  lemma IndexMore(listing: seq<Path>, k: nat, bundles: map<nat, Path>)
    requires k < |listing| && Indexed(listing, k, bundles) && listing[k].index !in bundles
    ensures var more := bundles[listing[k].index := listing[k]];
            |more| == |bundles| + 1 && Indexed(listing, k + 1, more)
  {
    assert listing[..k + 1] == listing[..k] + [listing[k]];
  }

  /** A path whose index was seen is a second one of that index. */
  lemma IndexTaken(listing: seq<Path>, k: nat, bundles: map<nat, Path>, paths: set<Path>)
    requires IsListing(listing, paths) && k < |listing| && Indexed(listing, k, bundles)
    requires listing[k].index in bundles
    ensures !DistinctIndices(paths)
  {
    var other := bundles[listing[k].index];
    var j :| 0 <= j < k && listing[..k][j] == other;
    assert listing[j] != listing[k] && listing[j] in paths && listing[k] in paths;
  }

  /** A listing without such a path. */
  lemma AllIndexed(listing: seq<Path>, bundles: map<nat, Path>, paths: set<Path>)
    requires IsListing(listing, paths) && Indexed(listing, |listing|, bundles)
    ensures DistinctIndices(paths)
    ensures forall i :: i in bundles <==> HasIndex(paths, i)
    ensures forall i :: i in bundles ==> bundles[i] == PathAt(paths, i)
  {
    assert listing[..|listing|] == listing;
    forall p, q | p in paths && q in paths && p.index == q.index
      ensures p == q
    {
      assert p in listing && q in listing;
    }
    forall i | HasIndex(paths, i)
      ensures i in bundles
    {
      assert PathAt(paths, i) in listing;
    }
    forall i | i in bundles
      ensures HasIndex(paths, i) && bundles[i] == PathAt(paths, i)
    {
      assert bundles[i] in paths;
    }
  }

  /** Loads every entry bundle, in index order. */
  method ReadEntries(listing: seq<Path>, tree: Tree) returns (r: Result<seq<Entry>, StorageError>)
    requires IsListing(listing, tree.Keys)
    ensures r == ReadTree(tree)
  {
    var bundles := IndexPaths(listing, tree.Keys);
    if bundles.Err? {
      return Err(bundles.error);
    }
    var entries: seq<Entry> := [];
    PrependNothing(ReadFrom(tree, 0));
    for i := 0 to |bundles.value|
      invariant ReadTree(tree) == Prepend(entries, ReadFrom(tree, i))
    {
      if i !in bundles.value {
        return Err(MissingBundle);
      }
      var more := LoadBundle(tree[bundles.value[i]]);
      if more.Err? {
        return Err(more.error);
      }
      PrependTwice(entries, more.value, ReadFrom(tree, i + 1));
      entries := entries + more.value;
    }
    assert entries + [] == entries;
    return Ok(entries);
  }

  /** Entries in front of what is read later. */
  ghost function Prepend(entries: seq<Entry>, r: Result<seq<Entry>, StorageError>): Result<seq<Entry>, StorageError> {
    if r.Ok? then Ok(entries + r.value) else r
  }

  lemma PrependNothing(r: Result<seq<Entry>, StorageError>)
    ensures Prepend([], r) == r
  {
    if r.Ok? { assert [] + r.value == r.value; }
  }

  lemma PrependTwice(a: seq<Entry>, b: seq<Entry>, r: Result<seq<Entry>, StorageError>)
    ensures Prepend(a, Prepend(b, r)) == Prepend(a + b, r)
  {
    if r.Ok? { assert a + (b + r.value) == (a + b) + r.value; }
  }

  /** Decodes one bundle and parses its entries. */
  method LoadBundle(content: bytes) returns (r: Result<seq<Entry>, StorageError>)
    ensures r == ReadBundle(content)
  {
    var raws := Decode(content);
    if raws.Err? {
      return Err(raws.error);
    }
    var entries: seq<Entry> := [];
    PrependNothing(ParseAll(raws.value));
    assert raws.value[0..] == raws.value;
    for k := 0 to |raws.value|
      invariant ParseAll(raws.value) == Prepend(entries, ParseAll(raws.value[k..]))
    {
      var e := ParseEntry(raws.value[k]);
      if e.Err? {
        return Err(BadEntry(e.error));
      }
      PrependTwice(entries, [e.value], ParseAll(raws.value[k + 1..]));
      assert raws.value[k..][1..] == raws.value[k + 1..];
      entries := entries + [e.value];
    }
    assert entries + [] == entries;
    return Ok(entries);
  }

  // ---------- Round trips ----------

  /** Entries that their bytes parse back to. */
  ghost predicate WellFormed(entries: seq<Entry>) {
    forall e :: e in entries ==> ParseEntry(e.raw) == Ok(e)
  }

  lemma {:induction false} ParseRaws(entries: seq<Entry>)
    requires WellFormed(entries)
    ensures ParseAll(Raws(entries)) == Ok(entries)
  {
    if entries != [] {
      ParseRaws(entries[1..]);
      assert Raws(entries)[1..] == Raws(entries[1..]);
      assert [entries[0]] + entries[1..] == entries;
    }
  }

  lemma {:induction false} ParsedWellFormed(raws: seq<bytes>)
    requires ParseAll(raws).Ok?
    ensures WellFormed(ParseAll(raws).value)
  {
    if raws != [] { ParsedWellFormed(raws[1..]); }
  }

  lemma {:induction false} ReadFromWellFormed(tree: Tree, i: nat)
    requires ReadFrom(tree, i).Ok?
    ensures WellFormed(ReadFrom(tree, i).value)
    decreases |tree| - i
  {
    if i < |tree| {
      ReadFromWellFormed(tree, i + 1);
      ParsedWellFormed(Decode(tree[PathAt(tree.Keys, i)]).value);
    }
  }

  /** A saved bundle reads back. */
  lemma BundleRoundTrip(entries: seq<Entry>)
    requires WellFormed(entries)
    ensures Storable(entries) && ReadBundle(BundleOf(entries)) == Ok(entries)
  {
    DecodeEncode(Raws(entries));
    ParseRaws(entries);
  }

  /** The first bundle of a list, and the others. */
  lemma TreeFromHead(entries: seq<Entry>, index: nat)
    requires Storable(entries) && entries != []
    ensures var w := Width(|entries|); var path := PathFor(index, w);
            var rest, tree := TreeFrom(entries[w..], index + 1), TreeFrom(entries, index);
            && path !in rest && tree == rest[path := BundleOf(entries[..w])]
            && tree.Keys == rest.Keys + {path} && |tree| == |rest| + 1
  {
    var w := Width(|entries|);
    var path := PathFor(index, w);
    var rest, tree := TreeFrom(entries[w..], index + 1), TreeFrom(entries, index);
    assert path !in rest && tree.Keys == rest.Keys + {path};
    assert |tree.Keys| == |rest.Keys| + 1;
  }

  /** One bundle for every index from `first` up to `end`, and no others. */
  ghost predicate ExactIndices(paths: set<Path>, first: nat, end: nat) {
    DistinctIndices(paths) && forall i: nat :: HasIndex(paths, i) <==> first <= i < end
  }

  lemma IndicesBefore(paths: set<Path>, path: Path, end: nat)
    requires ExactIndices(paths, path.index + 1, end) && path.index < end
    ensures ExactIndices(paths + {path}, path.index, end)
  {
    forall i: nat
      ensures HasIndex(paths + {path}, i) <==> path.index <= i < end
    {
      if HasIndex(paths, i) { assert PathAt(paths, i) in paths + {path}; }
      if i == path.index { assert path in paths + {path}; }
    }
    assert forall p :: p in paths ==> HasIndex(paths, p.index);
  }

  /** The bundles of a saved log have the indices from `index` on, one bundle each. */
  lemma {:induction false} TreeFromIndices(entries: seq<Entry>, index: nat)
    requires Storable(entries)
    ensures |TreeFrom(entries, index)| == BundleCount(|entries|)
    ensures ExactIndices(TreeFrom(entries, index).Keys, index, index + BundleCount(|entries|))
    decreases |entries|
  {
    if entries == [] {
      assert TreeFrom(entries, index) == map[];
    } else {
      var w := Width(|entries|);
      BundleCountStep(|entries|);
      TreeFromHead(entries, index);
      TreeFromIndices(entries[w..], index + 1);
      IndicesBefore(TreeFrom(entries[w..], index + 1).Keys, PathFor(index, w), index + BundleCount(|entries|));
    }
  }

  /** The number of bundles of `n` entries. */
  function BundleCount(n: nat): nat {
    (n + EntriesPerBundle - 1) / EntriesPerBundle
  }

  lemma BundleCountStep(n: nat)
    requires n > 0
    ensures BundleCount(n) == 1 + BundleCount(n - Width(n))
  {
  }

  /** From bundle `i` on, `tree` has the bundles of `entries`, and no others. */
  ghost predicate SavedFrom(tree: Tree, entries: seq<Entry>, i: nat)
    requires Storable(entries)
    decreases |entries|
  {
    if entries == [] then |tree| == i
    else
      var w := Width(|entries|);
      && i < |tree| && PathFor(i, w) in tree && tree[PathFor(i, w)] == BundleOf(entries[..w])
      && SavedFrom(tree, entries[w..], i + 1)
  }

  /** A tree has all that another one has. */
  ghost predicate Includes(tree: Tree, part: Tree) {
    forall p :: p in part ==> p in tree && tree[p] == part[p]
  }

  lemma IncludesUpdated(tree: Tree, part: Tree, path: Path, content: bytes)
    requires path !in part && Includes(tree, part[path := content])
    ensures Includes(tree, part) && path in tree && tree[path] == content
  {
    var all := part[path := content];
    assert path in all && all[path] == content;
    assert forall p :: p in part ==> p in all && all[p] == part[p];
  }

  lemma SavedHead(tree: Tree, entries: seq<Entry>, i: nat)
    requires Storable(entries) && entries != [] && Includes(tree, TreeFrom(entries, i))
    ensures var w := Width(|entries|); var rest := TreeFrom(entries[w..], i + 1);
            && |TreeFrom(entries, i)| == |rest| + 1 && Includes(tree, rest)
            && PathFor(i, w) in tree && tree[PathFor(i, w)] == BundleOf(entries[..w])
  {
    var w := Width(|entries|);
    TreeFromHead(entries, i);
    IncludesUpdated(tree, TreeFrom(entries[w..], i + 1), PathFor(i, w), BundleOf(entries[..w]));
  }

  /** What saving gives, also as the part of a larger tree from index `i` on. */
  lemma {:induction false} TreeIsSaved(tree: Tree, entries: seq<Entry>, i: nat)
    requires Storable(entries)
    requires |tree| == i + |TreeFrom(entries, i)|
    requires Includes(tree, TreeFrom(entries, i))
    ensures SavedFrom(tree, entries, i)
    decreases |entries|
  {
    if entries != [] {
      SavedHead(tree, entries, i);
      TreeIsSaved(tree, entries[Width(|entries|)..], i + 1);
    }
  }

  /** Reading the bundles of a saved log from index `i` on. */
  lemma {:induction false} ReadSaved(tree: Tree, entries: seq<Entry>, i: nat)
    requires DistinctIndices(tree.Keys) && WellFormed(entries) && Storable(entries)
    requires SavedFrom(tree, entries, i)
    ensures ReadFrom(tree, i) == Ok(entries)
    decreases |entries|
  {
    if entries != [] {
      var w := Width(|entries|);
      var first, rest := entries[..w], entries[w..];
      ReadSaved(tree, rest, i + 1);
      BundleRoundTrip(first);
      ReadFromStep(tree, i, PathFor(i, w), first, rest);
      assert first + rest == entries;
    }
  }

  lemma ReadFromStep(tree: Tree, i: nat, path: Path, first: seq<Entry>, rest: seq<Entry>)
    requires DistinctIndices(tree.Keys) && path in tree && path.index == i < |tree|
    requires ReadBundle(tree[path]) == Ok(first) && ReadFrom(tree, i + 1) == Ok(rest)
    ensures ReadFrom(tree, i) == Ok(first + rest)
  {
    assert HasIndex(tree.Keys, i) && PathAt(tree.Keys, i) == path;
  }

  /** The storage round trip: what is saved reads back, for every list of well-formed entries. */
  lemma StorageRoundTrip(entries: seq<Entry>)
    requires WellFormed(entries)
    ensures Storable(entries)
    ensures ReadTree(TreeOf(entries)) == Ok(entries)
  {
    TreeFromIndices(entries, 0);
    TreeIsSaved(TreeOf(entries), entries, 0);
    ReadSaved(TreeOf(entries), entries, 0);
  }

  /** Saving again what could be read keeps its entries, however the tree was split into bundles. */
  lemma ResaveKeepsEntries(tree: Tree)
    requires ReadTree(tree).Ok?
    ensures var entries := ReadTree(tree).value;
            WellFormed(entries) && Storable(entries) && ReadTree(TreeOf(entries)) == Ok(entries)
  {
    ReadFromWellFormed(tree, 0);
    StorageRoundTrip(ReadTree(tree).value);
  }

  /** What is behind the first bundle of two logs, of which one extends the other. */
  lemma RestShared(a: seq<Entry>, b: seq<Entry>, w: nat)
    requires Storable(a) && Storable(b) && a <= b && w <= |a|
    ensures Storable(a[w..]) && Storable(b[w..]) && a[w..] <= b[w..]
  {
    assert a == a[..w] + a[w..] && b == b[..w] + b[w..];
    StorableParts(a[..w], a[w..]);
    StorableParts(b[..w], b[w..]);
    assert a[w..] == b[w..|a|] && b[w..|a|] <= b[w..];
  }

  /** A bundle path that two saved logs share has one content, when one log extends the other. */
  lemma {:induction false} SharedPath(a: seq<Entry>, b: seq<Entry>, index: nat, p: Path)
    requires Storable(a) && Storable(b) && a <= b
    requires p in TreeFrom(a, index) && p in TreeFrom(b, index)
    ensures TreeFrom(a, index)[p] == TreeFrom(b, index)[p]
    decreases |a|
  {
    if a != [] {
      var w, v := Width(|a|), Width(|b|);
      if p.index == index {
        assert p == PathFor(index, w) == PathFor(index, v);
        assert w == v && a[..w] == b[..v];
      } else {
        assert p in TreeFrom(a[w..], index + 1) && a[w..] != [];
        RestShared(a, b, w);
        SharedPath(a[w..], b[w..], index + 1, p);
      }
    }
  }
}
