/** internal/gitlog/gitlog.go: the log in memory, and the log ref it is kept under. */
module GitLog {
  import opened Wrappers
  import opened Hashing
  import opened Rfc6962
  import opened Entries
  import opened Storage
  import opened Reading
  import opened Checkpoints
  import opened GitUtil
  import Tlog

  /**
    A log commit.  Git names a commit by the hash of its content, its parent
    included; here a commit is its content.
   */
  datatype Commit = Commit(parent: Option<Commit>, checkpoint: Option<bytes>, tree: Tree, message: bytes)

  /** What a `Log` object holds. */
  datatype LogState = LogState(entries: seq<Entry>, checkpoint: bytes, head: Option<Commit>)

  datatype LogError =
    | Unreadable(error: StorageError)
    | ConcurrentAdvance
    | MissingEntries
    | RootNotReproduced

  /** A repository: its log ref, and what git answers about everything else. */
  class Repo {
    var head: Option<Commit>
    var clone: Clone

    constructor (head: Option<Commit>, clone: Clone)
      ensures this.head == head && this.clone == clone
    {
      this.head, this.clone := head, clone;
    }
  }

  /** The checkpoint a commit stores. */
  function StoredIn(c: Commit): bytes {
    if c.checkpoint.Some? then c.checkpoint.value else []
  }

  /** The commit a log is saved as. */
  function SavedAs(log: LogState, checkpoint: bytes, message: bytes): Commit
    requires Storable(log.entries)
  {
    Commit(log.head, Some(checkpoint), TreeOf(log.entries), message)
  }

  /** What opening a log ref gives; without a ref, an empty log. */
  ghost function Opened(head: Option<Commit>): Result<LogState, LogError> {
    match head
    case None => Ok(LogState([], [], None))
    case Some(c) =>
      match ReadTree(c.tree)
      case Err(e) => Err(Unreadable(e))
      case Ok(entries) => Ok(LogState(entries, StoredIn(c), head))
  }

  /** The leaf hashes of entries. */
  function Leaves(sha: Sha, entries: seq<Entry>): (hashes: seq<Hash>)
    ensures |hashes| == |entries|
    ensures forall i :: 0 <= i < |entries| ==> hashes[i] == HashLeaf(sha, entries[i].raw)
  {
    if entries == [] then [] else [HashLeaf(sha, entries[0].raw)] + Leaves(sha, entries[1..])
  }

  /** The ref-records naming a ref, in order; an entry that does not decode is an error. */
  function Records(entries: seq<Entry>, ref: bytes): Result<seq<RefRecord>, EntryError> {
    if entries == [] then Ok([])
    else if entries[0].kind != TypeRefRecord then Records(entries[1..], ref)
    else
      var rr :- AsRefRecord(entries[0]);
      var rest :- Records(entries[1..], ref);
      Ok(if rr.ref == ref then [rr] + rest else rest)
  }

  /** The refs that entries name. */
  function RefSet(entries: seq<Entry>): Result<set<bytes>, EntryError> {
    if entries == [] then Ok({})
    else if entries[0].kind != TypeRefRecord then RefSet(entries[1..])
    else
      var rr :- AsRefRecord(entries[0]);
      var rest :- RefSet(entries[1..]);
      Ok({rr.ref} + rest)
  }

  /** The entries that a checkpoint describes, if they are the ones it commits to. */
  ghost function CheckpointedEntries(sha: Sha, entries: seq<Entry>, cp: Checkpoint): Result<seq<Entry>, LogError> {
    if cp.size > |entries| then Err(MissingEntries)
    else if RootOf(sha, Leaves(sha, entries[..cp.size])) != cp.root then Err(RootNotReproduced)
    else Ok(entries[..cp.size])
  }

  // ---------- Records ----------

  /** Every entry of the known type decodes. */
  ghost predicate Decodable(entries: seq<Entry>) {
    forall e :: e in entries && e.kind == TypeRefRecord ==> AsRefRecord(e).Ok?
  }

  lemma WellFormedDecodable(entries: seq<Entry>)
    requires WellFormed(entries)
    ensures Decodable(entries)
  {
  }

  lemma {:induction false} RecordsOk(entries: seq<Entry>, ref: bytes)
    ensures Records(entries, ref).Ok? <==> Decodable(entries)
    ensures RefSet(entries).Ok? <==> Decodable(entries)
  {
    if entries != [] {
      RecordsOk(entries[1..], ref);
      assert entries == [entries[0]] + entries[1..];
    }
  }

  lemma {:induction false} RecordsConcat(a: seq<Entry>, b: seq<Entry>, ref: bytes)
    requires Decodable(a + b)
    ensures Decodable(a) && Decodable(b)
    ensures Records(a, ref).Ok? && Records(b, ref).Ok? && Records(a + b, ref).Ok?
    ensures Records(a + b, ref).value == Records(a, ref).value + Records(b, ref).value
  {
    DecodableParts(a, b);
    RecordsOk(a, ref);
    RecordsOk(b, ref);
    if a == [] {
      assert a + b == b;
    } else {
      var rest := a[1..] + b;
      assert a + b == [a[0]] + rest && a == [a[0]] + a[1..];
      DecodableParts([a[0]], rest);
      RecordsConcat(a[1..], b, ref);
      RecordsCons(a[0], rest, ref);
      RecordsCons(a[0], a[1..], ref);
    }
  }

  lemma DecodableParts(a: seq<Entry>, b: seq<Entry>)
    requires Decodable(a + b)
    ensures Decodable(a) && Decodable(b)
  {
    assert forall e :: e in a || e in b ==> e in a + b;
  }

  /** The record of one entry, if it is one of the ref. */
  function RecordIn(e: Entry, ref: bytes): seq<RefRecord> {
    if e.kind == TypeRefRecord && AsRefRecord(e).Ok? && AsRefRecord(e).value.ref == ref
    then [AsRefRecord(e).value]
    else []
  }

  lemma RecordsCons(e: Entry, rest: seq<Entry>, ref: bytes)
    requires Decodable([e]) && Records(rest, ref).Ok?
    ensures Records([e] + rest, ref) == Ok(RecordIn(e, ref) + Records(rest, ref).value)
  {
    assert ([e] + rest)[0] == e && ([e] + rest)[1..] == rest && e in [e];
    assert [] + Records(rest, ref).value == Records(rest, ref).value;
  }

  /** Leaf hashes of a prefix. */
  lemma LeavesPrefix(sha: Sha, entries: seq<Entry>, n: nat)
    requires n <= |entries|
    ensures Leaves(sha, entries[..n]) == Leaves(sha, entries)[..n]
  {
  }

  /** `hashed` holds the strings hashed for the leaves and the tree of entries. */
  ghost predicate EntriesHashed(sha: Sha, hashed: set<bytes>, entries: seq<Entry>) {
    && (forall e :: e in entries ==> LeafInput(e.raw) in hashed)
    && RootHashed(sha, hashed, Leaves(sha, entries))
  }

  /**
    A root binds the entries: two lists of one length with one root store the same
    bytes, unless the strings hashed for them collide.
   */
  lemma RootBindsEntries(sha: Sha, hashed: set<bytes>, a: seq<Entry>, b: seq<Entry>)
    requires |a| == |b| && RootOf(sha, Leaves(sha, a)) == RootOf(sha, Leaves(sha, b))
    requires CollisionFree(sha, hashed)
    requires EntriesHashed(sha, hashed, a) && EntriesHashed(sha, hashed, b)
    ensures Raws(a) == Raws(b)
  {
    RootBindsLeaves(sha, hashed, Leaves(sha, a), Leaves(sha, b));
    forall i | 0 <= i < |a|
      ensures a[i].raw == b[i].raw
    {
      assert Leaves(sha, a)[i] == Leaves(sha, b)[i];
      LeafInjective(sha, hashed, a[i].raw, b[i].raw);
    }
  }

  /** Well-formed entries with the same bytes are the same entries. */
  lemma SameBytesSameEntries(a: seq<Entry>, b: seq<Entry>)
    requires WellFormed(a) && WellFormed(b) && Raws(a) == Raws(b)
    ensures a == b
  {
    forall i | 0 <= i < |a|
      ensures a[i] == b[i]
    {
      assert a[i].raw == Raws(a)[i] == Raws(b)[i] == b[i].raw;
    }
  }

  /** Records found earlier in front of records found later. */
  ghost function RecordsAfter(out: seq<RefRecord>, r: Result<seq<RefRecord>, EntryError>)
    : Result<seq<RefRecord>, EntryError>
  {
    if r.Ok? then Ok(out + r.value) else r
  }

  lemma RecordsStart(r: Result<seq<RefRecord>, EntryError>)
    ensures RecordsAfter([], r) == r
  {
    if r.Ok? { assert [] + r.value == r.value; }
  }

  /** One step of collecting the records of a ref. */
  lemma RecordsStep(out: seq<RefRecord>, entries: seq<Entry>, i: nat, ref: bytes)
    requires i < |entries|
    ensures entries[i].kind != TypeRefRecord ==>
              RecordsAfter(out, Records(entries[i..], ref)) == RecordsAfter(out, Records(entries[i + 1..], ref))
    ensures entries[i].kind == TypeRefRecord ==>
              var rr := AsRefRecord(entries[i]);
              RecordsAfter(out, Records(entries[i..], ref)) ==
              if rr.Err? then Err(rr.error)
              else RecordsAfter(if rr.value.ref == ref then out + [rr.value] else out, Records(entries[i + 1..], ref))
  {
    assert entries[i..][0] == entries[i] && entries[i..][1..] == entries[i + 1..];
    var rest := Records(entries[i + 1..], ref);
    var rr := AsRefRecord(entries[i]);
    if rr.Ok? && rest.Ok? { assert out + ([rr.value] + rest.value) == (out + [rr.value]) + rest.value; }
  }

  /** Refs seen earlier with those named later. */
  ghost function RefsAfter(seen: set<bytes>, r: Result<set<bytes>, EntryError>): Result<set<bytes>, EntryError> {
    if r.Ok? then Ok(seen + r.value) else r
  }

  lemma RefsStart(r: Result<set<bytes>, EntryError>)
    ensures RefsAfter({}, r) == r
  {
    if r.Ok? { assert {} + r.value == r.value; }
  }

  lemma RefsStep(seen: set<bytes>, entries: seq<Entry>, i: nat)
    requires i < |entries|
    ensures entries[i].kind != TypeRefRecord ==>
              RefsAfter(seen, RefSet(entries[i..])) == RefsAfter(seen, RefSet(entries[i + 1..]))
    ensures entries[i].kind == TypeRefRecord ==>
              var rr := AsRefRecord(entries[i]);
              RefsAfter(seen, RefSet(entries[i..])) ==
              if rr.Err? then Err(rr.error) else RefsAfter(seen + {rr.value.ref}, RefSet(entries[i + 1..]))
  {
    assert entries[i..][0] == entries[i] && entries[i..][1..] == entries[i + 1..];
    var rest := RefSet(entries[i + 1..]);
    var rr := AsRefRecord(entries[i]);
    if rr.Ok? && rest.Ok? { assert seen + ({rr.value.ref} + rest.value) == (seen + {rr.value.ref}) + rest.value; }
  }

  // ---------- The log object ----------

  /** Lists a tree, in some order. */
  method ListTree(tree: Tree) returns (listing: seq<Path>)
    ensures IsListing(listing, tree.Keys)
  {
    listing := [];
    var rest := tree.Keys;
    while rest != {}
      invariant rest <= tree.Keys
      invariant forall p :: p in listing <==> p in tree.Keys - rest
      invariant forall i, j :: 0 <= i < j < |listing| ==> listing[i] != listing[j]
      decreases |rest|
    {
      var p :| p in rest;
      assert p !in listing;
      listing := listing + [p];
      rest := rest - {p};
    }
  }

  /** An in-memory view of the repository's log. */
  class Log {
    const sha: Sha
    var entries: seq<Entry>
    var checkpoint: bytes
    var head: Option<Commit>

    ghost function View(): LogState
      reads this
    {
      LogState(entries, checkpoint, head)
    }

    constructor (sha: Sha, entries: seq<Entry>, checkpoint: bytes, head: Option<Commit>)
      ensures this.sha == sha && View() == LogState(entries, checkpoint, head)
    {
      this.sha, this.entries, this.checkpoint, this.head := sha, entries, checkpoint, head;
    }

    /** Reads the log from the repository. */
    static method Open(sha: Sha, repo: Repo) returns (r: Result<Log, LogError>)
      ensures match Opened(repo.head)
              case Err(e) => r == Err(e)
              case Ok(state) => r.Ok? && fresh(r.value) && r.value.sha == sha && r.value.View() == state
    {
      if repo.head.None? {
        var empty := new Log(sha, [], [], None);
        return Ok(empty);
      }
      var commit := repo.head.value;
      var checkpoint := StoredIn(commit);
      var listing := ListTree(commit.tree);
      var entries := ReadEntries(listing, commit.tree);
      if entries.Err? {
        return Err(Unreadable(entries.error));
      }
      var log := new Log(sha, entries.value, checkpoint, repo.head);
      return Ok(log);
    }

    method LeafHashes() returns (hashes: seq<Hash>)
      ensures hashes == Leaves(sha, entries)
    {
      hashes := [];
      ghost var leaves := Leaves(sha, entries);
      for i := 0 to |entries|
        invariant hashes == leaves[..i]
      {
        assert leaves[..i + 1] == leaves[..i] + [leaves[i]];
        hashes := hashes + [HashLeaf(sha, entries[i].raw)];
      }
    }

    /** The Merkle tree hash over all entries. */
    method Root() returns (root: Hash)
      ensures root == RootOf(sha, Leaves(sha, entries))
    {
      var hashes := LeafHashes();
      root := Tlog.Root(sha, hashes);
    }

    /** The proof that the log at size `m` is a prefix of the log as it stands. */
    method ConsistencyProofFrom(m: nat) returns (r: Result<seq<Hash>, Tlog.ProofError>)
      ensures r == Tlog.ProofResult(sha, Leaves(sha, entries), m)
    {
      var hashes := LeafHashes();
      r := Tlog.ConsistencyProof(sha, hashes, m);
    }

    /** Adds an entry to the in-memory log. */
    method Append(e: Entry)
      modifies this
      ensures View() == old(View()).(entries := old(entries) + [e])
    {
      entries := entries + [e];
    }

    /** The log as a checkpoint describes it; this log stays as it is. */
    method Checkpointed(cp: Checkpoint) returns (r: Result<Log, LogError>)
      ensures match CheckpointedEntries(sha, entries, cp)
              case Err(e) => r == Err(e)
              case Ok(prefix) =>
                r.Ok? && fresh(r.value) && r.value.sha == sha && r.value.View() == View().(entries := prefix)
    {
      if cp.size > |entries| {
        return Err(MissingEntries);
      }
      var trimmed := new Log(sha, entries[..cp.size], checkpoint, head);
      var root := trimmed.Root();
      if root != cp.root {
        return Err(RootNotReproduced);
      }
      return Ok(trimmed);
    }

    /** The refs the log names. */
    method Refs() returns (r: Result<set<bytes>, EntryError>)
      ensures r == RefSet(entries)
    {
      var seen: set<bytes> := {};
      assert entries[0..] == entries;
      RefsStart(RefSet(entries));
      for i := 0 to |entries|
        invariant RefSet(entries) == RefsAfter(seen, RefSet(entries[i..]))
      {
        var e := entries[i];
        RefsStep(seen, entries, i);
        if e.kind != TypeRefRecord {
          continue;
        }
        var rr := AsRefRecord(e);
        if rr.Err? {
          return Err(rr.error);
        }
        seen := seen + {rr.value.ref};
      }
      return Ok(seen);
    }

    /** The ref-records naming a ref, in log order. */
    method RefRecords(ref: bytes) returns (r: Result<seq<RefRecord>, EntryError>)
      ensures r == Records(entries, ref)
    {
      var out: seq<RefRecord> := [];
      assert entries[0..] == entries;
      RecordsStart(Records(entries, ref));
      for i := 0 to |entries|
        invariant Records(entries, ref) == RecordsAfter(out, Records(entries[i..], ref))
      {
        var e := entries[i];
        RecordsStep(out, entries, i, ref);
        if e.kind != TypeRefRecord {
          continue;
        }
        var rr := AsRefRecord(e);
        if rr.Err? {
          return Err(rr.error);
        }
        if rr.value.ref == ref {
          out := out + [rr.value];
        }
      }
      assert out + [] == out;
      return Ok(out);
    }

    /**
      Writes the entries and a checkpoint as a new commit on the log ref, if the
      ref still is where it was when the log was opened.
     */
    method Save(repo: Repo, checkpoint: bytes, message: bytes) returns (r: Option<LogError>)
      modifies this, repo`head
      ensures entries == old(entries)
      ensures !Storable(entries) ==> r == Some(Unreadable(BadEntry(TooLarge)))
      ensures Storable(entries) ==> (r.None? <==> old(repo.head) == old(head))
      ensures Storable(entries) && r.Some? ==> r == Some(ConcurrentAdvance)
      ensures r.Some? ==> repo.head == old(repo.head) && View() == old(View())
      ensures r.None? ==>
                && Storable(entries)
                && repo.head == Some(SavedAs(old(View()), checkpoint, message))
                && View() == LogState(old(entries), checkpoint, repo.head)
    {
      var tree := BuildTree(entries);
      if tree.Err? {
        return Some(Unreadable(tree.error));
      }
      var commit := Commit(head, Some(checkpoint), tree.value, message);
      if repo.head != head {
        return Some(ConcurrentAdvance);
      }
      repo.head := Some(commit);
      head := Some(commit);
      this.checkpoint := checkpoint;
      return None;
    }
  }

  /** Opening what was saved gives back what was saved. */
  lemma SaveThenOpen(state: LogState, checkpoint: bytes, message: bytes)
    requires WellFormed(state.entries)
    ensures Storable(state.entries)
    ensures var commit := SavedAs(state, checkpoint, message);
            Opened(Some(commit)) == Ok(LogState(state.entries, checkpoint, Some(commit)))
  {
    StorageRoundTrip(state.entries);
  }
}
