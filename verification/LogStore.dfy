/**
  internal/gitlog/gitlog.go under concurrency: `Open` makes several git calls, and
  each of them reads the log ref as it is by then.  Every call is a step of its
  own here, between which other processes may save and push.
 */
module LogStore {
  import opened Wrappers
  import opened Hashing
  import opened Entries
  import opened Storage
  import opened Reading
  import opened Checkpoints
  import opened GitLog
  import Rfc6962

  /** How far a process has come with opening the log; or the log it holds, and the entries it opened it with. */
  datatype Process =
    | Starting
    | Resolving
    | ReadingCheckpoint(head: Commit)
    | Listing(head: Commit, checkpoint: bytes)
    | LoadingBundles(head: Commit, checkpoint: bytes, listed: Tree, next: nat, entries: seq<Entry>)
    | Holding(log: LogState, base: seq<Entry>)
    | Failed

  /** The log ref, and the processes that work on it. */
  datatype Store = Store(ref: Option<Commit>, processes: map<nat, Process>)

  datatype Event =
    | Read(p: nat)
    | Append(p: nat, entry: Entry)
    | Save(p: nat, checkpoint: bytes, message: bytes)
    | Quit(p: nat)
    | Push(commit: Commit)

  /** The commit comes after `head` in history. */
  predicate Descends(c: Commit, head: Option<Commit>) {
    head.None? || c.parent == head || (c.parent.Some? && Descends(c.parent.value, head))
  }

  /**
    The next git call of a process that opens the log.  Of the tree that was
    listed only the paths are used: a bundle is read from the tree the ref holds
    when it is read.
   */
  ghost function ReadStep(proc: Process, ref: Option<Commit>): Process {
    match proc
    case Starting => if ref.None? then Holding(LogState([], [], None), []) else Resolving
    case Resolving => if ref.None? then Failed else ReadingCheckpoint(ref.value)
    case ReadingCheckpoint(head) => Listing(head, if ref.None? then [] else StoredIn(ref.value))
    case Listing(head, checkpoint) =>
      if ref.None? then Holding(LogState([], checkpoint, Some(head)), [])
      else if !DistinctIndices(ref.value.tree.Keys) then Failed
      else LoadingBundles(head, checkpoint, ref.value.tree, 0, [])
    case LoadingBundles(head, checkpoint, listed, next, entries) =>
      if next >= |listed| then Holding(LogState(entries, checkpoint, Some(head)), entries)
      else if !HasIndex(listed.Keys, next) then Failed
      else
        var path := PathAt(listed.Keys, next);
        if ref.None? || path !in ref.value.tree then Failed
        else
          var more := ReadBundle(ref.value.tree[path]);
          if more.Err? then Failed else LoadingBundles(head, checkpoint, listed, next + 1, entries + more.value)
    case Holding(_, _) => proc
    case Failed => proc
  }

  function ProcessAt(s: Store, p: nat): Process {
    if p in s.processes then s.processes[p] else Starting
  }

  function Set(s: Store, p: nat, proc: Process): Store {
    s.(processes := s.processes[p := proc])
  }

  /** Whether saving succeeds: the ref still is where it was when the log was opened. */
  predicate CanSave(s: Store, log: LogState) {
    Storable(log.entries) && s.ref == log.head
  }

  /** One step.  A push without force moves the ref to a later commit only. */
  ghost function Step(s: Store, e: Event): Store {
    match e
    case Read(p) => Set(s, p, ReadStep(ProcessAt(s, p), s.ref))
    case Append(p, entry) =>
      (match ProcessAt(s, p)
       case Holding(log, base) => Set(s, p, Holding(log.(entries := log.entries + [entry]), base))
       case _ => s)
    case Save(p, checkpoint, message) =>
      (match ProcessAt(s, p)
       case Holding(log, _) =>
         if CanSave(s, log)
         then Set(s, p, Starting).(ref := Some(SavedAs(log, checkpoint, message)))
         else Set(s, p, Failed)
       case _ => s)
    case Quit(p) => Set(s, p, Starting)
    case Push(commit) => if Descends(commit, s.ref) then s.(ref := Some(commit)) else s
  }

  /** The store after a run. */
  ghost function After(s: Store, events: seq<Event>): Store
    decreases |events|
  {
    if events == [] then s else After(Step(s, events[0]), events[1..])
  }

  // ---------- The ref never returns to an old head ----------

  function Depth(c: Commit): nat {
    1 + if c.parent.Some? then Depth(c.parent.value) else 0
  }

  predicate AtOrAfter(ref: Option<Commit>, head: Option<Commit>) {
    ref == head || (ref.Some? && Descends(ref.value, head))
  }

  lemma {:induction false} DescendsDeeper(c: Commit, head: Commit)
    requires Descends(c, Some(head))
    ensures Depth(c) > Depth(head)
  {
    if c.parent != Some(head) { DescendsDeeper(c.parent.value, head); }
  }

  lemma {:induction false} DescendsFurther(c: Commit, mid: Commit, head: Option<Commit>)
    requires Descends(c, Some(mid)) && Descends(mid, head)
    ensures Descends(c, head)
  {
    if c.parent != Some(mid) { DescendsFurther(c.parent.value, mid, head); }
  }

  /** A ref that moves to a later commit has left every earlier head for good. */
  lemma MovesOn(ref: Option<Commit>, c: Commit, head: Option<Commit>)
    requires Descends(c, ref) && AtOrAfter(ref, head)
    ensures AtOrAfter(Some(c), head) && Some(c) != head
  {
    if ref.Some? && ref != head { DescendsFurther(c, ref.value, head); }
    if head.Some? { DescendsDeeper(c, head.value); }
  }

  /** In every run the ref only moves to later commits. */
  lemma {:induction false} RunMovesForward(s: Store, events: seq<Event>)
    ensures AtOrAfter(After(s, events).ref, s.ref)
    decreases |events|
  {
    if events != [] {
      var next := Step(s, events[0]);
      RunMovesForward(next, events[1..]);
      var last := After(s, events).ref;
      if next.ref != s.ref && last != next.ref { MovesOn(next.ref, last.value, s.ref); }
    }
  }

  // ---------- No lost update ----------

  /** A process has read what `head` holds, as long as the ref is still there. */
  ghost predicate ReadConsistently(proc: Process, ref: Option<Commit>) {
    match proc
    case Starting => true
    case Resolving => true
    case Failed => true
    case ReadingCheckpoint(head) => AtOrAfter(ref, Some(head))
    case Listing(head, checkpoint) =>
      AtOrAfter(ref, Some(head)) && (ref == Some(head) ==> checkpoint == StoredIn(head))
    case LoadingBundles(head, checkpoint, listed, next, entries) =>
      && AtOrAfter(ref, Some(head))
      && (ref == Some(head) ==>
            && checkpoint == StoredIn(head) && listed == head.tree
            && ReadTree(head.tree) == Prepend(entries, ReadFrom(head.tree, next)))
    case Holding(log, base) => AtOrAfter(ref, log.head) && (ref == log.head ==> Extends(log, base, ref))
  }

  /** The log in memory was opened with the entries the ref holds, and entries were appended. */
  ghost predicate Extends(log: LogState, base: seq<Entry>, ref: Option<Commit>) {
    && Opened(ref).Ok?
    && Opened(ref).value.entries == base <= log.entries
    && Opened(ref).value.checkpoint == log.checkpoint
  }

  ghost predicate Consistent(s: Store) {
    forall p :: p in s.processes ==> ReadConsistently(s.processes[p], s.ref)
  }

  /** What a process goes on to once it has loaded one more bundle. */
  ghost function LoadedMore(listed: Tree, next: nat, entries: seq<Entry>): seq<Entry>
    requires next < |listed| && HasIndex(listed.Keys, next)
    requires ReadBundle(listed[PathAt(listed.Keys, next)]).Ok?
  {
    entries + ReadBundle(listed[PathAt(listed.Keys, next)]).value
  }

  lemma ReadStepConsistent(proc: Process, ref: Option<Commit>)
    requires ReadConsistently(proc, ref)
    ensures ReadConsistently(ReadStep(proc, ref), ref)
  {
    match proc
    case Listing(head, checkpoint) =>
      if ref == Some(head) { PrependNothing(ReadFrom(head.tree, 0)); }
    case LoadingBundles(head, checkpoint, listed, next, entries) =>
      if ref == Some(head) { LoadingConsistent(head, checkpoint, next, entries); }
    case _ =>
  }

  lemma LoadingConsistent(head: Commit, checkpoint: bytes, next: nat, entries: seq<Entry>)
    requires ReadConsistently(LoadingBundles(head, checkpoint, head.tree, next, entries), Some(head))
    ensures var after := ReadStep(LoadingBundles(head, checkpoint, head.tree, next, entries), Some(head));
            ReadConsistently(after, Some(head))
  {
    LoadConsistent(head.tree, next, entries);
    LoadingStays(head, checkpoint, head.tree, next, entries, Some(head));
  }

  /** Loading one more bundle of a tree, or having loaded all. */
  lemma LoadConsistent(tree: Tree, next: nat, entries: seq<Entry>)
    ensures next >= |tree| ==> Prepend(entries, ReadFrom(tree, next)) == Ok(entries)
    ensures next < |tree| && HasIndex(tree.Keys, next) && ReadBundle(tree[PathAt(tree.Keys, next)]).Ok? ==>
              Prepend(entries, ReadFrom(tree, next))
              == Prepend(LoadedMore(tree, next, entries), ReadFrom(tree, next + 1))
  {
    if next >= |tree| {
      assert entries + [] == entries;
    } else if HasIndex(tree.Keys, next) && ReadBundle(tree[PathAt(tree.Keys, next)]).Ok? {
      PrependTwice(entries, ReadBundle(tree[PathAt(tree.Keys, next)]).value, ReadFrom(tree, next + 1));
    }
  }

  lemma MoveKeepsConsistent(proc: Process, ref: Option<Commit>, c: Commit)
    requires ReadConsistently(proc, ref) && Descends(c, ref)
    ensures ReadConsistently(proc, Some(c))
  {
    match proc
    case ReadingCheckpoint(head) => MovesOn(ref, c, Some(head));
    case Listing(head, _) => MovesOn(ref, c, Some(head));
    case LoadingBundles(head, _, _, _, _) => MovesOn(ref, c, Some(head));
    case Holding(log, _) => MovesOn(ref, c, log.head);
    case _ =>
  }

  lemma StepConsistent(s: Store, e: Event)
    requires Consistent(s)
    ensures Consistent(Step(s, e))
  {
    var next := Step(s, e);
    forall p | p in next.processes
      ensures ReadConsistently(next.processes[p], next.ref)
    {
      if e.Read? { ReadStepConsistent(ProcessAt(s, e.p), s.ref); }
      if next.ref != s.ref {
        MoveKeepsConsistent(ProcessAt(s, p), s.ref, next.ref.value);
      }
    }
  }

  lemma {:induction false} RunConsistent(s: Store, events: seq<Event>)
    requires Consistent(s)
    ensures Consistent(After(s, events))
    decreases |events|
  {
    if events != [] {
      StepConsistent(s, events[0]);
      RunConsistent(Step(s, events[0]), events[1..]);
    }
  }

  /**
    No update is lost.  However the git calls of any number of processes are
    interleaved, a save that succeeds installs what opening the ref at that very
    moment, appending and saving in one step would install: a list that extends
    the one the ref held just before, on a commit whose parent is that one.
   */
  lemma NoLostUpdate(start: Store, events: seq<Event>, p: nat, checkpoint: bytes, message: bytes)
    requires start.processes == map[]
    requires var s := After(start, events);
             ProcessAt(s, p).Holding? && CanSave(s, ProcessAt(s, p).log)
    ensures var s := After(start, events); var log := ProcessAt(s, p).log;
            && Opened(s.ref).Ok?
            && Opened(s.ref).value.entries == ProcessAt(s, p).base <= log.entries
            && Opened(s.ref).value.checkpoint == log.checkpoint
            && Step(s, Save(p, checkpoint, message)).ref
            == Some(Commit(s.ref, Some(checkpoint), TreeOf(log.entries), message))
  {
    RunConsistent(start, events);
  }

  // ---------- The stored checkpoint ----------

  /** A stored checkpoint, if there is one, describes a prefix of the entries. */
  ghost predicate Fits(sha: Sha, checkpoint: bytes, entries: seq<Entry>) {
    checkpoint == [] ||
    (CheckpointOf(checkpoint).Ok? && CheckpointedEntries(sha, entries, CheckpointOf(checkpoint).value).Ok?)
  }

  /** A note describes all of the entries. */
  ghost predicate Describes(sha: Sha, note: bytes, entries: seq<Entry>) {
    && CheckpointOf(note).Ok?
    && CheckpointOf(note).value.size == |entries|
    && CheckpointOf(note).value.root == Rfc6962.RootOf(sha, Leaves(sha, entries))
  }

  lemma DescribesFits(sha: Sha, note: bytes, entries: seq<Entry>)
    requires Describes(sha, note, entries)
    ensures Fits(sha, note, entries)
  {
    assert entries[..|entries|] == entries;
  }

  lemma FitsLonger(sha: Sha, checkpoint: bytes, a: seq<Entry>, b: seq<Entry>)
    requires Fits(sha, checkpoint, a) && a <= b
    ensures Fits(sha, checkpoint, b)
  {
    if checkpoint != [] {
      var n := CheckpointOf(checkpoint).value.size;
      assert a[..n] == b[..n];
    }
  }

  /** The entries the ref holds. */
  ghost function EntriesAt(ref: Option<Commit>): seq<Entry> {
    if Opened(ref).Ok? then Opened(ref).value.entries else []
  }

  /** The ref holds a tree as `Save` writes it, with a checkpoint that fits. */
  ghost predicate Lawful(sha: Sha, ref: Option<Commit>) {
    ref.Some? ==>
      && ReadTree(ref.value.tree).Ok?
      && Storable(EntriesAt(ref)) && ref.value.tree == TreeOf(EntriesAt(ref))
      && Fits(sha, StoredIn(ref.value), EntriesAt(ref))
  }

  /**
    What the program's commands do.  `logRefs` writes the stored checkpoint back;
    `checkpointLog` stores a note about the entries it holds.  A push brings what
    the same commands did in another clone.
   */
  ghost predicate ByCommands(sha: Sha, s: Store, e: Event) {
    match e
    case Save(p, checkpoint, _) =>
      ProcessAt(s, p).Holding? ==>
        var log := ProcessAt(s, p).log;
        && WellFormed(log.entries)
        && (checkpoint == log.checkpoint || Describes(sha, checkpoint, log.entries))
    case Push(commit) => Lawful(sha, Some(commit)) && EntriesAt(s.ref) <= EntriesAt(Some(commit))
    case _ => true
  }

  ghost predicate RunByCommands(sha: Sha, s: Store, events: seq<Event>)
    decreases |events|
  {
    events == [] || (ByCommands(sha, s, events[0]) && RunByCommands(sha, Step(s, events[0]), events[1..]))
  }

  /** What a process has read fits together, even if the ref moved on in between. */
  ghost predicate ReadsFit(sha: Sha, proc: Process, ref: Option<Commit>) {
    match proc
    case Starting => true
    case Resolving => true
    case Failed => true
    case ReadingCheckpoint(_) => ref.Some?
    case Listing(_, checkpoint) => ref.Some? && Fits(sha, checkpoint, EntriesAt(ref))
    case LoadingBundles(_, checkpoint, listed, next, entries) =>
      ref.Some? && ListingOf(listed, EntriesAt(ref)) && LoadsFit(sha, checkpoint, listed, next, entries)
    case Holding(log, base) => Fits(sha, log.checkpoint, log.entries) && WellFormed(base)
  }

  /** What was loaded is the first part of what was listed, which the checkpoint fits. */
  ghost predicate LoadsFit(sha: Sha, checkpoint: bytes, listed: Tree, next: nat, entries: seq<Entry>) {
    && ReadTree(listed).Ok? && ReadTree(listed) == Prepend(entries, ReadFrom(listed, next))
    && Fits(sha, checkpoint, ReadTree(listed).value)
  }

  /** The tree of a prefix of the entries. */
  ghost predicate ListingOf(listed: Tree, entries: seq<Entry>) {
    && ReadTree(listed).Ok?
    && Storable(ReadTree(listed).value) && listed == TreeOf(ReadTree(listed).value)
    && ReadTree(listed).value <= entries
  }

  ghost predicate Fitting(sha: Sha, s: Store) {
    && Consistent(s) && Lawful(sha, s.ref)
    && forall p :: p in s.processes ==> ReadsFit(sha, s.processes[p], s.ref)
  }

  /** A bundle that is still in the tree has the content it had when it was listed. */
  lemma BundleUnchanged(sha: Sha, ref: Option<Commit>, listed: Tree, path: Path)
    requires Lawful(sha, ref) && ref.Some? && ListingOf(listed, EntriesAt(ref))
    requires path in listed && path in ref.value.tree
    ensures ref.value.tree[path] == listed[path]
  {
    SharedPath(ReadTree(listed).value, EntriesAt(ref), 0, path);
  }

  /** Loading one more bundle of what was listed. */
  lemma LoadsMore(sha: Sha, checkpoint: bytes, listed: Tree, next: nat, entries: seq<Entry>)
    requires LoadsFit(sha, checkpoint, listed, next, entries)
    requires next < |listed| && HasIndex(listed.Keys, next) && ReadBundle(listed[PathAt(listed.Keys, next)]).Ok?
    ensures LoadsFit(sha, checkpoint, listed, next + 1, LoadedMore(listed, next, entries))
  {
    LoadConsistent(listed, next, entries);
  }

  /** All of what was listed is loaded. */
  lemma LoadsAll(sha: Sha, checkpoint: bytes, listed: Tree, next: nat, entries: seq<Entry>)
    requires LoadsFit(sha, checkpoint, listed, next, entries) && next >= |listed|
    ensures Fits(sha, checkpoint, entries) && WellFormed(entries)
  {
    assert entries + [] == entries;
    ReadFromWellFormed(listed, 0);
  }

  /** Each bundle that is still in the tree has the content it had when it was listed. */
  ghost predicate Unchanged(listed: Tree, tree: Tree) {
    forall path :: path in listed && path in tree ==> tree[path] == listed[path]
  }

  /** A process goes on loading what it listed, has loaded all of it, or fails. */
  lemma LoadingStays(head: Commit, checkpoint: bytes, listed: Tree, next: nat, entries: seq<Entry>, ref: Option<Commit>)
    requires ref.Some? && Unchanged(listed, ref.value.tree)
    ensures var after := ReadStep(LoadingBundles(head, checkpoint, listed, next, entries), ref);
            after == Failed ||
            if next >= |listed| then after == Holding(LogState(entries, checkpoint, Some(head)), entries)
            else
              && HasIndex(listed.Keys, next) && ReadBundle(listed[PathAt(listed.Keys, next)]).Ok?
              && after == LoadingBundles(head, checkpoint, listed, next + 1, LoadedMore(listed, next, entries))
  {
  }

  lemma ReadStepFits(sha: Sha, proc: Process, ref: Option<Commit>)
    requires Lawful(sha, ref) && ReadsFit(sha, proc, ref)
    ensures ReadsFit(sha, ReadStep(proc, ref), ref)
  {
    match proc
    case LoadingBundles(head, checkpoint, listed, next, entries) =>
      LoadingFits(sha, head, checkpoint, listed, next, entries, ref);
    case Listing(_, _) => PrependNothing(ReadFrom(ref.value.tree, 0));
    case _ =>
  }

  lemma LoadingFits(sha: Sha, head: Commit, checkpoint: bytes, listed: Tree, next: nat, entries: seq<Entry>,
                    ref: Option<Commit>)
    requires Lawful(sha, ref) && ref.Some? && ListingOf(listed, EntriesAt(ref))
    requires LoadsFit(sha, checkpoint, listed, next, entries)
    ensures ReadsFit(sha, ReadStep(LoadingBundles(head, checkpoint, listed, next, entries), ref), ref)
  {
    forall path | path in listed && path in ref.value.tree
      ensures ref.value.tree[path] == listed[path]
    {
      BundleUnchanged(sha, ref, listed, path);
    }
    UnchangedFits(sha, head, checkpoint, listed, next, entries, ref);
  }

  lemma UnchangedFits(sha: Sha, head: Commit, checkpoint: bytes, listed: Tree, next: nat, entries: seq<Entry>,
                      ref: Option<Commit>)
    requires ref.Some? && Unchanged(listed, ref.value.tree) && ListingOf(listed, EntriesAt(ref))
    requires LoadsFit(sha, checkpoint, listed, next, entries)
    ensures ReadsFit(sha, ReadStep(LoadingBundles(head, checkpoint, listed, next, entries), ref), ref)
  {
    LoadingStays(head, checkpoint, listed, next, entries, ref);
    if ReadStep(LoadingBundles(head, checkpoint, listed, next, entries), ref) != Failed {
      if next >= |listed| {
        LoadsAll(sha, checkpoint, listed, next, entries);
      } else {
        LoadsMore(sha, checkpoint, listed, next, entries);
      }
    }
  }

  lemma MoveKeepsFit(sha: Sha, proc: Process, ref: Option<Commit>, c: Commit)
    requires ReadsFit(sha, proc, ref) && EntriesAt(ref) <= EntriesAt(Some(c))
    ensures ReadsFit(sha, proc, Some(c))
  {
    if proc.Listing? { FitsLonger(sha, proc.checkpoint, EntriesAt(ref), EntriesAt(Some(c))); }
  }

  /** What a save by a command leaves in the ref. */
  lemma SaveIsLawful(sha: Sha, log: LogState, checkpoint: bytes, message: bytes)
    requires WellFormed(log.entries) && Fits(sha, log.checkpoint, log.entries)
    requires checkpoint == log.checkpoint || Describes(sha, checkpoint, log.entries)
    ensures Storable(log.entries)
    ensures var c := SavedAs(log, checkpoint, message);
            Lawful(sha, Some(c)) && EntriesAt(Some(c)) == log.entries
  {
    SaveThenOpen(log, checkpoint, message);
    if checkpoint != log.checkpoint { DescribesFits(sha, checkpoint, log.entries); }
  }

  /** A step that moves the ref adds entries to it. */
  lemma StepGrows(sha: Sha, s: Store, e: Event)
    requires Fitting(sha, s) && ByCommands(sha, s, e)
    ensures Lawful(sha, Step(s, e).ref)
    ensures EntriesAt(s.ref) <= EntriesAt(Step(s, e).ref)
  {
    if e.Save? && ProcessAt(s, e.p).Holding? {
      SaveIsLawful(sha, ProcessAt(s, e.p).log, e.checkpoint, e.message);
    }
  }

  /** A step that leaves the ref where it is. */
  lemma StayFits(sha: Sha, s: Store, e: Event, p: nat)
    requires Fitting(sha, s) && ReadsFit(sha, ProcessAt(s, p), s.ref)
    requires Step(s, e).ref == s.ref
    ensures ReadsFit(sha, ProcessAt(Step(s, e), p), s.ref)
  {
    if e.Read? && e.p == p {
      ReadStepFits(sha, ProcessAt(s, p), s.ref);
    } else if e.Append? && p == e.p {
      match ProcessAt(s, p)
      case Holding(log, base) => AppendFits(sha, log, base, e.entry, s.ref);
      case _ =>
    }
  }

  lemma AppendFits(sha: Sha, log: LogState, base: seq<Entry>, entry: Entry, ref: Option<Commit>)
    requires ReadsFit(sha, Holding(log, base), ref)
    ensures ReadsFit(sha, Holding(log.(entries := log.entries + [entry]), base), ref)
  {
    FitsLonger(sha, log.checkpoint, log.entries, log.entries + [entry]);
  }

  /** A step that moves the ref leaves every process where it is, but for one that has saved and is done. */
  lemma MoveLeavesProcess(s: Store, e: Event, p: nat)
    requires Step(s, e).ref != s.ref
    ensures Step(s, e).ref.Some?
    ensures ProcessAt(Step(s, e), p) == ProcessAt(s, p) || ProcessAt(Step(s, e), p) == Starting
  {
  }

  lemma ProcessFits(sha: Sha, s: Store, e: Event, p: nat)
    requires Fitting(sha, s) && ByCommands(sha, s, e)
    ensures ReadsFit(sha, ProcessAt(Step(s, e), p), Step(s, e).ref)
  {
    if Step(s, e).ref == s.ref {
      StayFits(sha, s, e, p);
    } else {
      StepGrows(sha, s, e);
      MoveLeavesProcess(s, e, p);
      MoveKeepsFit(sha, ProcessAt(s, p), s.ref, Step(s, e).ref.value);
    }
  }

  lemma StepFits(sha: Sha, s: Store, e: Event)
    requires Fitting(sha, s) && ByCommands(sha, s, e)
    ensures Fitting(sha, Step(s, e))
  {
    StepConsistent(s, e);
    StepGrows(sha, s, e);
    var next := Step(s, e);
    forall p | p in next.processes
      ensures ReadsFit(sha, next.processes[p], next.ref)
    {
      ProcessFits(sha, s, e, p);
    }
  }

  /**
    The stored checkpoint, in every run of the commands.  The checkpoint in the
    ref describes a prefix of the entries in the ref, the entries only grow, and
    every process that has opened the log, even one whose reads straddle the
    saves of others, holds a checkpoint that describes a prefix of the entries it
    holds: `Checkpointed` accepts it.
   */
  lemma {:induction false} StoredCheckpointFits(sha: Sha, s: Store, events: seq<Event>)
    requires Fitting(sha, s) && RunByCommands(sha, s, events)
    ensures Fitting(sha, After(s, events))
    ensures EntriesAt(s.ref) <= EntriesAt(After(s, events).ref)
    decreases |events|
  {
    if events != [] {
      StepFits(sha, s, events[0]);
      StepGrows(sha, s, events[0]);
      StoredCheckpointFits(sha, Step(s, events[0]), events[1..]);
    }
  }

  /** The theorem for one process, from a lawful ref on which nothing runs yet. */
  lemma StraddlingReader(sha: Sha, start: Store, events: seq<Event>, p: nat)
    requires start.processes == map[] && Lawful(sha, start.ref)
    requires RunByCommands(sha, start, events)
    requires ProcessAt(After(start, events), p).Holding?
    ensures var log := ProcessAt(After(start, events), p).log;
            log.checkpoint == [] ||
            (CheckpointOf(log.checkpoint).Ok? &&
             var cp := CheckpointOf(log.checkpoint).value;
             && cp.size <= |log.entries|
             && cp.root == Rfc6962.RootOf(sha, Leaves(sha, log.entries[..cp.size]))
             && CheckpointedEntries(sha, log.entries, cp) == Ok(log.entries[..cp.size]))
  {
    StoredCheckpointFits(sha, start, events);
  }
}
