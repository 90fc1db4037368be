/**
  A command of ratchet.go as a run of the concurrent store in which no other
  process takes a step: it opens what `Log.Open` opens, and leaves the log ref where
  the command leaves it.
 */
module SoloRuns {
  import opened Wrappers
  import opened Hashing
  import opened Entries
  import opened Storage
  import opened Reading
  import opened GitUtil
  import opened GitLog
  import opened LogStore
  import opened Ratchet
  import opened Runs
  import opened Interleaving

  /** A number of git calls of one process, one after the other. */
  function Reads(p: nat, n: nat): seq<Event> {
    if n == 0 then [] else [Read(p)] + Reads(p, n - 1)
  }

  function Appends(p: nat, entries: seq<Entry>): seq<Event> {
    if entries == [] then [] else [Append(p, entries[0])] + Appends(p, entries[1..])
  }

  // ---------- Opening the log ----------

  /** A process after a number of git calls while the ref stays where it is. */
  ghost function ReadTimes(proc: Process, ref: Option<Commit>, n: nat): Process
    decreases n
  {
    if n == 0 then proc else ReadTimes(ReadStep(proc, ref), ref, n - 1)
  }

  lemma {:induction false} ReadsAfter(s: Store, p: nat, n: nat)
    requires n > 0
    ensures After(s, Reads(p, n)) == Set(s, p, ReadTimes(ProcessAt(s, p), s.ref, n))
    decreases n
  {
    var next := Step(s, Read(p));
    assert Reads(p, n)[1..] == Reads(p, n - 1);
    if n > 1 {
      ReadsAfter(next, p, n - 1);
      SetTwice(s, p, ReadStep(ProcessAt(s, p), s.ref), ReadTimes(ProcessAt(s, p), s.ref, n));
    }
  }

  lemma SetTwice(s: Store, p: nat, first: Process, second: Process)
    ensures Set(Set(s, p, first), p, second) == Set(s, p, second)
  {
  }

  /** A process that is done with opening stays as it is. */
  lemma {:induction false} DoneStays(proc: Process, ref: Option<Commit>, n: nat)
    requires proc.Holding? || proc.Failed?
    ensures ReadTimes(proc, ref, n) == proc
    decreases n
  {
    if n > 0 { DoneStays(proc, ref, n - 1); }
  }

  /** What a process holds that has opened the log. */
  function HoldingOf(log: LogState): Process {
    Holding(log, log.entries)
  }

  /** What comes of loading the bundles that are left, with some entries loaded. */
  ghost function Loaded(head: Commit, checkpoint: bytes, r: Result<seq<Entry>, StorageError>): Process {
    if r.Ok? then HoldingOf(LogState(r.value, checkpoint, Some(head))) else Failed
  }

  /** What comes of loading the bundles from `i` on. */
  ghost function LoadedFrom(head: Commit, checkpoint: bytes, i: nat, entries: seq<Entry>): Process {
    Loaded(head, checkpoint, Prepend(entries, ReadFrom(head.tree, i)))
  }

  /** One bundle more, or all that comes of the rest. */
  lemma LoadsOne(head: Commit, checkpoint: bytes, i: nat, entries: seq<Entry>, n: nat)
    returns (next: Process, more: seq<Entry>)
    requires n > 0
    ensures ReadTimes(LoadingBundles(head, checkpoint, head.tree, i, entries), Some(head), n)
         == ReadTimes(next, Some(head), n - 1)
    ensures || (i < |head.tree| && next == LoadingBundles(head, checkpoint, head.tree, i + 1, more)
                && LoadedFrom(head, checkpoint, i, entries) == LoadedFrom(head, checkpoint, i + 1, more))
            || ((next.Holding? || next.Failed?) && next == LoadedFrom(head, checkpoint, i, entries))
  {
    next := ReadStep(LoadingBundles(head, checkpoint, head.tree, i, entries), Some(head));
    LoadConsistent(head.tree, i, entries);
    more := if next.LoadingBundles? then LoadedMore(head.tree, i, entries) else [];
  }

  lemma {:induction false} LoadsRest(head: Commit, checkpoint: bytes, i: nat, entries: seq<Entry>, n: nat)
    requires i <= |head.tree| && n > |head.tree| - i
    ensures ReadTimes(LoadingBundles(head, checkpoint, head.tree, i, entries), Some(head), n)
         == LoadedFrom(head, checkpoint, i, entries)
    decreases |head.tree| - i
  {
    var next, more := LoadsOne(head, checkpoint, i, entries, n);
    if next.LoadingBundles? {
      LoadsRest(head, checkpoint, i + 1, more, n - 1);
    } else {
      DoneStays(next, Some(head), n - 1);
    }
  }

  /** What a process is to be once it has opened the log. */
  ghost function OpenedProcess(ref: Option<Commit>): Process {
    match Opened(ref)
    case Ok(log) => HoldingOf(log)
    case Err(_) => Failed
  }

  /** How many git calls it takes at most. */
  function Calls(ref: Option<Commit>): nat {
    5 + if ref.Some? then |ref.value.tree| else 0
  }

  lemma OpensBundles(head: Commit, n: nat)
    requires n >= 1 + |head.tree|
    ensures DistinctIndices(head.tree.Keys) ==>
              ReadTimes(LoadingBundles(head, StoredIn(head), head.tree, 0, []), Some(head), n)
              == OpenedProcess(Some(head))
    ensures !DistinctIndices(head.tree.Keys) ==> OpenedProcess(Some(head)) == Failed
  {
    LoadsRest(head, StoredIn(head), 0, [], n);
    PrependNothing(ReadFrom(head.tree, 0));
  }

  lemma OpensLog(ref: Option<Commit>)
    ensures ReadTimes(Starting, ref, Calls(ref)) == OpenedProcess(ref)
  {
    match ref
    case None => DoneStays(HoldingOf(LogState([], [], None)), ref, 4);
    case Some(head) =>
      FirstCalls(head, Calls(ref));
      OpensBundles(head, Calls(ref) - 4);
      DoneStays(Failed, ref, Calls(ref) - 4);
  }

  /** The calls before the first bundle is loaded. */
  lemma FirstCalls(head: Commit, n: nat)
    requires n >= 5
    ensures ReadTimes(Starting, Some(head), n)
         == ReadTimes(if DistinctIndices(head.tree.Keys)
                      then LoadingBundles(head, StoredIn(head), head.tree, 0, [])
                      else Failed, Some(head), n - 4)
  {
    var ref := Some(head);
    assert ReadTimes(Starting, ref, n) == ReadTimes(Resolving, ref, n - 1);
    assert ReadTimes(Resolving, ref, n - 1) == ReadTimes(ReadingCheckpoint(head), ref, n - 2);
    assert ReadTimes(ReadingCheckpoint(head), ref, n - 2) == ReadTimes(Listing(head, StoredIn(head)), ref, n - 3);
  }

  /**
    A process that is not interrupted opens what the ref holds: after its git calls
    it holds the log that `Log.Open` returns, or has failed where that one fails.
   */
  lemma UninterruptedOpen(s: Store, p: nat)
    requires ProcessAt(s, p) == Starting
    ensures After(s, Reads(p, Calls(s.ref))) == Set(s, p, OpenedProcess(s.ref))
  {
    ReadsAfter(s, p, Calls(s.ref));
    OpensLog(s.ref);
  }

  // ---------- A whole command ----------

  lemma AppendStep(s: Store, p: nat, log: LogState, base: seq<Entry>, entry: Entry)
    ensures Step(Set(s, p, Holding(log, base)), Append(p, entry))
         == Set(s, p, Holding(log.(entries := log.entries + [entry]), base))
  {
    SetTwice(s, p, Holding(log, base), Holding(log.(entries := log.entries + [entry]), base));
  }

  lemma {:induction false} AppendsAfter(s: Store, p: nat, log: LogState, base: seq<Entry>, entries: seq<Entry>)
    ensures After(Set(s, p, Holding(log, base)), Appends(p, entries))
         == Set(s, p, Holding(log.(entries := log.entries + entries), base))
    decreases |entries|
  {
    if entries == [] {
      assert log.entries + [] == log.entries;
    } else {
      var one := log.(entries := log.entries + [entries[0]]);
      AppendStep(s, p, log, base, entries[0]);
      AppendsAfter(s, p, one, base, entries[1..]);
      AfterCons(Set(s, p, Holding(log, base)), Append(p, entries[0]), Appends(p, entries[1..]));
      assert one.entries + entries[1..] == log.entries + entries;
    }
  }

  lemma AfterCons(s: Store, e: Event, events: seq<Event>)
    ensures After(s, [e] + events) == After(Step(s, e), events)
  {
    assert ([e] + events)[1..] == events;
  }

  lemma {:induction false} AfterConcat(s: Store, a: seq<Event>, b: seq<Event>)
    ensures After(s, a + b) == After(After(s, a), b)
    decreases |a|
  {
    if a == [] {
      assert a + b == b;
    } else {
      assert (a + b)[1..] == a[1..] + b;
      AfterConcat(Step(s, a[0]), a[1..], b);
    }
  }

  lemma {:induction false} RunConcat(sha: Sha, anc: Ancestry, s: Store, a: seq<Event>, b: seq<Event>)
    requires RunByRatchet(sha, anc, s, a) && RunByRatchet(sha, anc, After(s, a), b)
    ensures RunByRatchet(sha, anc, s, a + b)
    decreases |a|
  {
    if a == [] {
      assert a + b == b;
    } else {
      assert (a + b)[1..] == a[1..] + b;
      RunConcat(sha, anc, Step(s, a[0]), a[1..], b);
    }
  }

  /** Reading and appending are free. */
  predicate Harmless(e: Event) {
    e.Read? || e.Append?
  }

  lemma {:induction false} HarmlessRun(sha: Sha, anc: Ancestry, s: Store, events: seq<Event>)
    requires forall e :: e in events ==> Harmless(e)
    ensures RunByRatchet(sha, anc, s, events)
    decreases |events|
  {
    if events != [] {
      assert events[0] in events;
      HarmlessRun(sha, anc, Step(s, events[0]), events[1..]);
    }
  }

  lemma {:induction false} ReadsHarmless(p: nat, n: nat)
    ensures forall e :: e in Reads(p, n) ==> Harmless(e)
  {
    if n > 0 { ReadsHarmless(p, n - 1); }
  }

  lemma {:induction false} AppendsHarmless(p: nat, entries: seq<Entry>)
    ensures forall e :: e in Appends(p, entries) ==> Harmless(e)
  {
    if entries != [] { AppendsHarmless(p, entries[1..]); }
  }

  /** What a command saves meets the rules of the concurrent store. */
  lemma CommandSaves(sha: Sha, anc: Ancestry, head: Option<Commit>, c: Command, message: bytes)
    returns (log: LogState, checkpoint: bytes)
    requires Performable(anc, c) && Perform(sha, head, c, message).head != head
    ensures Opened(head).Ok? && log == Opened(head).value.(entries := log.entries) && log.head == head
    ensures EntriesAt(head) <= log.entries && Storable(log.entries) && ChainsChecked(anc, log.entries)
    ensures || (SavedByLog(EntriesAt(head), log.entries) && checkpoint == log.checkpoint)
            || (log.entries == EntriesAt(head) && Describes(sha, checkpoint, log.entries))
    ensures Perform(sha, head, c, message).head == Some(SavedAs(log, checkpoint, message))
  {
    OpenedWellFormed(head);
    log := Opened(head).value;
    match c
    case LogCommand(clone, refs) =>
      LogWrites(head, clone, refs, message);
      WithRefsInSteps(clone, log.entries, refs);
      checkpoint := log.checkpoint;
      log := log.(entries := WithRefs(clone, log.entries, refs).value);
    case CheckpointCommand(clone, who, pol) =>
      CheckpointWrites(sha, head, clone, who, pol, message);
      checkpoint := Perform(sha, head, c, message).head.value.checkpoint.value;
      NoteDescribes(sha, who, log.entries, Gathered(sha, head, clone, who));
  }

  /** The events of a process that opens the log, appends entries, and saves. */
  ghost function CommandEvents(ref: Option<Commit>, p: nat, entries: seq<Entry>, checkpoint: bytes, message: bytes)
    : seq<Event>
  {
    Reads(p, Calls(ref)) + Appends(p, entries) + [Save(p, checkpoint, message)]
  }

  /** The store once a process has opened the log and appended what is to be saved. */
  lemma ReadyToSave(s: Store, p: nat, log: LogState, more: seq<Entry>)
    requires ProcessAt(s, p) == Starting && Opened(s.ref) == Ok(log)
    ensures After(s, Reads(p, Calls(s.ref)) + Appends(p, more))
         == Set(s, p, Holding(log.(entries := log.entries + more), log.entries))
  {
    UninterruptedOpen(s, p);
    AppendsAfter(s, p, log, log.entries, more);
    AfterConcat(s, Reads(p, Calls(s.ref)), Appends(p, more));
  }

  /** Opening the log, appending and then saving by the rules. */
  lemma SavesAsRun(sha: Sha, anc: Ancestry, s: Store, p: nat, log: LogState, more: seq<Entry>, checkpoint: bytes,
                   message: bytes)
    requires ProcessAt(s, p) == Starting && Opened(s.ref) == Ok(log)
    requires var ready := Set(s, p, Holding(log.(entries := log.entries + more), log.entries));
             ByRatchet(sha, anc, ready, Save(p, checkpoint, message))
    ensures var ready := Set(s, p, Holding(log.(entries := log.entries + more), log.entries));
            var events := CommandEvents(s.ref, p, more, checkpoint, message);
            RunByRatchet(sha, anc, s, events) && After(s, events) == Step(ready, Save(p, checkpoint, message))
  {
    var first, save := Reads(p, Calls(s.ref)) + Appends(p, more), Save(p, checkpoint, message);
    ReadyToSave(s, p, log, more);
    ReadsHarmless(p, Calls(s.ref));
    AppendsHarmless(p, more);
    HarmlessRun(sha, anc, s, first);
    assert [save] == [save] + [];
    AfterCons(After(s, first), save, []);
    assert [save][1..] == [];
    RunConcat(sha, anc, s, first, [save]);
    AfterConcat(s, first, [save]);
  }

  /** Such a save goes through: the ref is where the log was opened. */
  lemma SaveGoesThrough(s: Store, p: nat, log: LogState, base: seq<Entry>, checkpoint: bytes, message: bytes)
    requires Storable(log.entries) && log.head == s.ref
    ensures Step(Set(s, p, Holding(log, base)), Save(p, checkpoint, message)).ref
         == Some(SavedAs(log, checkpoint, message))
  {
  }

  /** What a process saves from what it opened meets the rules. */
  lemma SaveByRules(sha: Sha, anc: Ancestry, s: Store, p: nat, log: LogState, base: seq<Entry>, checkpoint: bytes,
                    message: bytes)
    requires ChainsChecked(anc, log.entries)
    requires || (SavedByLog(base, log.entries) && checkpoint == log.checkpoint)
             || (log.entries == base && Describes(sha, checkpoint, log.entries))
    ensures ByRatchet(sha, anc, Set(s, p, Holding(log, base)), Save(p, checkpoint, message))
  {
  }

  /** What is appended to a log that was before. */
  ghost function WhatIsAdded(before: LogState, log: LogState): (more: seq<Entry>)
    requires before.entries <= log.entries && log == before.(entries := log.entries)
    ensures before.(entries := before.entries + more) == log
  {
    var more := log.entries[|before.entries|..];
    assert before.entries + more == log.entries;
    more
  }

  /**
    A command that moves the ref is a run of the concurrent store by its rules: a
    process that is not interrupted, makes its git calls, appends what it logs and
    saves, leaves the ref where the command does.
   */
  lemma CommandAsRun(sha: Sha, anc: Ancestry, s: Store, p: nat, c: Command, message: bytes)
    returns (more: seq<Entry>, checkpoint: bytes)
    requires Performable(anc, c) && ProcessAt(s, p) == Starting
    requires Perform(sha, s.ref, c, message).head != s.ref
    ensures RunByRatchet(sha, anc, s, CommandEvents(s.ref, p, more, checkpoint, message))
    ensures After(s, CommandEvents(s.ref, p, more, checkpoint, message)).ref == Perform(sha, s.ref, c, message).head
  {
    var log, note := CommandSaves(sha, anc, s.ref, c, message);
    var before := Opened(s.ref).value;
    more, checkpoint := WhatIsAdded(before, log), note;
    SaveByRules(sha, anc, s, p, log, before.entries, checkpoint, message);
    SavesAsRun(sha, anc, s, p, before, more, checkpoint, message);
    SaveGoesThrough(s, p, log, before.entries, checkpoint, message);
  }
}
