/**
  The ratchet rule when commands overlap: any number of processes run the commands
  of ratchet.go on one log ref, and their git calls are interleaved in any way.
 */
module Interleaving {
  import opened Wrappers
  import opened Hashing
  import opened Entries
  import opened Reading
  import opened GitUtil
  import opened GitLog
  import opened LogStore
  import opened Chains
  import opened Ratchet
  import opened Runs

  /**
    Logging refs one after the other, each resolved when it is reached: between two
    of them the refs and the objects of the clone may have changed.
   */
  function WithRefsAt(entries: seq<Entry>, steps: seq<(Clone, bytes)>): Result<seq<Entry>, RatchetError>
    decreases |steps|
  {
    if steps == [] then Ok(entries)
    else
      var next :- WithRefs(steps[0].0, entries, [steps[0].1]);
      WithRefsAt(next, steps[1..])
  }

  /** In a clone where nothing changes meanwhile, that is what `WithRefs` gives. */
  lemma {:induction false} WithRefsInSteps(clone: Clone, entries: seq<Entry>, refs: seq<bytes>)
    ensures WithRefsAt(entries, seq(|refs|, i requires 0 <= i < |refs| => (clone, refs[i])))
         == WithRefs(clone, entries, refs)
    decreases |refs|
  {
    if refs != [] {
      var steps := seq(|refs|, i requires 0 <= i < |refs| => (clone, refs[i]));
      var rest := refs[1..];
      assert steps[1..] == seq(|rest|, i requires 0 <= i < |rest| => (clone, rest[i]));
      WithRefsStep(clone, entries, refs);
      var one := WithRefs(clone, entries, [refs[0]]);
      if one.Ok? { WithRefsInSteps(clone, one.value, rest); }
    }
  }

  /** Some clone, with all the objects it had while it was asked, accepts the chains of a log. */
  ghost predicate ChainsChecked(anc: Ancestry, entries: seq<Entry>) {
    exists clone: Clone :: clone.anc == anc && LogChainsOk(clone, entries)
  }

  /** What a `log` command saves: the entries it opened, with the refs it was asked to log. */
  ghost predicate SavedByLog(base: seq<Entry>, entries: seq<Entry>) {
    exists steps: seq<(Clone, bytes)> :: WithRefsAt(base, steps) == Ok(entries)
  }

  /**
    The commands, as steps of the concurrent store.  A `log` command saves what it
    opened with the refs it logged, and the checkpoint that was stored; a
    `checkpoint` command saves what it opened, and a note about it.  Both check the
    chains first.  A push brings what the same commands did in another repository.
   */
  ghost predicate ByRatchet(sha: Sha, anc: Ancestry, s: Store, e: Event) {
    match e
    case Save(p, checkpoint, _) =>
      ProcessAt(s, p).Holding? ==>
        var Holding(log, base) := ProcessAt(s, p);
        && ChainsChecked(anc, log.entries)
        && (|| (SavedByLog(base, log.entries) && checkpoint == log.checkpoint)
            || (log.entries == base && Describes(sha, checkpoint, log.entries)))
    case Push(commit) => Sound(sha, anc, Some(commit)) && EntriesAt(s.ref) <= EntriesAt(Some(commit))
    case _ => true
  }

  ghost predicate RunByRatchet(sha: Sha, anc: Ancestry, s: Store, events: seq<Event>)
    decreases |events|
  {
    events == [] || (ByRatchet(sha, anc, s, events[0]) && RunByRatchet(sha, anc, Step(s, events[0]), events[1..]))
  }

  lemma {:induction false} StepsGrow(entries: seq<Entry>, steps: seq<(Clone, bytes)>)
    requires WithRefsAt(entries, steps).Ok?
    ensures entries <= WithRefsAt(entries, steps).value
    decreases |steps|
  {
    if steps != [] {
      WithRefsGrows(steps[0].0, entries, [steps[0].1]);
      StepsGrow(WithRefs(steps[0].0, entries, [steps[0].1]).value, steps[1..]);
    }
  }

  /** Logging refs one by one keeps the list well formed, and repeats no record. */
  lemma {:induction false} StepsKeep(entries: seq<Entry>, steps: seq<(Clone, bytes)>, ref: bytes)
    requires WellFormed(entries) && WithRefsAt(entries, steps).Ok? && Decodable(WithRefsAt(entries, steps).value)
    ensures WellFormed(WithRefsAt(entries, steps).value)
    ensures NoRepeats(RecordsOf(entries, ref)) ==> NoRepeats(RecordsOf(WithRefsAt(entries, steps).value, ref))
    decreases |steps|
  {
    if steps != [] {
      var next := WithRefs(steps[0].0, entries, [steps[0].1]).value;
      StepsGrow(next, steps[1..]);
      PrefixDecodable(next, WithRefsAt(entries, steps).value);
      OneRefRepeatsNothing(steps[0].0, entries, steps[0].1, ref, next);
      StepsKeep(next, steps[1..], ref);
    }
  }

  /** What a command saves is well formed, and its chains keep the rule. */
  lemma SavedKeepsRule(anc: Ancestry, base: seq<Entry>, entries: seq<Entry>)
    requires IsAncestry(anc) && WellFormed(base) && ChainsChecked(anc, entries)
    requires entries == base || SavedByLog(base, entries)
    ensures WellFormed(entries)
    ensures (forall ref :: RefKept(anc, base, ref)) ==> forall ref :: RefKept(anc, entries, ref)
  {
    var clone: Clone :| clone.anc == anc && LogChainsOk(clone, entries);
    RecordsOk(entries, []);
    if entries != base {
      var steps :| WithRefsAt(base, steps) == Ok(entries);
      StepsKeep(base, steps, []);
      if forall ref :: RefKept(anc, base, ref) {
        forall ref
          ensures RefKept(anc, entries, ref)
        {
          assert RefKept(anc, base, ref);
          StepsKeep(base, steps, ref);
          AcceptedKept(clone, entries, ref);
        }
      }
    }
  }

  /** What every interleaving keeps. */
  ghost predicate Ruled(sha: Sha, anc: Ancestry, s: Store) {
    Fitting(sha, s) && Sound(sha, anc, s.ref)
  }

  lemma StepByCommands(sha: Sha, anc: Ancestry, s: Store, e: Event)
    requires IsAncestry(anc) && Ruled(sha, anc, s) && ByRatchet(sha, anc, s, e)
    ensures ByCommands(sha, s, e)
  {
    if e.Save? && ProcessAt(s, e.p).Holding? {
      var Holding(log, base) := ProcessAt(s, e.p);
      assert ReadsFit(sha, s.processes[e.p], s.ref);
      SavedKeepsRule(anc, base, log.entries);
    }
  }

  lemma StepKeepsRule(sha: Sha, anc: Ancestry, s: Store, e: Event)
    requires IsAncestry(anc) && Ruled(sha, anc, s) && ByRatchet(sha, anc, s, e)
    ensures Ruled(sha, anc, Step(s, e))
  {
    StepByCommands(sha, anc, s, e);
    StepFits(sha, s, e);
    if e.Save? && ProcessAt(s, e.p).Holding? && CanSave(s, ProcessAt(s, e.p).log) {
      var Holding(log, base) := ProcessAt(s, e.p);
      assert ReadsFit(sha, s.processes[e.p], s.ref) && ReadConsistently(s.processes[e.p], s.ref);
      SavedKeepsRule(anc, base, log.entries);
      SaveIsLawful(sha, log, e.checkpoint, e.message);
    }
  }

  /**
    The ratchet rule in every interleaving.  However the git calls of any number of
    `log` and `checkpoint` commands overlap, and whatever is pushed in between, the
    entries in the ref only grow, its stored checkpoint fits them, every ref's
    records keep the ratchet rule, and no ref is recorded twice in a row at one
    object.
   */
  lemma {:induction false} InterleavingsKeepRule(sha: Sha, anc: Ancestry, s: Store, events: seq<Event>)
    requires IsAncestry(anc) && Ruled(sha, anc, s) && RunByRatchet(sha, anc, s, events)
    ensures Ruled(sha, anc, After(s, events))
    ensures EntriesAt(s.ref) <= EntriesAt(After(s, events).ref)
    decreases |events|
  {
    if events != [] {
      StepByCommands(sha, anc, s, events[0]);
      StepGrows(sha, s, events[0]);
      StepKeepsRule(sha, anc, s, events[0]);
      InterleavingsKeepRule(sha, anc, Step(s, events[0]), events[1..]);
    }
  }

  /**
    The theorem from an empty log: in every run a clone that has the logged objects
    accepts every chain in the ref.
   */
  lemma InterleavedWriters(sha: Sha, clone: Clone, events: seq<Event>)
    requires IsAncestry(clone.anc) && RunByRatchet(sha, clone.anc, Store(None, map[]), events)
    ensures var ref := After(Store(None, map[]), events).ref;
            && Opened(ref).Ok?
            && ((forall name :: AllPresent(clone, RecordsOf(EntriesAt(ref), name))) ==>
                  LogChainsOk(clone, EntriesAt(ref)))
  {
    InterleavingsKeepRule(sha, clone.anc, Store(None, map[]), events);
    var ref := After(Store(None, map[]), events).ref;
    if forall name :: AllPresent(clone, RecordsOf(EntriesAt(ref), name)) {
      KeptAccepted(sha, clone, ref);
    }
  }
}
