/** What runs of the commands in ratchet.go keep, and what verification depends on. */
module Runs {
  import opened Wrappers
  import opened Hashing
  import opened Text
  import opened Encodings
  import opened Entries
  import opened Storage
  import opened Reading
  import opened Notes
  import opened SignedNotes
  import opened Checkpoints
  import opened GitUtil
  import opened GitLog
  import opened LogStore
  import opened Chains
  import opened Policies
  import opened Collecting
  import opened Ratchet

  // ---------- Logging refs ----------

  ghost function RecordsOf(entries: seq<Entry>, ref: bytes): seq<RefRecord> {
    if Records(entries, ref).Ok? then Records(entries, ref).value else []
  }

  /** The records of a ref, with one more entry that is a record. */
  lemma RecordsSnoc(entries: seq<Entry>, e: Entry, ref: bytes)
    requires Decodable(entries + [e]) && e.kind == TypeRefRecord
    ensures AsRefRecord(e).Ok?
    ensures RecordsOf(entries + [e], ref)
         == RecordsOf(entries, ref) + if AsRefRecord(e).value.ref == ref then [AsRefRecord(e).value] else []
  {
    RecordsConcat(entries, [e], ref);
    assert e in [e] && [e][1..] == [];
  }

  /** A new entry that decodes is the statement it was made of, and reads back. */
  lemma DecodableRecord(ref: bytes, obj: bytes)
    requires NewRefRecord(ref, obj).Ok? && AsRefRecord(NewRefRecord(ref, obj).value).Ok?
    ensures var e := NewRefRecord(ref, obj).value;
            AsRefRecord(e).value == RefRecord(ref, obj) && ParseEntry(e.raw) == Ok(e) && e.kind == TypeRefRecord
  {
    NewThenParse(ref, obj);
    if !CleanRef(ref) { UncleanRecordFails(ref, obj); }
  }

  lemma PrefixDecodable(a: seq<Entry>, b: seq<Entry>)
    requires a <= b && Decodable(b)
    ensures Decodable(a)
  {
    forall e | e in a
      ensures e in b
    {
      var i :| 0 <= i < |a| && a[i] == e;
      assert b[i] == e;
    }
  }

  /** Logging one ref. */
  lemma OneRef(clone: Clone, entries: seq<Entry>, ref: bytes, other: bytes)
    requires WellFormed(entries)
    requires WithRefs(clone, entries, [ref]).Ok? && Decodable(WithRefs(clone, entries, [ref]).value)
    ensures var next := WithRefs(clone, entries, [ref]).value;
            && WellFormed(next) && ref in clone.refs
            && Latest(RecordsOf(next, ref)) == Some(clone.refs[ref])
            && (other != ref ==> RecordsOf(next, other) == RecordsOf(entries, other))
            && (Latest(RecordsOf(entries, ref)) == Some(clone.refs[ref]) ==> next == entries)
            && (Latest(RecordsOf(entries, ref)) != Some(clone.refs[ref]) ==>
                  RecordsOf(next, ref) == RecordsOf(entries, ref) + [RefRecord(ref, clone.refs[ref])])
  {
    var next := WithRefs(clone, entries, [ref]).value;
    var obj := clone.refs[ref];
    assert |[ref][1..]| == 0;
    if Latest(RecordsOf(entries, ref)) != Some(obj) {
      var e := NewRefRecord(ref, obj).value;
      assert next == entries + [e] && e in next;
      DecodableRecord(ref, obj);
      RecordsSnoc(entries, e, ref);
      RecordsSnoc(entries, e, other);
    }
  }

  /** No record repeats the one before it. */
  ghost predicate NoRepeats(records: seq<RefRecord>) {
    forall i :: 0 < i < |records| ==> records[i - 1].obj != records[i].obj
  }

  /** Logging one ref repeats no record, of this ref or any other. */
  lemma OneRefRepeatsNothing(clone: Clone, entries: seq<Entry>, ref: bytes, other: bytes, next: seq<Entry>)
    requires WellFormed(entries) && WithRefs(clone, entries, [ref]) == Ok(next) && Decodable(next)
    ensures WellFormed(next)
    ensures NoRepeats(RecordsOf(entries, other)) ==> NoRepeats(RecordsOf(next, other))
  {
    OneRef(clone, entries, ref, other);
    if next != entries && other == ref && NoRepeats(RecordsOf(entries, ref)) {
      NoRepeatsSnoc(RecordsOf(entries, ref), RefRecord(ref, clone.refs[ref]));
    }
  }

  lemma NoRepeatsSnoc(records: seq<RefRecord>, last: RefRecord)
    requires NoRepeats(records) && Latest(records) != Some(last.obj)
    ensures NoRepeats(records + [last])
  {
  }

  /** Logging refs: the new list is well formed, and no ref is recorded twice in a row at one object. */
  lemma {:induction false} LoggedRefs(clone: Clone, entries: seq<Entry>, refs: seq<bytes>, ref: bytes)
    requires WellFormed(entries)
    requires WithRefs(clone, entries, refs).Ok? && Decodable(WithRefs(clone, entries, refs).value)
    ensures var next := WithRefs(clone, entries, refs).value;
            && WellFormed(next)
            && (ref in refs || Latest(RecordsOf(entries, ref)) == OptionalRef(clone, ref) ==>
                  Latest(RecordsOf(next, ref)) == OptionalRef(clone, ref))
            && (NoRepeats(RecordsOf(entries, ref)) ==> NoRepeats(RecordsOf(next, ref)))
    decreases |refs|
  {
    if refs != [] {
      WithRefsStep(clone, entries, refs);
      var mid := WithRefs(clone, entries, [refs[0]]).value;
      WithRefsGrows(clone, mid, refs[1..]);
      PrefixDecodable(mid, WithRefs(clone, entries, refs).value);
      OneRef(clone, entries, refs[0], ref);
      OneRefRepeatsNothing(clone, entries, refs[0], ref, mid);
      LoggedRefs(clone, mid, refs[1..], ref);
    }
  }

  function OptionalRef(clone: Clone, ref: bytes): Option<bytes> {
    if ref in clone.refs then Some(clone.refs[ref]) else None
  }

  /** Refs at their latest logged state are not logged again. */
  lemma {:induction false} NothingToLog(clone: Clone, entries: seq<Entry>, refs: seq<bytes>)
    requires Decodable(entries)
    requires forall ref :: ref in refs ==> ref in clone.refs && Latest(RecordsOf(entries, ref)) == Some(clone.refs[ref])
    ensures WithRefs(clone, entries, refs) == Ok(entries)
    decreases |refs|
  {
    if refs != [] {
      RecordsOk(entries, refs[0]);
      NothingToLog(clone, entries, refs[1..]);
    }
  }

  lemma OpenedWellFormed(head: Option<Commit>)
    requires Opened(head).Ok?
    ensures WellFormed(Opened(head).value.entries) && Opened(head).value.head == head
    ensures Decodable(Opened(head).value.entries)
  {
    if head.Some? { ReadFromWellFormed(head.value.tree, 0); }
    WellFormedDecodable(Opened(head).value.entries);
  }

  /** What a log command that writes has written. */
  lemma LogWrites(head: Option<Commit>, clone: Clone, refs: seq<bytes>, message: bytes)
    requires LogOutcome(head, clone, refs, message).head != head
    ensures Opened(head).Ok? && WithRefs(clone, Opened(head).value.entries, refs).Ok?
    ensures var log := Opened(head).value; var entries := WithRefs(clone, log.entries, refs).value;
            && WellFormed(entries) && LogChainsOk(clone, entries) && Storable(entries) && log.entries <= entries
            && LogOutcome(head, clone, refs, message).head
            == Some(SavedAs(log.(entries := entries), log.checkpoint, message))
  {
    OpenedWellFormed(head);
    var log := Opened(head).value;
    var entries := WithRefs(clone, log.entries, refs).value;
    WithRefsGrows(clone, log.entries, refs);
    RecordsOk(entries, []);
    LoggedRefs(clone, log.entries, refs, []);
  }

  /** The command logs what it is asked to log: afterwards every listed ref is at its latest logged state. */
  lemma LogRecordsRefs(head: Option<Commit>, clone: Clone, refs: seq<bytes>, message: bytes, ref: bytes)
    requires LogOutcome(head, clone, refs, message).reply.Ok? && ref in refs
    ensures var after := LogOutcome(head, clone, refs, message).head;
            && Opened(after).Ok? && ref in clone.refs
            && Latest(RecordsOf(EntriesAt(after), ref)) == Some(clone.refs[ref])
  {
    OpenedWellFormed(head);
    var log := Opened(head).value;
    var entries := WithRefs(clone, log.entries, refs).value;
    WithRefsGrows(clone, log.entries, refs);
    RefsKnown(clone, log.entries, refs, ref);
    var after := LogOutcome(head, clone, refs, message).head;
    if after != head {
      LogWrites(head, clone, refs, message);
      SaveThenOpen(log.(entries := entries), log.checkpoint, message);
      RecordsOk(entries, ref);
    } else {
      LogUnmoved(head, clone, refs, message);
      assert entries == log.entries;
    }
    LoggedRefs(clone, log.entries, refs, ref);
  }

  /** A successful command that leaves the ref where it was had nothing to add. */
  lemma LogUnmoved(head: Option<Commit>, clone: Clone, refs: seq<bytes>, message: bytes)
    requires LogOutcome(head, clone, refs, message).reply.Ok?
    ensures LogOutcome(head, clone, refs, message).head == head <==>
              WithRefs(clone, Opened(head).value.entries, refs) == Ok(Opened(head).value.entries)
  {
    var log := Opened(head).value;
    WithRefsGrows(clone, log.entries, refs);
    OpenedWellFormed(head);
    if |WithRefs(clone, log.entries, refs).value| != |log.entries| {
      var c := LogOutcome(head, clone, refs, message).head.value;
      if Some(c) == head { DescendsDeeper(c, c); }
    } else {
      assert WithRefs(clone, log.entries, refs).value == log.entries;
    }
  }

  lemma {:induction false} RefsKnown(clone: Clone, entries: seq<Entry>, refs: seq<bytes>, ref: bytes)
    requires WithRefs(clone, entries, refs).Ok? && ref in refs
    ensures ref in clone.refs
    decreases |refs|
  {
    WithRefsStep(clone, entries, refs);
    if ref != refs[0] { RefsKnown(clone, WithRefs(clone, entries, [refs[0]]).value, refs[1..], ref); }
  }

  /** Logging is idempotent: repeating a successful command while the refs stay where they are writes nothing. */
  lemma RepeatWritesNothing(head: Option<Commit>, clone: Clone, refs: seq<bytes>, first: bytes, second: bytes)
    requires LogOutcome(head, clone, refs, first).reply.Ok?
    ensures var after := LogOutcome(head, clone, refs, first).head;
            LogOutcome(after, clone, refs, second) == Outcome(Ok(0), after)
  {
    var after := LogOutcome(head, clone, refs, first).head;
    forall ref | ref in refs
      ensures ref in clone.refs && Latest(RecordsOf(EntriesAt(after), ref)) == Some(clone.refs[ref])
    {
      LogRecordsRefs(head, clone, refs, first, ref);
    }
    if refs == [] {
      LogUnmoved(head, clone, refs, first);
    } else {
      LogRecordsRefs(head, clone, refs, first, refs[0]);
      OpenedWellFormed(after);
      NothingToLog(clone, EntriesAt(after), refs);
    }
  }

  // ---------- The writer invariant ----------

  datatype Command =
    | LogCommand(clone: Clone, refs: seq<bytes>)
    | CheckpointCommand(clone: Clone, who: Parties, pol: Policy)

  ghost function Perform(sha: Sha, head: Option<Commit>, c: Command, message: bytes): Outcome {
    match c
    case LogCommand(clone, refs) => LogOutcome(head, clone, refs, message)
    case CheckpointCommand(clone, who, pol) => CheckpointOutcome(sha, head, clone, who, pol, message)
  }

  /** The log ref after commands, each with the message of its commit. */
  ghost function HeadAfter(sha: Sha, head: Option<Commit>, commands: seq<(Command, bytes)>): Option<Commit>
    decreases |commands|
  {
    if commands == [] then head
    else HeadAfter(sha, Perform(sha, head, commands[0].0, commands[0].1).head, commands[1..])
  }

  /** The key's origin is one line. */
  predicate Signs(who: Parties) {
    '\n' !in who.origin
  }

  /** A command of a clone whose commits are the same as everyone's. */
  ghost predicate Performable(anc: Ancestry, c: Command) {
    c.clone.anc == anc && (c.CheckpointCommand? ==> Signs(c.who))
  }

  /** The records of a ref keep the rule, and none repeats the one before it. */
  ghost predicate RefKept(anc: Ancestry, entries: seq<Entry>, ref: bytes) {
    var records := RecordsOf(entries, ref);
    && NoRepeats(records)
    && (records != [] ==> ParseRefKind(ref).Some? && !Breaks(anc, ParseRefKind(ref).value, records))
  }

  /** What every run keeps. */
  ghost predicate Sound(sha: Sha, anc: Ancestry, head: Option<Commit>) {
    Lawful(sha, head) && forall ref :: RefKept(anc, EntriesAt(head), ref)
  }

  lemma {:induction false} NamedRefs(entries: seq<Entry>, ref: bytes)
    requires Decodable(entries)
    ensures RefSet(entries).Ok? && Records(entries, ref).Ok?
    ensures ref in RefSet(entries).value <==> RecordsOf(entries, ref) != []
  {
    RecordsOk(entries, ref);
    if entries != [] {
      assert entries == [entries[0]] + entries[1..];
      NamedRefs(entries[1..], ref);
    }
  }

  /** Chains a clone accepts keep the rule. */
  lemma AcceptedKept(clone: Clone, entries: seq<Entry>, ref: bytes)
    requires IsAncestry(clone.anc) && Decodable(entries) && LogChainsOk(clone, entries)
    requires NoRepeats(RecordsOf(entries, ref))
    ensures RefKept(clone.anc, entries, ref)
  {
    NamedRefs(entries, ref);
    if RecordsOf(entries, ref) != [] {
      var kind := ParseRefKind(ref).value;
      if Breaks(clone.anc, kind, RecordsOf(entries, ref)) { BreaksRejected(clone, kind, RecordsOf(entries, ref)); }
    }
  }

  /**
    And the other way round: chains that keep the rule are accepted by every clone
    that has the logged objects.
   */
  lemma KeptAccepted(sha: Sha, clone: Clone, head: Option<Commit>)
    requires IsAncestry(clone.anc) && Opened(head).Ok? && Sound(sha, clone.anc, head)
    requires forall ref :: AllPresent(clone, RecordsOf(EntriesAt(head), ref))
    ensures LogChainsOk(clone, EntriesAt(head))
  {
    var entries := EntriesAt(head);
    OpenedWellFormed(head);
    NamedRefs(entries, []);
    forall ref | ref in RefSet(entries).value
      ensures RefChainOk(clone, entries, ref)
    {
      NamedRefs(entries, ref);
      assert RefKept(clone.anc, entries, ref) && AllPresent(clone, RecordsOf(entries, ref));
      VerdictIsGlobal(clone, ParseRefKind(ref).value, RecordsOf(entries, ref));
    }
  }

  /** A body that could be signed is that of a checkpoint that reads back. */
  lemma SignableIsWritable(cp: Checkpoint)
    requires '\n' !in cp.origin && ParseCheckpoint(Marshal(cp)).Ok?
    ensures Writable(cp)
  {
    var size, root := Decimal(cp.size), Base64(cp.root.digest);
    var rest1 := size + ['\n'] + (root + ['\n']);
    assert Marshal(cp) == cp.origin + ['\n'] + rest1;
    CutFirst(cp.origin, rest1, '\n');
    DecimalHasNoNewline(cp.size);
    CutFirst(size, root + ['\n'], '\n');
    DecimalRoundTrip(cp.size);
  }

  /** The texts that a checkpoint command gathers from the witnesses. */
  ghost function Gathered(sha: Sha, head: Option<Commit>, clone: Clone, who: Parties): seq<bytes> {
    match ToCheckpoint(head, clone)
    case Err(_) => []
    case Ok((log, oldSize)) =>
      match SignCheckpoint(Marshal(CheckpointFor(sha, who.origin, log.entries)), who.sign)
      case Err(_) => []
      case Ok(signed) =>
        var lines := Collected(who.replies(log.entries, oldSize, signed));
        if lines.Ok? then lines.value else []
  }

  /** The note that is submitted: signed by the log, and cosigned by nobody yet. */
  lemma FreshNote(who: Parties, cp: Checkpoint)
    requires Writable(cp)
    ensures SignCheckpoint(Marshal(cp), who.sign) == Ok(NoteWith(who, cp, []))
    ensures OpenNote(NoteWith(who, cp, [])) == Some((Marshal(cp), [who.sign(Marshal(cp))]))
    ensures SignedIn(NoteWith(who, cp, [])) == Ok(cp)
  {
    var body := Marshal(cp);
    MarshalParses(cp);
    FrameOpens(body, who.sign(body));
  }

  /** What the witnesses are asked, and what is gathered from them. */
  lemma GatheredTexts(sha: Sha, head: Option<Commit>, clone: Clone, who: Parties, oldSize: nat, texts: seq<bytes>)
    requires ToCheckpoint(head, clone).Ok? && ToCheckpoint(head, clone).value.1 == oldSize
    requires Writable(CheckpointFor(sha, who.origin, EntriesAt(head)))
    requires var signed := NoteWith(who, CheckpointFor(sha, who.origin, EntriesAt(head)), []);
             Collected(who.replies(EntriesAt(head), oldSize, signed)) == Ok(texts)
    ensures Gathered(sha, head, clone, who) == texts
  {
    FreshNote(who, CheckpointFor(sha, who.origin, EntriesAt(head)));
  }

  /** What a checkpoint command stores, once the chains are in order and the quorum holds. */
  lemma StoresNote(sha: Sha, head: Option<Commit>, clone: Clone, who: Parties, pol: Policy, message: bytes,
                   oldSize: nat, texts: seq<bytes>)
    requires Opened(head).Ok? && ToCheckpoint(head, clone) == Ok((Opened(head).value, oldSize))
    requires Writable(CheckpointFor(sha, who.origin, EntriesAt(head)))
    requires var cp := CheckpointFor(sha, who.origin, EntriesAt(head));
             && Collected(who.replies(EntriesAt(head), oldSize, NoteWith(who, cp, []))) == Ok(texts)
             && Satisfied(pol, NoteWith(who, cp, texts))
    ensures Storable(EntriesAt(head))
    ensures var note := NoteWith(who, CheckpointFor(sha, who.origin, EntriesAt(head)), texts);
            CheckpointOutcome(sha, head, clone, who, pol, message)
            == Outcome(Ok(|texts|), Some(SavedAs(Opened(head).value, note, message)))
  {
    OpenedWellFormed(head);
    FreshNote(who, CheckpointFor(sha, who.origin, EntriesAt(head)));
    SaveThenOpen(Opened(head).value, [], message);
  }

  /** What a checkpoint command that succeeds has written: the entries as they were, and a note about all of them. */
  lemma CheckpointWrites(sha: Sha, head: Option<Commit>, clone: Clone, who: Parties, pol: Policy, message: bytes)
    requires CheckpointOutcome(sha, head, clone, who, pol, message).reply.Ok? && Signs(who)
    ensures Opened(head).Ok? && LogChainsOk(clone, EntriesAt(head)) && WellFormed(EntriesAt(head))
    ensures var log := Opened(head).value;
            var cp := CheckpointFor(sha, who.origin, log.entries);
            var after := CheckpointOutcome(sha, head, clone, who, pol, message).head;
            && Writable(cp) && after.Some? && after.value.checkpoint.Some? && Storable(log.entries)
            && after.value.checkpoint.value == NoteWith(who, cp, Gathered(sha, head, clone, who))
    ensures var log := Opened(head).value;
            var after := CheckpointOutcome(sha, head, clone, who, pol, message).head;
            after == Some(SavedAs(log, after.value.checkpoint.value, message))
            && Satisfied(pol, after.value.checkpoint.value)
  {
    OpenedWellFormed(head);
    var (log, oldSize) := ToCheckpoint(head, clone).value;
    var cp := CheckpointFor(sha, who.origin, log.entries);
    SignableIsWritable(cp);
  }

  /** A checkpoint signed by the log and cosigned by others. */
  function NoteWith(who: Parties, cp: Checkpoint, lines: seq<bytes>): bytes {
    Assemble(Frame(Marshal(cp), who.sign(Marshal(cp))), lines)
  }

  lemma NoteDescribes(sha: Sha, who: Parties, entries: seq<Entry>, lines: seq<bytes>)
    requires Signs(who) && Writable(CheckpointFor(sha, who.origin, entries))
    ensures var cp := CheckpointFor(sha, who.origin, entries); var note := NoteWith(who, cp, lines);
            CheckpointOf(note) == Ok(cp) && Describes(sha, note, entries)
  {
    var cp := CheckpointFor(sha, who.origin, entries);
    SignedCheckpoint(cp, who.sign(Marshal(cp)), lines);
  }

  /**
    A command that moves the ref is one save by the rules of the concurrent store:
    it extends the entries, and it writes back the stored checkpoint or stores a
    note about all of the entries.
   */
  lemma CommandIsLawfulSave(sha: Sha, anc: Ancestry, head: Option<Commit>, c: Command, message: bytes)
    returns (log: LogState, checkpoint: bytes)
    requires Performable(anc, c) && Perform(sha, head, c, message).head != head
    ensures Opened(head).Ok? && log.head == head && log.checkpoint == Opened(head).value.checkpoint
    ensures EntriesAt(head) <= log.entries && WellFormed(log.entries) && LogChainsOk(c.clone, log.entries)
    ensures checkpoint == log.checkpoint || Describes(sha, checkpoint, log.entries)
    ensures Storable(log.entries)
    ensures Perform(sha, head, c, message).head == Some(SavedAs(log, checkpoint, message))
    ensures forall ref :: NoRepeats(RecordsOf(EntriesAt(head), ref)) ==> NoRepeats(RecordsOf(log.entries, ref))
  {
    OpenedWellFormed(head);
    log := Opened(head).value;
    match c
    case LogCommand(clone, refs) =>
      LogWrites(head, clone, refs, message);
      checkpoint := log.checkpoint;
      log := log.(entries := WithRefs(clone, log.entries, refs).value);
      RecordsOk(log.entries, []);
      forall ref
        ensures NoRepeats(RecordsOf(EntriesAt(head), ref)) ==> NoRepeats(RecordsOf(log.entries, ref))
      {
        LoggedRefs(clone, EntriesAt(head), refs, ref);
      }
    case CheckpointCommand(clone, who, pol) =>
      CheckpointWrites(sha, head, clone, who, pol, message);
      checkpoint := Perform(sha, head, c, message).head.value.checkpoint.value;
      NoteDescribes(sha, who, log.entries, Gathered(sha, head, clone, who));
  }

  lemma CommandKeepsSound(sha: Sha, anc: Ancestry, head: Option<Commit>, c: Command, message: bytes)
    requires IsAncestry(anc) && Performable(anc, c) && Sound(sha, anc, head)
    ensures Sound(sha, anc, Perform(sha, head, c, message).head)
    ensures EntriesAt(head) <= EntriesAt(Perform(sha, head, c, message).head)
  {
    if Perform(sha, head, c, message).head != head {
      var log, checkpoint := CommandIsLawfulSave(sha, anc, head, c, message);
      FitsLonger(sha, log.checkpoint, EntriesAt(head), log.entries);
      SaveIsLawful(sha, log, checkpoint, message);
      WellFormedDecodable(log.entries);
      forall ref
        ensures RefKept(anc, log.entries, ref)
      {
        assert RefKept(anc, EntriesAt(head), ref);
        AcceptedKept(c.clone, log.entries, ref);
      }
    }
  }

  /**
    The writer invariant: whatever commands run, in whatever clones, the entries
    only grow, the stored checkpoint describes a prefix of them, every ref's
    records keep the ratchet rule, and no ref is recorded twice in a row at one
    object.
   */
  lemma {:induction false} RunsKeepSound(sha: Sha, anc: Ancestry, head: Option<Commit>, commands: seq<(Command, bytes)>)
    requires IsAncestry(anc) && Sound(sha, anc, head)
    requires forall c :: c in commands ==> Performable(anc, c.0)
    ensures Sound(sha, anc, HeadAfter(sha, head, commands))
    ensures EntriesAt(head) <= EntriesAt(HeadAfter(sha, head, commands))
    decreases |commands|
  {
    if commands != [] {
      var (c, message) := commands[0];
      assert commands[0] in commands;
      CommandKeepsSound(sha, anc, head, c, message);
      RunsKeepSound(sha, anc, Perform(sha, head, c, message).head, commands[1..]);
    }
  }

  /** The invariant from an empty log, for a clone that holds the logged objects. */
  lemma WriterInvariant(sha: Sha, clone: Clone, commands: seq<(Command, bytes)>)
    requires IsAncestry(clone.anc) && forall c :: c in commands ==> Performable(clone.anc, c.0)
    ensures var head := HeadAfter(sha, None, commands);
            && Opened(head).Ok?
            && (forall ref :: NoRepeats(RecordsOf(EntriesAt(head), ref)))
            && ((forall ref :: AllPresent(clone, RecordsOf(EntriesAt(head), ref))) ==>
                  LogChainsOk(clone, EntriesAt(head)))
  {
    RunsKeepSound(sha, clone.anc, None, commands);
    var head := HeadAfter(sha, None, commands);
    assert Opened(head).Ok?;
    forall ref
      ensures NoRepeats(RecordsOf(EntriesAt(head), ref))
    {
      assert RefKept(clone.anc, EntriesAt(head), ref);
    }
    if forall ref :: AllPresent(clone, RecordsOf(EntriesAt(head), ref)) {
      KeptAccepted(sha, clone, head);
    }
  }

  // ---------- End to end ----------

  /** The key and the policy belong together. */
  ghost predicate Matches(who: Parties, pol: Policy) {
    && Signs(who) && pol.origin == who.origin
    && forall cp :: Writable(cp) ==> pol.logSigned(Marshal(cp), who.sign(Marshal(cp)))
  }

  /** The log's key signs checkpoints only, and its signatures cannot be forged. */
  ghost predicate SignsCheckpoints(pol: Policy) {
    forall text, line :: pol.logSigned(text, line) ==> exists cp :: Writable(cp) && text == Marshal(cp)
  }

  predicate AllSignatureTexts(texts: seq<bytes>) {
    forall t :: t in texts ==> SignatureText(t)
  }

  /** The clone's ref is where the log recorded it last, and the object is there. */
  ghost predicate AtLatest(clone: Clone, entries: seq<Entry>, ref: bytes) {
    && ref in clone.refs && clone.refs[ref] in clone.objects
    && Latest(RecordsOf(entries, ref)) == Some(clone.refs[ref])
  }

  /**
    The verdict on a ref, exactly.  A ref is verified if and only if the log names
    it, its records keep the ratchet rule as a whole, and the clone's ref is the
    logged object (a tag) or an ancestor of, or equal to, the latest one (a branch).
   */
  lemma VerifiedExactly(clone: Clone, ref: bytes, entries: seq<Entry>)
    requires IsAncestry(clone.anc) && Decodable(entries)
    ensures RefVerdict(clone, ref, entries).None? <==>
              var kind, records := ParseRefKind(ref), RecordsOf(entries, ref);
              && kind.Some? && records != [] && ref in clone.refs
              && match kind.value
                 case Tag => Uniform(records) && clone.refs[ref] == records[0].obj
                 case Branch =>
                   && (Uniform(records) || (MovesForward(clone.anc, records) && AllPresent(clone, records)))
                   && clone.refs[ref] in clone.objects && records[|records| - 1].obj in clone.objects
                   && clone.anc(clone.refs[ref], records[|records| - 1].obj)
  {
    RecordsOk(entries, ref);
    if ParseRefKind(ref).Some? {
      var records := RecordsOf(entries, ref);
      VerdictIsGlobal(clone, ParseRefKind(ref).value, records);
      if Uniform(records) && |records| > 1 { assert records[0].obj == records[|records| - 1].obj; }
    }
  }

  /** A ref whose records a clone accepts is verified while it is at its latest logged object. */
  lemma AtLatestVerified(clone: Clone, entries: seq<Entry>, ref: bytes)
    requires IsAncestry(clone.anc) && LogChainsOk(clone, entries) && Decodable(entries)
    requires AtLatest(clone, entries, ref)
    ensures RefVerdict(clone, ref, entries).None?
  {
    NamedRefs(entries, ref);
  }

  /** What the signatures of a note are about: the body, exactly if nothing but signature lines was appended. */
  lemma NoteOpens(who: Parties, cp: Checkpoint, texts: seq<bytes>)
    requires Writable(cp)
    ensures var read := OpenNote(NoteWith(who, cp, texts));
            && (AllSignatureTexts(texts) ==>
                  read == Some((Marshal(cp), [who.sign(Marshal(cp))] + AllLines(texts))))
            && (read.Some? && Index(read.value.0, Separator).None? ==> AllSignatureTexts(texts))
  {
    var body := Marshal(cp);
    MarshalHasNoSeparator(cp);
    FrameOpens(body, who.sign(body));
    AssembleOpens(Frame(body, who.sign(body)), texts);
    if OpenNote(NoteWith(who, cp, texts)).Some? { TextHasSeparator(body, who.sign(body), texts); }
  }

  /**
    A note that satisfies the quorum is verified, under a policy that matches the
    key, exactly if the witnesses sent nothing but signature lines.
   */
  lemma NoteVerified(sha: Sha, who: Parties, pol: Policy, entries: seq<Entry>, texts: seq<bytes>)
    requires Matches(who, pol) && Writable(CheckpointFor(sha, who.origin, entries))
    requires Satisfied(pol, NoteWith(who, CheckpointFor(sha, who.origin, entries), texts))
    ensures var note := NoteWith(who, CheckpointFor(sha, who.origin, entries), texts);
            && (AllSignatureTexts(texts) ==> Verified(pol, note))
            && (SignsCheckpoints(pol) && Verified(pol, note) ==> AllSignatureTexts(texts))
  {
    var cp := CheckpointFor(sha, who.origin, entries);
    var note := NoteWith(who, cp, texts);
    NoteOpens(who, cp, texts);
    if AllSignatureTexts(texts) {
      MarshalParses(cp);
      assert OpenNote(note).value.1[0] == who.sign(Marshal(cp));
    }
    if SignsCheckpoints(pol) && Verified(pol, note) {
      var text := OpenNote(note).value.0;
      var signed :| Writable(signed) && text == Marshal(signed);
      MarshalHasNoSeparator(signed);
    }
  }

  /** A verified note about all entries commits to all of them. */
  lemma NoteCoversLog(sha: Sha, pol: Policy, log: LogState, note: bytes, message: bytes)
    requires WellFormed(log.entries) && Describes(sha, note, log.entries)
    requires Verified(pol, note) && note != []
    ensures Storable(log.entries)
    ensures CheckpointedOutcome(sha, Some(SavedAs(log, note, message)), pol) == Ok(log.entries)
  {
    SaveThenOpen(log, note, message);
    VerifiedWhole(sha, pol, note, log.entries);
  }

  lemma VerifiedWhole(sha: Sha, pol: Policy, note: bytes, entries: seq<Entry>)
    requires Describes(sha, note, entries) && Verified(pol, note) && note != []
    ensures VerifiedPart(sha, pol, note, entries) == Ok(entries)
  {
    assert entries[..|entries|] == entries;
  }

  /**
    End-to-end completeness: after a checkpoint command that succeeds, under a
    policy that matches the key, verification accepts the whole log, and every ref
    that is at its latest logged object, exactly if the witnesses sent nothing but
    signature lines.
   */
  lemma CheckpointThenVerify(sha: Sha, head: Option<Commit>, clone: Clone, who: Parties, pol: Policy, message: bytes)
    requires Matches(who, pol) && IsAncestry(clone.anc)
    requires CheckpointOutcome(sha, head, clone, who, pol, message).reply.Ok?
    ensures var after := CheckpointOutcome(sha, head, clone, who, pol, message).head;
            var texts := Gathered(sha, head, clone, who);
            && (AllSignatureTexts(texts) ==> CheckpointedOutcome(sha, after, pol) == Ok(EntriesAt(head)))
            && (SignsCheckpoints(pol) && CheckpointedOutcome(sha, after, pol).Ok? ==> AllSignatureTexts(texts))
    ensures forall ref :: AtLatest(clone, EntriesAt(head), ref) ==> RefVerdict(clone, ref, EntriesAt(head)).None?
  {
    CheckpointWrites(sha, head, clone, who, pol, message);
    var log, texts := Opened(head).value, Gathered(sha, head, clone, who);
    var note := NoteWith(who, CheckpointFor(sha, who.origin, log.entries), texts);
    NoteDescribes(sha, who, log.entries, texts);
    NoteVerified(sha, who, pol, log.entries, texts);
    SaveThenOpen(log, note, message);
    if AllSignatureTexts(texts) { NoteCoversLog(sha, pol, log, note, message); }
    WellFormedDecodable(log.entries);
    forall ref | AtLatest(clone, EntriesAt(head), ref)
      ensures RefVerdict(clone, ref, EntriesAt(head)).None?
    {
      AtLatestVerified(clone, EntriesAt(head), ref);
    }
  }

  /** Log, checkpoint, verify: all refs that were logged are verified. */
  lemma LogCheckpointVerify(sha: Sha, head: Option<Commit>, clone: Clone, refs: seq<bytes>, who: Parties, pol: Policy,
                            first: bytes, second: bytes)
    requires Matches(who, pol) && IsAncestry(clone.anc)
    requires forall ref :: ref in clone.refs ==> clone.refs[ref] in clone.objects
    requires LogOutcome(head, clone, refs, first).reply.Ok?
    requires var mid := LogOutcome(head, clone, refs, first).head;
             && CheckpointOutcome(sha, mid, clone, who, pol, second).reply.Ok?
             && AllSignatureTexts(Gathered(sha, mid, clone, who))
    ensures var mid := LogOutcome(head, clone, refs, first).head;
            var after := CheckpointOutcome(sha, mid, clone, who, pol, second).head;
            && CheckpointedOutcome(sha, after, pol).Ok?
            && forall ref :: ref in refs ==> RefVerdict(clone, ref, CheckpointedOutcome(sha, after, pol).value).None?
  {
    var mid := LogOutcome(head, clone, refs, first).head;
    CheckpointThenVerify(sha, mid, clone, who, pol, second);
    forall ref | ref in refs
      ensures RefVerdict(clone, ref, EntriesAt(mid)).None?
    {
      LogRecordsRefs(head, clone, refs, first, ref);
      assert AtLatest(clone, EntriesAt(mid), ref);
    }
  }

  // ---------- What verification depends on ----------

  /**
    Entries that no quorum attested to change nothing: two refs that hold one
    checkpoint, and of whose lists one extends the other, verify alike, as long as
    the shorter one has the entries that the checkpoint describes.
   */
  lemma UnwitnessedSuffix(sha: Sha, pol: Policy, head: Option<Commit>, longer: Option<Commit>)
    requires Opened(head).Ok? && Opened(longer).Ok?
    requires Opened(head).value.checkpoint == Opened(longer).value.checkpoint
    requires EntriesAt(head) <= EntriesAt(longer)
    ensures CheckpointedOutcome(sha, head, pol) == CheckpointedOutcome(sha, longer, pol)
         || CheckpointedOutcome(sha, head, pol) == Err(NotReproduced(MissingEntries))
  {
    VerifiedPrefix(sha, pol, Opened(head).value.checkpoint, EntriesAt(head), EntriesAt(longer));
  }

  lemma VerifiedPrefix(sha: Sha, pol: Policy, stored: bytes, a: seq<Entry>, b: seq<Entry>)
    requires a <= b
    ensures VerifiedPart(sha, pol, stored, a) == VerifiedPart(sha, pol, stored, b)
         || VerifiedPart(sha, pol, stored, a) == Err(NotReproduced(MissingEntries))
  {
    if CheckpointOf(stored).Ok? {
      var n := CheckpointOf(stored).value.size;
      if n <= |a| { assert a[..n] == b[..n]; }
    }
  }

  /** Appending any entries that parse, and saving with the same checkpoint, changes no verdict. */
  lemma AppendedEntriesIgnored(sha: Sha, pol: Policy, head: Option<Commit>, more: seq<Entry>, message: bytes,
                               clone: Clone, ref: bytes)
    requires Opened(head).Ok? && WellFormed(more)
    requires CheckpointedOutcome(sha, head, pol).Ok?
    ensures var log := Opened(head).value;
            && Storable(log.entries + more)
            && var after := Some(SavedAs(log.(entries := log.entries + more), log.checkpoint, message));
               && CheckpointedOutcome(sha, after, pol) == CheckpointedOutcome(sha, head, pol)
               && RefVerdict(clone, ref, CheckpointedOutcome(sha, after, pol).value)
               == RefVerdict(clone, ref, CheckpointedOutcome(sha, head, pol).value)
  {
    OpenedWellFormed(head);
    var log := Opened(head).value;
    SaveThenOpen(log.(entries := log.entries + more), log.checkpoint, message);
    UnwitnessedSuffix(sha, pol, head, Some(SavedAs(log.(entries := log.entries + more), log.checkpoint, message)));
  }

  /** An entry that says nothing about a ref: of another type, or a record of another ref. */
  predicate SilentOn(e: Entry, ref: bytes) {
    e.kind != TypeRefRecord || (AsRefRecord(e).Ok? && AsRefRecord(e).value.ref != ref)
  }

  lemma {:induction false} RecordsInsert(a: seq<Entry>, e: Entry, b: seq<Entry>, ref: bytes)
    requires SilentOn(e, ref)
    ensures Records(a + [e] + b, ref) == Records(a + b, ref)
  {
    if a == [] {
      assert (a + [e] + b)[0] == e && (a + [e] + b)[1..] == b && a + b == b;
    } else {
      RecordsInsert(a[1..], e, b, ref);
      assert (a + [e] + b)[0] == (a + b)[0] == a[0];
      assert (a + [e] + b)[1..] == a[1..] + [e] + b && (a + b)[1..] == a[1..] + b;
    }
  }

  /** The verdict on a ref is the same with and without entries that say nothing about it, wherever they stand. */
  lemma OtherEntriesIgnored(clone: Clone, ref: bytes, a: seq<Entry>, e: Entry, b: seq<Entry>)
    requires SilentOn(e, ref)
    ensures RefVerdict(clone, ref, a + [e] + b) == RefVerdict(clone, ref, a + b)
  {
    RecordsInsert(a, e, b, ref);
  }
}
