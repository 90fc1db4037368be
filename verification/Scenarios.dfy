/**
  Two runs from nothing to the end, in which everything that the theorems ask for
  is there: a first checkpoint that is verified, and a moved tag that is cosigned
  and never verified again.
 */
module Scenarios {
  import opened Wrappers
  import opened Hashing
  import opened Binary
  import opened Rfc6962
  import opened Encodings
  import opened Entries
  import opened Storage
  import opened Reading
  import opened Notes
  import opened SignedNotes
  import opened Checkpoints
  import opened GitUtil
  import opened GitLog
  import opened LogStore
  import opened Chains
  import opened Policies
  import opened Collecting
  import opened Witness
  import opened SplitView
  import opened Ratchet
  import opened Runs
  import opened Cosigning
  import opened HonestQuorum

  // ---------- One log, one witness ----------

  function LogLine(): Signature {
    SigPrefix + "log"
  }

  function WitnessLine(): Signature {
    SigPrefix + "w"
  }

  /** The log's key signs checkpoints only. */
  ghost predicate SignedByLog(body: bytes, line: bytes) {
    line == LogLine() && exists cp :: Writable(cp) && body == Marshal(cp)
  }

  /** The key of a witness that knows the log. */
  ghost function WitnessKey(): Key {
    Key((origin, body, line) => SignedByLog(body, line), body => WitnessLine())
  }

  /** A policy that asks for the cosignature of that witness. */
  function OneWitness(): Policy {
    Policy("log",
           (body, line) => line == LogLine(),
           (body, line) => if line == WitnessLine() then Some("w") else None,
           names => "w" in names)
  }

  /** The log's key, and the exchange with a witness that holds nothing yet. */
  ghost function LogParties(sha: Sha): Parties {
    Parties("log", body => LogLine(),
            (entries, from, note) =>
              [CosignOutcome(sha, WitnessKey(), None, entries, from, note, NoCrash, NoCrash).reply])
  }

  // ---------- A first checkpoint ----------

  /** A ref that is logged into an empty log: one entry, with chains in order. */
  lemma FirstEntry(clone: Clone, ref: bytes, message: bytes)
    requires ref in clone.refs && CleanRef(ref) && NewRefRecord(ref, clone.refs[ref]).Ok?
    ensures var entries := [NewRefRecord(ref, clone.refs[ref]).value];
            && WellFormed(entries) && Storable(entries) && LogChainsOk(clone, entries)
            && LogOutcome(None, clone, [ref], message)
            == Outcome(Ok(1), Some(SavedAs(LogState(entries, [], None), [], message)))
  {
    var e, rr := NewRefRecord(ref, clone.refs[ref]).value, RefRecord(ref, clone.refs[ref]);
    NewThenParse(ref, clone.refs[ref]);
    OneRecord(e, rr);
    assert [ref][1..] == [] && [] + [e] == [e];
    assert Opened(None) == Ok(LogState([], [], None)) && StoredSize([]) == Ok(0);
    assert WithRefs(clone, [], [ref]) == Ok([e]);
    assert ChainVerdict(clone, ParseRefKind(ref).value, [rr]).None?;
  }

  lemma OneRecord(e: Entry, rr: RefRecord)
    requires e.kind == TypeRefRecord && AsRefRecord(e) == Ok(rr)
    ensures Records([e], rr.ref) == Ok([rr]) && RefSet([e]) == Ok({rr.ref})
  {
    assert [e][1..] == [] && [rr] + [] == [rr] && {rr.ref} + {} == {rr.ref};
    assert Records([], rr.ref) == Ok([]) && RefSet([]) == Ok({});
  }

  /** A policy that is satisfied with the witness's cosignature of a checkpoint. */
  ghost predicate Suffices(pol: Policy, cp: Checkpoint) {
    Monotone(pol) && pol.quorum({"w"}) && pol.cosigner(Marshal(cp), WitnessLine()) == Some("w")
  }

  /** The only witness is willing. */
  lemma WitnessWilling(sha: Sha, entries: seq<Entry>, pol: Policy)
    requires Writable(CheckpointFor(sha, "log", entries)) && Suffices(pol, CheckpointFor(sha, "log", entries))
    ensures Willing(sha, HonestWitness("w", WitnessKey(), None), LogParties(sha), pol, entries)
    ensures AllWilling(sha, {HonestWitness("w", WitnessKey(), None)}, LogParties(sha), pol, entries)
    ensures pol.quorum(NamesOf({HonestWitness("w", WitnessKey(), None)}))
  {
    var w := HonestWitness("w", WitnessKey(), None);
    assert NamesOf({w}) == {w.name};
    assert entries[..0] == [];
  }

  /** And so what it sends is its cosignature. */
  lemma WitnessCosigns(sha: Sha, entries: seq<Entry>, from: nat)
    requires from <= |entries| && Writable(CheckpointFor(sha, "log", entries))
    ensures var signed := NoteWith(LogParties(sha), CheckpointFor(sha, "log", entries), []);
            LogParties(sha).replies(entries, from, signed) == [Ok(WitnessLine())]
  {
    var w := HonestWitness("w", WitnessKey(), None);
    WitnessWilling(sha, entries, OneWitness());
    WillingReply(sha, w, LogParties(sha), OneWitness(), entries, from);
  }

  /** What the witness sends is all that is needed. */
  lemma RepliesSuffice(sha: Sha, entries: seq<Entry>, from: nat)
    requires from <= |entries| && Writable(CheckpointFor(sha, "log", entries))
    ensures var signed := NoteWith(LogParties(sha), CheckpointFor(sha, "log", entries), []);
            var replies := LogParties(sha).replies(entries, from, signed);
            && RepliesFrom(sha, {HonestWitness("w", WitnessKey(), None)}, replies, entries, from, signed)
            && Collected(replies) == Ok([WitnessLine()])
  {
    WitnessCosigns(sha, entries, from);
    OneSignature(WitnessLine());
    var reply: Reply := Ok(WitnessLine());
    assert [reply][1..] == [] && Collected([]) == Ok([]);
    assert [WitnessLine()] + [] == [WitnessLine()];
  }

  lemma RepliesSufficeAlways(sha: Sha, entries: seq<Entry>)
    requires Writable(CheckpointFor(sha, "log", entries))
    ensures var signed := NoteWith(LogParties(sha), CheckpointFor(sha, "log", entries), []);
            AnswersOf(sha, {HonestWitness("w", WitnessKey(), None)}, LogParties(sha), entries, signed)
  {
    forall from: nat | from <= |entries|
      ensures var who := LogParties(sha); var signed := NoteWith(who, CheckpointFor(sha, who.origin, entries), []);
              RepliesFrom(sha, {HonestWitness("w", WitnessKey(), None)}, who.replies(entries, from, signed),
                          entries, from, signed)
    {
      RepliesSuffice(sha, entries, from);
    }
  }

  lemma CheckpointOfOneWitness(sha: Sha, clone: Clone, head: Option<Commit>, pol: Policy, message: bytes)
    requires Opened(head).Ok? && Fits(sha, Opened(head).value.checkpoint, EntriesAt(head))
    requires EntriesAt(head) != [] && LogChainsOk(clone, EntriesAt(head))
    requires Writable(CheckpointFor(sha, "log", EntriesAt(head)))
    requires Suffices(pol, CheckpointFor(sha, "log", EntriesAt(head)))
    ensures CheckpointOutcome(sha, head, clone, LogParties(sha), pol, message).reply.Ok?
  {
    var w, entries := HonestWitness("w", WitnessKey(), None), EntriesAt(head);
    RepliesSufficeAlways(sha, entries);
    WitnessWilling(sha, entries, pol);
    CheckpointSucceeds(sha, head, clone, LogParties(sha), pol, {w}, message);
  }

  /** A log of any length is checkpointed and verified. */
  lemma WitnessedCheckpoint(sha: Sha, clone: Clone, head: Option<Commit>, message: bytes)
    requires IsAncestry(clone.anc)
    requires Opened(head).Ok? && Fits(sha, Opened(head).value.checkpoint, EntriesAt(head))
    requires EntriesAt(head) != [] && LogChainsOk(clone, EntriesAt(head))
    requires |EntriesAt(head)| < Uint64Limit
    ensures var done := CheckpointOutcome(sha, head, clone, LogParties(sha), OneWitness(), message);
            && done.reply.Ok?
            && CheckpointedOutcome(sha, done.head, OneWitness()) == Ok(EntriesAt(head))
  {
    CheckpointOfOneWitness(sha, clone, head, OneWitness(), message);
    CheckpointThenVerify(sha, head, clone, LogParties(sha), OneWitness(), message);
    WitnessTexts(sha, clone, head);
  }

  lemma WitnessTexts(sha: Sha, clone: Clone, head: Option<Commit>)
    requires ToCheckpoint(head, clone).Ok? && ToCheckpoint(head, clone).value.1 <= |EntriesAt(head)|
    requires Writable(CheckpointFor(sha, "log", EntriesAt(head)))
    ensures AllSignatureTexts(Gathered(sha, head, clone, LogParties(sha)))
  {
    var from := ToCheckpoint(head, clone).value.1;
    RepliesSuffice(sha, EntriesAt(head), from);
    GatheredTexts(sha, head, clone, LogParties(sha), from, [WitnessLine()]);
    OneSignature(WitnessLine());
  }

  /**
    The first checkpoint.  A ref is logged into an empty log, the log is
    checkpointed with a witness that has seen nothing yet, and the ref is verified:
    for every hash function, every clone and every ref that can be logged.
   */
  lemma FirstCheckpoint(sha: Sha, clone: Clone, ref: bytes, first: bytes, second: bytes)
    requires IsAncestry(clone.anc) && ref in clone.refs && clone.refs[ref] in clone.objects
    requires CleanRef(ref) && NewRefRecord(ref, clone.refs[ref]).Ok?
    ensures var mid := LogOutcome(None, clone, [ref], first).head;
            var done := CheckpointOutcome(sha, mid, clone, LogParties(sha), OneWitness(), second);
            var entries := [NewRefRecord(ref, clone.refs[ref]).value];
            && done.reply.Ok?
            && CheckpointedOutcome(sha, done.head, OneWitness()) == Ok(entries)
            && RefVerdict(clone, ref, entries).None?
  {
    var entries := [NewRefRecord(ref, clone.refs[ref]).value];
    var mid := LogOutcome(None, clone, [ref], first).head;
    FirstEntry(clone, ref, first);
    SaveIsLawful(sha, LogState(entries, [], None), [], first);
    SaveThenOpen(LogState(entries, [], None), [], first);
    WitnessedCheckpoint(sha, clone, mid, second);
    LogRecordsRefs(None, clone, [ref], first, ref);
    WellFormedDecodable(entries);
    AtLatestVerified(clone, entries, ref);
  }

  // ---------- A checkpoint that is stored and never verified ----------

  /** A reply with a blank line in it, and a cosignature behind that. */
  function BlankReply(): bytes {
    "x\n\n" + WitnessLine()
  }

  /** The log's key, and a witness that always sends that. */
  ghost function BlankParties(): Parties {
    Parties("log", body => LogLine(), (entries, from, note) => [Ok(BlankReply())])
  }

  /**
    A policy that needs the witness, and takes its cosignature of a checkpoint for
    one of every body with that checkpoint; the log's key signs checkpoints only.
   */
  ghost function CheckpointPolicy(cp: Checkpoint): Policy {
    Policy("log",
           (body, line) => SignedByLog(body, line),
           (body, line) => if ParseCheckpoint(body) == Ok(cp) && line == WitnessLine() then Some("w") else None,
           names => "w" in names)
  }

  /** The note that such a command stores: what counts as signed is all before the blank line. */
  lemma BlankNote(cp: Checkpoint)
    requires Writable(cp)
    ensures OpenNote(NoteWith(BlankParties(), cp, [BlankReply()]))
         == Some((Frame(Marshal(cp), LogLine()) + "x\n", [WitnessLine()]))
  {
    var framed := Frame(Marshal(cp), LogLine());
    BlankLineInReply(Marshal(cp), LogLine(), WitnessLine());
    assert [BlankReply()][1..] == [];
    assert Assemble(framed, [BlankReply()]) == AppendSignature(framed, BlankReply());
  }

  /** That text carries the checkpoint. */
  lemma BlankParses(cp: Checkpoint)
    requires Writable(cp)
    ensures ParseCheckpoint(Frame(Marshal(cp), LogLine()) + "x\n") == Ok(cp)
  {
    var more := "\n" + LogLine() + "\n" + "x\n";
    MarshalHasNoSeparator(cp);
    assert Frame(Marshal(cp), LogLine()) + "x\n" == Marshal(cp) + more;
    CheckpointRoundTrip(cp, more);
  }

  lemma OneCosigner(pol: Policy, text: bytes, line: bytes, name: bytes)
    requires pol.cosigner(text, line) == Some(name)
    ensures name in Cosigners(pol, text, [line])
  {
    assert line in [line];
  }

  /** And so it satisfies the quorum. */
  lemma BlankSatisfied(cp: Checkpoint)
    requires Writable(cp)
    ensures Satisfied(CheckpointPolicy(cp), NoteWith(BlankParties(), cp, [BlankReply()]))
  {
    BlankNote(cp);
    BlankParses(cp);
    OneCosigner(CheckpointPolicy(cp), Frame(Marshal(cp), LogLine()) + "x\n", WitnessLine(), "w");
  }

  /** Not so the log's signature: no signature line of the log is behind that text. */
  lemma BlankNotVerified(cp: Checkpoint)
    requires Writable(cp)
    ensures OpenNote(NoteWith(BlankParties(), cp, [BlankReply()])).Some?
    ensures !Verified(CheckpointPolicy(cp), NoteWith(BlankParties(), cp, [BlankReply()]))
  {
    BlankNote(cp);
    assert LogLine() != WitnessLine() by { assert |LogLine()| != |WitnessLine()|; }
  }

  lemma BlankCollected()
    ensures forall entries, from, signed ::
              Collected(BlankParties().replies(entries, from, signed)) == Ok([BlankReply()])
  {
    var reply: Reply := Ok(BlankReply());
    assert [reply][1..] == [] && Collected([]) == Ok([]);
    assert [BlankReply()] + [] == [BlankReply()];
  }

  lemma BlankMatches(cp: Checkpoint)
    ensures Matches(BlankParties(), CheckpointPolicy(cp)) && SignsCheckpoints(CheckpointPolicy(cp))
  {
    forall c | Writable(c)
      ensures CheckpointPolicy(cp).logSigned(Marshal(c), BlankParties().sign(Marshal(c)))
    {
    }
  }

  /**
    A checkpoint that is stored and never verified, for every log that can be
    checkpointed.  The key matches the policy and signs checkpoints only, and no
    quorum is satisfied without an honest witness, whose cosignatures cover the
    checkpoint and not the text; the command succeeds, and what it leaves is not
    verified.
   */
  lemma StoredAndNeverVerified(sha: Sha, clone: Clone, head: Option<Commit>, message: bytes)
    requires ToCheckpoint(head, clone).Ok? && |EntriesAt(head)| < Uint64Limit
    ensures var pol := CheckpointPolicy(CheckpointFor(sha, "log", EntriesAt(head)));
            var done := CheckpointOutcome(sha, head, clone, BlankParties(), pol, message);
            && Matches(BlankParties(), pol) && SignsCheckpoints(pol) && Needs(pol, "w")
            && TrustsOnly(OneSubmission(sha, EntriesAt(head)), pol)
            && OnlyFrom(sha, OneSubmission(sha, EntriesAt(head)), pol, "w")
            && done.reply == Ok(1)
            && CheckpointedOutcome(sha, done.head, pol) == Err(NotVerified)
  {
    CanCheckpoint(clone, head);
    BlankPolicy(sha, EntriesAt(head));
    BlankOutcome(sha, clone, head, message, Opened(head).value, ToCheckpoint(head, clone).value.1);
  }

  lemma CanCheckpoint(clone: Clone, head: Option<Commit>)
    requires ToCheckpoint(head, clone).Ok?
    ensures Opened(head).Ok? && |EntriesAt(head)| > 0 && WellFormed(EntriesAt(head))
    ensures ToCheckpoint(head, clone) == Ok((Opened(head).value, ToCheckpoint(head, clone).value.1))
  {
    OpenedWellFormed(head);
  }

  lemma LogIsWritable(sha: Sha, entries: seq<Entry>)
    requires |entries| < Uint64Limit
    ensures Writable(CheckpointFor(sha, "log", entries))
  {
  }

  /** What the policy asks for, and what can be relied on. */
  lemma BlankPolicy(sha: Sha, entries: seq<Entry>)
    requires 0 < |entries| < Uint64Limit
    ensures var pol := CheckpointPolicy(CheckpointFor(sha, "log", entries));
            && Matches(BlankParties(), pol) && SignsCheckpoints(pol) && Needs(pol, "w")
            && TrustsOnly(OneSubmission(sha, entries), pol) && OnlyFrom(sha, OneSubmission(sha, entries), pol, "w")
  {
    LogIsWritable(sha, entries);
    BlankMatches(CheckpointFor(sha, "log", entries));
    BlankCosigned(sha, entries);
  }

  /** What comes of the command. */
  lemma BlankOutcome(sha: Sha, clone: Clone, head: Option<Commit>, message: bytes, log: LogState, from: nat)
    requires Opened(head) == Ok(log) && ToCheckpoint(head, clone) == Ok((log, from))
    requires |log.entries| < Uint64Limit && WellFormed(log.entries)
    ensures var pol := CheckpointPolicy(CheckpointFor(sha, "log", log.entries));
            var done := CheckpointOutcome(sha, head, clone, BlankParties(), pol, message);
            done.reply == Ok(1) && CheckpointedOutcome(sha, done.head, pol) == Err(NotVerified)
  {
    var cp := CheckpointFor(sha, "log", log.entries);
    LogIsWritable(sha, log.entries);
    BlankStores(sha, clone, head, message, log, from, cp);
    BlankNotVerified(cp);
    NotVerifiedAfter(sha, CheckpointPolicy(cp), log, NoteWith(BlankParties(), cp, [BlankReply()]), message);
  }

  /** The command stores the note with the reply in it. */
  lemma BlankStores(sha: Sha, clone: Clone, head: Option<Commit>, message: bytes, log: LogState, from: nat,
                    cp: Checkpoint)
    requires Opened(head) == Ok(log) && ToCheckpoint(head, clone) == Ok((log, from))
    requires Writable(cp) && cp == CheckpointFor(sha, "log", log.entries)
    ensures Storable(log.entries)
    ensures CheckpointOutcome(sha, head, clone, BlankParties(), CheckpointPolicy(cp), message)
         == Outcome(Ok(1), Some(SavedAs(log, NoteWith(BlankParties(), cp, [BlankReply()]), message)))
  {
    BlankCollected();
    BlankSatisfied(cp);
    StoresNote(sha, head, clone, BlankParties(), CheckpointPolicy(cp), message, from, [BlankReply()]);
  }

  lemma BlankCosigned(sha: Sha, entries: seq<Entry>)
    requires entries != [] && Writable(CheckpointFor(sha, "log", entries))
    ensures OnlyFrom(sha, OneSubmission(sha, entries), CheckpointPolicy(CheckpointFor(sha, "log", entries)), "w")
  {
    var cp := CheckpointFor(sha, "log", entries);
    var run := OneSubmission(sha, entries);
    SubmissionCosigned(sha, {}, entries);
    MarshalParses(cp);
    forall body, line | CheckpointPolicy(cp).cosigner(body, line) == Some("w")
      ensures CosignedAs(sha, run, body)
    {
      assert CosignedIn(sha, run, Marshal(cp)) && ParseCheckpoint(Marshal(cp)) == ParseCheckpoint(body);
    }
  }

  lemma NotVerifiedAfter(sha: Sha, pol: Policy, log: LogState, note: bytes, message: bytes)
    requires WellFormed(log.entries) && OpenNote(note).Some? && !Verified(pol, note)
    ensures Storable(log.entries)
    ensures CheckpointedOutcome(sha, Some(SavedAs(log, note, message)), pol) == Err(NotVerified)
  {
    SaveThenOpen(log, note, message);
    assert LastBlankLine([]) == None;
  }

  // ---------- A checkpoint that is verified whatever is sent ----------

  /** A policy that needs the witness, and its cosignature of the very text of a checkpoint. */
  ghost function TextPolicy(cp: Checkpoint): Policy {
    Policy("log",
           (body, line) => SignedByLog(body, line),
           (body, line) => if body == Marshal(cp) && line == WitnessLine() then Some("w") else None,
           names => "w" in names)
  }

  lemma TextPolicyMatches(sha: Sha, cp: Checkpoint)
    requires Writable(cp)
    ensures Matches(LogParties(sha), TextPolicy(cp)) && SignsCheckpoints(TextPolicy(cp))
    ensures Suffices(TextPolicy(cp), cp) && Needs(TextPolicy(cp), "w")
  {
    forall c | Writable(c)
      ensures TextPolicy(cp).logSigned(Marshal(c), LogParties(sha).sign(Marshal(c)))
    {
    }
  }

  lemma TextPolicyTrusts(sha: Sha, entries: seq<Entry>)
    requires entries != [] && Writable(CheckpointFor(sha, "log", entries))
    ensures var pol := TextPolicy(CheckpointFor(sha, "log", entries));
            OnlyTextsFrom(sha, OneSubmission(sha, entries), pol, "w") && TrustsOnly(OneSubmission(sha, entries), pol)
  {
    SubmissionCosigned(sha, {}, entries);
  }

  /** Every log whose chains are in order is checkpointed under a policy that `HonestQuorum` asks for. */
  lemma HonestQuorumHappens(sha: Sha, clone: Clone, head: Option<Commit>, message: bytes)
    requires Opened(head).Ok? && Fits(sha, Opened(head).value.checkpoint, EntriesAt(head))
    requires 0 < |EntriesAt(head)| < Uint64Limit && LogChainsOk(clone, EntriesAt(head))
    ensures var pol := TextPolicy(CheckpointFor(sha, "log", EntriesAt(head)));
            var run := OneSubmission(sha, EntriesAt(head));
            && Matches(LogParties(sha), pol) && SignsCheckpoints(pol)
            && OnlyTextsFrom(sha, run, pol, "w") && Needs(pol, "w") && TrustsOnly(run, pol)
            && CheckpointOutcome(sha, head, clone, LogParties(sha), pol, message).reply.Ok?
  {
    var cp := CheckpointFor(sha, "log", EntriesAt(head));
    TextPolicyMatches(sha, cp);
    TextPolicyTrusts(sha, EntriesAt(head));
    CheckpointOfOneWitness(sha, clone, head, TextPolicy(cp), message);
  }

  // ---------- A moved tag ----------

  /** A run in which the witness is asked once, about all of the entries. */
  ghost function OneSubmission(sha: Sha, entries: seq<Entry>): WitnessRun {
    var note := NoteWith(LogParties(sha), CheckpointFor(sha, "log", entries), []);
    WitnessRun(WitnessKey(), None, [Submission(Request(0, [], note), NoCrash)])
  }

  /** A policy that recognises the witness's cosignature of one body. */
  function WitnessOf(cosigned: bytes): Policy {
    Policy("log",
           (body, line) => line == LogLine(),
           (body, line) => if body == cosigned && line == WitnessLine() then Some("w") else None,
           names => "w" in names)
  }

  /** The witness cosigns what it is asked about. */
  lemma SubmissionCosigned(sha: Sha, hashed: set<bytes>, entries: seq<Entry>)
    requires entries != [] && Writable(CheckpointFor(sha, "log", entries))
    ensures CosignedIn(sha, OneSubmission(sha, entries), Marshal(CheckpointFor(sha, "log", entries)))
    ensures ProofsHashed(sha, hashed, OneSubmission(sha, entries))
  {
    var run := OneSubmission(sha, entries);
    FirstRequest(sha, entries);
    AcceptedCosigned(sha, run, Marshal(CheckpointFor(sha, "log", entries)));
    assert Onward(sha, run).submissions == [];
  }

  lemma FirstRequest(sha: Sha, entries: seq<Entry>)
    requires Writable(CheckpointFor(sha, "log", entries)) && entries != []
    ensures var req := OneSubmission(sha, entries).submissions[0].req;
            && Acceptable(sha, WitnessKey(), None, req) && ProofHashed(sha, {}, None, req)
            && BodyIn(req.note) == Some(Marshal(CheckpointFor(sha, "log", entries)))
  {
    var cp := CheckpointFor(sha, "log", entries);
    var note := NoteWith(LogParties(sha), cp, []);
    FreshNote(LogParties(sha), cp);
    KnownNote(note, cp);
    NothingHeld(sha, WitnessKey(), Request(0, [], note));
  }

  lemma KnownNote(note: bytes, cp: Checkpoint)
    requires Writable(cp) && OpenNote(note) == Some((Marshal(cp), [LogLine()])) && SignedIn(note) == Ok(cp)
    ensures FromKnownLog(WitnessKey(), note)
  {
    assert OpenNote(note).value.1[0] == LogLine();
    assert WitnessKey().trusted(cp.origin, Marshal(cp), LogLine());
  }

  /** A witness that holds nothing accepts any checkpoint of a log it knows. */
  lemma NothingHeld(sha: Sha, key: Key, req: Request)
    requires FromKnownLog(key, req.note) && SignedIn(req.note).value.size > 0
    requires req.oldSize == 0 && req.path == []
    ensures Acceptable(sha, key, None, req) && ProofHashed(sha, {}, None, req)
  {
  }

  /** The log ref with the entries and the cosigned checkpoint. */
  ghost function CosignedHead(sha: Sha, entries: seq<Entry>): Option<Commit>
    requires Storable(entries)
  {
    var note := NoteWith(LogParties(sha), CheckpointFor(sha, "log", entries), [WitnessLine()]);
    Some(SavedAs(LogState(entries, [], None), note, []))
  }

  /** A clone that holds this log accepts all of it, by the witness's cosignature. */
  lemma CosignedAttested(sha: Sha, entries: seq<Entry>)
    requires WellFormed(entries) && entries != [] && Storable(entries)
    requires Writable(CheckpointFor(sha, "log", entries))
    ensures var pol := WitnessOf(Marshal(CheckpointFor(sha, "log", entries)));
            && CheckpointedOutcome(sha, CosignedHead(sha, entries), pol) == Ok(entries)
            && Attested(sha, OneSubmission(sha, entries), CosignedHead(sha, entries), pol, "w")
  {
    var who, cp := LogParties(sha), CheckpointFor(sha, "log", entries);
    var pol := WitnessOf(Marshal(cp));
    var note := NoteWith(who, cp, [WitnessLine()]);
    CosignedNote(sha, entries);
    NoteDescribes(sha, who, entries, [WitnessLine()]);
    NoteVerified(sha, who, pol, entries, [WitnessLine()]);
    NoteCoversLog(sha, pol, LogState(entries, [], None), note, []);
    SaveThenOpen(LogState(entries, [], None), note, []);
    SubmissionCosigned(sha, {}, entries);
  }

  lemma CosignedNote(sha: Sha, entries: seq<Entry>)
    requires Writable(CheckpointFor(sha, "log", entries))
    ensures var cp := CheckpointFor(sha, "log", entries);
            var note := NoteWith(LogParties(sha), cp, [WitnessLine()]);
            && AllSignatureTexts([WitnessLine()]) && note != []
            && Satisfied(WitnessOf(Marshal(cp)), note) && CosignedBy(WitnessOf(Marshal(cp)), "w", note)
  {
    var cp := CheckpointFor(sha, "log", entries);
    OneSignature(WitnessLine());
    NoteOpens(LogParties(sha), cp, [WitnessLine()]);
    AllLinesMembers([WitnessLine()], WitnessLine());
    var pol := WitnessOf(Marshal(cp));
    assert WitnessLine() in [LogLine()] + AllLines([WitnessLine()]);
    assert pol.cosigner(Marshal(cp), WitnessLine()) == Some("w");
  }

  /** A tag that was logged at two objects, and its two records. */
  function MovedTag(ref: bytes, first: bytes, second: bytes): seq<Entry>
    requires NewRefRecord(ref, first).Ok? && NewRefRecord(ref, second).Ok?
  {
    [NewRefRecord(ref, first).value, NewRefRecord(ref, second).value]
  }

  lemma MovedTagRecords(ref: bytes, first: bytes, second: bytes)
    requires NewRefRecord(ref, first).Ok? && NewRefRecord(ref, second).Ok? && CleanRef(ref)
    ensures WellFormed(MovedTag(ref, first, second)) && Storable(MovedTag(ref, first, second))
    ensures RecordsOf(MovedTag(ref, first, second), ref) == [RefRecord(ref, first), RefRecord(ref, second)]
  {
    var a, b := NewRefRecord(ref, first).value, NewRefRecord(ref, second).value;
    var entries := MovedTag(ref, first, second);
    NewThenParse(ref, first);
    NewThenParse(ref, second);
    WellFormedDecodable(entries);
    assert entries == [a] + [b];
    RecordsConcat([a], [b], ref);
    OneRecord(a, RefRecord(ref, first));
    OneRecord(b, RefRecord(ref, second));
  }

  lemma ReproducedWhole(sha: Sha, hashed: set<bytes>, entries: seq<Entry>)
    requires EntriesHashed(sha, hashed, entries)
    ensures Reproduced(sha, hashed, entries, CheckpointFor(sha, "log", entries))
  {
    assert entries[..|entries|] == entries;
  }

  lemma WholeIsPrefix(anc: Ancestry, kind: RefKind, entries: seq<Entry>, size: nat, ref: bytes)
    requires size == |entries| && Breaks(anc, kind, RecordsOf(entries, ref))
    ensures Breaks(anc, kind, RecordsOf(entries[..size], ref))
  {
    assert entries[..size] == entries;
  }

  /** The rewrite theorem for a log that is cosigned as a whole. */
  lemma WholeLogBreaks(sha: Sha, hashed: set<bytes>, run: WitnessRun, body: bytes, cp: Checkpoint, entries: seq<Entry>,
                       head: Option<Commit>, pol: Policy, clone: Clone, ref: bytes, kind: RefKind)
    requires CollisionFree(sha, hashed) && ProofsHashed(sha, hashed, run) && HeldBy(sha, run.file).Ok?
    requires CosignedIn(sha, run, body) && ParseCheckpoint(body) == Ok(cp) && cp.size == |entries|
    requires Reproduced(sha, hashed, entries, cp) && WellFormed(entries) && EntriesHashed(sha, hashed, entries)
    requires CheckpointedOutcome(sha, head, pol) == Ok(entries) && Attested(sha, run, head, pol, "w")
    requires IsAncestry(clone.anc) && ParseRefKind(ref) == Some(kind)
    requires Breaks(clone.anc, kind, RecordsOf(entries, ref))
    ensures RefVerdict(clone, ref, entries).Some? && RefVerdict(clone, ref, entries).value.RuleBroken?
  {
    WholeIsPrefix(clone.anc, kind, entries, cp.size, ref);
    RewriteIsPermanent(sha, hashed, run, body, cp, entries, head, pol, "w", clone, ref, kind);
  }

  /**
    A log in which a ref breaks the rule is cosigned once: every clone rejects the
    ref for good, in a log that it accepts as attested.
   */
  lemma CosignedBreak(sha: Sha, hashed: set<bytes>, entries: seq<Entry>, clone: Clone, ref: bytes, kind: RefKind)
    requires WellFormed(entries) && Storable(entries) && entries != []
    requires Writable(CheckpointFor(sha, "log", entries))
    requires CollisionFree(sha, hashed) && EntriesHashed(sha, hashed, entries)
    requires IsAncestry(clone.anc) && ParseRefKind(ref) == Some(kind)
    requires Breaks(clone.anc, kind, RecordsOf(entries, ref))
    ensures var pol := WitnessOf(Marshal(CheckpointFor(sha, "log", entries)));
            && CheckpointedOutcome(sha, CosignedHead(sha, entries), pol) == Ok(entries)
            && RefVerdict(clone, ref, entries).Some? && RefVerdict(clone, ref, entries).value.RuleBroken?
  {
    var cp := CheckpointFor(sha, "log", entries);
    var body := Marshal(cp);
    CosignedAttested(sha, entries);
    SubmissionCosigned(sha, hashed, entries);
    MarshalParses(cp);
    ReproducedWhole(sha, hashed, entries);
    WholeLogBreaks(sha, hashed, OneSubmission(sha, entries), body, cp, entries, CosignedHead(sha, entries),
                   WitnessOf(body), clone, ref, kind);
  }

  lemma MovedTagBreaks(clone: Clone, ref: bytes, first: bytes, second: bytes)
    requires NewRefRecord(ref, first).Ok? && NewRefRecord(ref, second).Ok? && CleanRef(ref) && first != second
    ensures Breaks(clone.anc, Tag, RecordsOf(MovedTag(ref, first, second), ref))
  {
    MovedTagRecords(ref, first, second);
    var records := RecordsOf(MovedTag(ref, first, second), ref);
    assert records[0].obj != records[1].obj;
  }

  // ---------- A hash function ----------

  function Filled(c: byte): Hash {
    Hash(seq(HashSize, _ => c))
  }

  /** A hash function that tells two strings from each other and from all others. */
  function TellingApart(x: bytes, y: bytes): Sha {
    Sha(s => if s == x then Filled('x') else if s == y then Filled('y') else Filled('z'))
  }

  /** There is a hash function without a collision among the strings hashed for two entries. */
  lemma NoCollision(a: Entry, b: Entry) returns (sha: Sha, hashed: set<bytes>)
    requires a.raw != b.raw
    ensures CollisionFree(sha, hashed) && EntriesHashed(sha, hashed, [a, b])
  {
    var x, y := LeafInput(a.raw), LeafInput(b.raw);
    sha := TellingApart(x, y);
    var node := NodeInput(HashLeaf(sha, a.raw), HashLeaf(sha, b.raw));
    hashed := {x, y, node};
    assert a.raw == x[1..] && b.raw == y[1..] && x[0] == y[0] != node[0];
    assert Filled('x').digest[0] == 'x' && Filled('y').digest[0] == 'y' && Filled('z').digest[0] == 'z';
    TwoHashed(sha, hashed, a, b);
  }

  lemma TwoHashed(sha: Sha, hashed: set<bytes>, a: Entry, b: Entry)
    requires LeafInput(a.raw) in hashed && LeafInput(b.raw) in hashed
    requires NodeInput(HashLeaf(sha, a.raw), HashLeaf(sha, b.raw)) in hashed
    ensures EntriesHashed(sha, hashed, [a, b])
  {
    var leaves := Leaves(sha, [a, b]);
    assert Pow2(0) == 1;
    SplitPointUnique(2, 0);
    assert Mth(sha, leaves, 0, 1) == leaves[0] && Mth(sha, leaves, 1, 2) == leaves[1];
  }

  /** So there is a tag that was moved and cosigned, in a log that is attested, and it is never verified. */
  lemma MovedTagHappens(clone: Clone) returns (sha: Sha, hashed: set<bytes>, ref: bytes, entries: seq<Entry>)
    requires IsAncestry(clone.anc)
    ensures CollisionFree(sha, hashed) && EntriesHashed(sha, hashed, entries) && Storable(entries)
    ensures var run, body := OneSubmission(sha, entries), Marshal(CheckpointFor(sha, "log", entries));
            && ProofsHashed(sha, hashed, run) && CosignedIn(sha, run, body)
            && Attested(sha, run, CosignedHead(sha, entries), WitnessOf(body), "w")
    ensures ParseRefKind(ref) == Some(Tag) && Breaks(clone.anc, Tag, RecordsOf(entries, ref))
    ensures RefVerdict(clone, ref, entries).Some? && RefVerdict(clone, ref, entries).value.RuleBroken?
  {
    ref := "refs/tags/v1";
    var first: bytes, second: bytes := seq(40, _ => '0'), seq(40, _ => '1');
    TagRecordsExist(ref, first, second);
    entries := MovedTag(ref, first, second);
    MovedTagRecords(ref, first, second);
    sha, hashed := NoCollision(entries[0], entries[1]);
    assert entries == [entries[0], entries[1]];
    MovedTagBreaks(clone, ref, first, second);
    SubmissionCosigned(sha, hashed, entries);
    CosignedAttested(sha, entries);
    CosignedBreak(sha, hashed, entries, clone, ref, Tag);
  }

  lemma TagRecordsExist(ref: bytes, first: bytes, second: bytes)
    requires ref == "refs/tags/v1" && first == seq(40, _ => '0') && second == seq(40, _ => '1')
    ensures NewRefRecord(ref, first).Ok? && NewRefRecord(ref, second).Ok? && CleanRef(ref) && first != second
    ensures ParseRefKind(ref) == Some(Tag)
    ensures NewRefRecord(ref, first).value.raw != NewRefRecord(ref, second).value.raw
  {
    assert "refs/tags/" <= ref;
    assert first[0] == '0' && second[0] == '1';
    var a, b := NewRefRecord(ref, first).value.raw, NewRefRecord(ref, second).value.raw;
    assert a[|a| - 2] == first[39] && b[|b| - 2] == second[39];
  }
}
