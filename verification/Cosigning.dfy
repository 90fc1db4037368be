/** ratchet.go, `cosignWithWitness`: an exchange with a witness, and the one retry that brings both together. */
module Cosigning {
  import opened Wrappers
  import opened Hashing
  import opened Rfc6962
  import opened Verifier
  import opened Consistency
  import opened Text
  import opened Entries
  import opened Notes
  import opened SignedNotes
  import opened Checkpoints
  import opened GitUtil
  import opened GitLog
  import opened LogStore
  import opened Policies
  import opened Collecting
  import opened Witness
  import opened SplitView
  import opened Ratchet
  import opened Runs
  import Tlog

  /** What the client gets, and the witness's state file afterwards. */
  datatype Exchanged = Exchanged(reply: Reply, file: Option<bytes>)

  /** One submission, with a proof from the given size. */
  ghost function SubmitOutcome(sha: Sha, key: Key, file: Option<bytes>, entries: seq<Entry>, from: nat, signed: bytes,
                               crash: Crash): Exchanged {
    match Tlog.ProofResult(sha, Leaves(sha, entries), from)
    case Err(_) => Exchanged(Err(NoProof), file)
    case Ok(path) =>
      var answer := AnswerTo(sha, key, file, Request(from, path, signed), crash);
      Exchanged(if answer.reply.Some? then answer.reply.value else Err(Unreachable), answer.file)
  }

  /** The exchange: a second submission if the witness says that it holds another size. */
  ghost function CosignOutcome(sha: Sha, key: Key, file: Option<bytes>, entries: seq<Entry>, oldSize: nat,
                               signed: bytes, first: Crash, second: Crash): Exchanged {
    var one := SubmitOutcome(sha, key, file, entries, oldSize, signed, first);
    if one.reply.Err? && one.reply.error.Stale? && one.reply.error.size != oldSize
    then SubmitOutcome(sha, key, one.file, entries, one.reply.error.size, signed, second)
    else one
  }

  method Submit(sha: Sha, key: Key, state: FileState, l: Log, from: nat, signed: bytes, crash: Crash)
    returns (reply: Reply)
    requires l.sha == sha
    modifies state
    ensures Exchanged(reply, state.file)
         == SubmitOutcome(sha, key, old(state.file), old(l.entries), from, signed, crash)
  {
    var proof := l.ConsistencyProofFrom(from);
    if proof.Err? {
      return Err(NoProof);
    }
    var answer := AnswerAddCheckpoint(sha, key, state, Request(from, proof.value, signed), crash);
    if answer.None? {
      return Err(Unreachable);
    }
    return answer.value;
  }

  /** Has a signed checkpoint cosigned by one witness, in at most two submissions. */
  method CosignWithWitness(sha: Sha, key: Key, state: FileState, l: Log, oldSize: nat, signed: bytes,
                           first: Crash, second: Crash)
    returns (reply: Reply)
    requires l.sha == sha
    modifies state
    ensures Exchanged(reply, state.file)
         == CosignOutcome(sha, key, old(state.file), old(l.entries), oldSize, signed, first, second)
  {
    reply := Submit(sha, key, state, l, oldSize, signed, first);
    if reply.Err? && reply.error.Stale? && reply.error.size != oldSize {
      reply := Submit(sha, key, state, l, reply.error.size, signed, second);
    }
  }

  // ---------- Stale recovery ----------

  /** The origin of a note's checkpoint is its first line. */
  lemma FirstLineIsOrigin(note: bytes)
    requires SignedIn(note).Ok?
    ensures FirstLine(note) == SignedIn(note).value.origin
  {
    var body := OpenNote(note).value.0;
    var s := OpenParts(note);
    CutParts(body, '\n');
    var (origin, rest) := Cut(body, '\n').value;
    BodyInNote(note, body, origin, rest);
    CutFirst(origin, rest + note[|body|..], '\n');
  }

  lemma BodyInNote(note: bytes, body: bytes, line: bytes, rest: bytes)
    requires body <= note && body == line + ['\n'] + rest
    ensures note == line + ['\n'] + (rest + note[|body|..])
  {
  }

  /** The witness keeps this log's state, and what it holds is a prefix of the entries. */
  ghost predicate HoldsPrefix(sha: Sha, file: Option<bytes>, origin: bytes, entries: seq<Entry>) {
    && LatestIn(file, origin).Ok? && HeldBy(sha, file).Ok?
    && var held := HeldBy(sha, file).value;
       held.size <= |entries| && held.root == RootOf(sha, Leaves(sha, entries[..held.size]))
  }

  /** The witness knows the log, and the note is about all of the entries. */
  ghost predicate Submittable(sha: Sha, key: Key, entries: seq<Entry>, signed: bytes) {
    Describes(sha, signed, entries) && FromKnownLog(key, signed)
  }

  ghost function OriginOf(signed: bytes): bytes
    requires SignedIn(signed).Ok?
  {
    SignedIn(signed).value.origin
  }

  /** A submission from another size than the one held is answered with that one, and changes nothing. */
  lemma OtherSizeIsStale(sha: Sha, key: Key, file: Option<bytes>, entries: seq<Entry>, from: nat, signed: bytes,
                         crash: Crash)
    requires Submittable(sha, key, entries, signed) && from <= |entries|
    requires LatestIn(file, OriginOf(signed)).Ok? && HeldBy(sha, file).Ok?
    requires from != HeldBy(sha, file).value.size
    ensures SubmitOutcome(sha, key, file, entries, from, signed, crash)
         == Exchanged(Err(Stale(HeldBy(sha, file).value.size)), file)
  {
    OpenedIsRead(signed);
  }

  /** The state file of a witness that cosigned. */
  function CosignedFile(key: Key, signed: bytes): Option<bytes>
    requires SignedIn(signed).Ok?
  {
    Some(AppendSignature(signed, CosignatureOf(key, signed)))
  }

  /** What a witness has against a proof from the checkpoint it holds. */
  function Objection(sha: Sha, held: Checkpoint, size: nat, root: Hash, path: seq<Hash>): Option<WitnessError> {
    if size == held.size && root != held.root then Some(RootMismatch)
    else if !VerifyConsistency(sha, held.size, size, path, held.root, root) then Some(InvalidProof)
    else None
  }

  /** A request from the size held is decided by its proof. */
  lemma DecidedByProof(sha: Sha, key: Key, file: Option<bytes>, req: Request)
    requires FromKnownLog(key, req.note)
    requires LatestIn(file, OriginOf(req.note)).Ok? && HeldBy(sha, file).Ok?
    requires req.oldSize == HeldBy(sha, file).value.size <= SignedIn(req.note).value.size
    ensures var cp := SignedIn(req.note).value;
            Decision(sha, key, file, req)
            == match Objection(sha, HeldBy(sha, file).value, cp.size, cp.root, req.path)
               case Some(e) => Err(e)
               case None => Ok(CosignedFile(key, req.note))
  {
  }

  /** The witness's objection to the log's own proof. */
  ghost function LogObjection(sha: Sha, held: Checkpoint, entries: seq<Entry>): Option<WitnessError>
    requires held.size <= |entries|
  {
    var leaves := Leaves(sha, entries);
    Objection(sha, held, |entries|, RootOf(sha, leaves), Tlog.ProofResult(sha, leaves, held.size).value)
  }

  /** A submission from the size held, with a crash anywhere over it. */
  lemma SameSizeIsDecided(sha: Sha, key: Key, file: Option<bytes>, entries: seq<Entry>, signed: bytes, crash: Crash)
    requires Submittable(sha, key, entries, signed)
    requires LatestIn(file, OriginOf(signed)).Ok? && HeldBy(sha, file).Ok?
    requires HeldBy(sha, file).value.size <= |entries|
    ensures SubmitOutcome(sha, key, file, entries, HeldBy(sha, file).value.size, signed, crash)
         == Decided(sha, key, file, HeldBy(sha, file).value, entries, signed, crash)
  {
    OpenedIsRead(signed);
    var held := HeldBy(sha, file).value;
    DecidedByProof(sha, key, file,
                   Request(held.size, Tlog.ProofResult(sha, Leaves(sha, entries), held.size).value, signed));
  }

  /** An honest proof from a held prefix is accepted. */
  lemma PrefixIsAccepted(sha: Sha, held: Checkpoint, entries: seq<Entry>)
    requires held.size <= |entries| && held.root == RootOf(sha, Leaves(sha, entries[..held.size]))
    ensures LogObjection(sha, held, entries).None?
  {
    var leaves := Leaves(sha, entries);
    LeavesPrefix(sha, entries, held.size);
    if held.size == 0 {
      if |entries| == 0 { assert entries[..0] == entries; }
    } else {
      ConsistencyComplete(sha, leaves, held.size);
      ProofEmptyIff(sha, leaves, held.size);
    }
  }

  /** The first submission settles it. */
  lemma NoRetry(sha: Sha, key: Key, file: Option<bytes>, entries: seq<Entry>, oldSize: nat, signed: bytes,
                first: Crash, second: Crash, one: Exchanged)
    requires SubmitOutcome(sha, key, file, entries, oldSize, signed, first) == one
    requires one.reply.Err? ==> !one.reply.error.Stale?
    ensures CosignOutcome(sha, key, file, entries, oldSize, signed, first, second) == one
  {
  }

  /** The second one does, from the size that the witness reports. */
  lemma OneRetry(sha: Sha, key: Key, file: Option<bytes>, entries: seq<Entry>, oldSize: nat, signed: bytes,
                 first: Crash, second: Crash, size: nat, two: Exchanged)
    requires SubmitOutcome(sha, key, file, entries, oldSize, signed, first) == Exchanged(Err(Stale(size)), file)
    requires size != oldSize && SubmitOutcome(sha, key, file, entries, size, signed, second) == two
    ensures CosignOutcome(sha, key, file, entries, oldSize, signed, first, second) == two
  {
  }

  /** What comes of a submission from the size held. */
  ghost function Decided(sha: Sha, key: Key, file: Option<bytes>, held: Checkpoint, entries: seq<Entry>, signed: bytes,
                         crash: Crash): Exchanged
    requires held.size <= |entries| && SignedIn(signed).Ok?
  {
    match LogObjection(sha, held, entries)
    case Some(e) => Exchanged(Err(e), file)
    case None => Exchanged(if crash.NoCrash? then Ok(CosignatureOf(key, signed)) else Err(Unreachable),
                           if Durable(crash) then CosignedFile(key, signed) else file)
  }

  /** The exchange with a witness that holds no more than the log, with a crash anywhere over either submission. */
  lemma ExchangeDecided(sha: Sha, key: Key, file: Option<bytes>, entries: seq<Entry>, oldSize: nat, signed: bytes,
                        first: Crash, second: Crash)
    requires Submittable(sha, key, entries, signed) && oldSize <= |entries|
    requires LatestIn(file, OriginOf(signed)).Ok? && HeldBy(sha, file).Ok?
    requires HeldBy(sha, file).value.size <= |entries|
    ensures var held := HeldBy(sha, file).value;
            CosignOutcome(sha, key, file, entries, oldSize, signed, first, second)
            == Decided(sha, key, file, held, entries, signed, if oldSize == held.size then first else second)
  {
    var held := HeldBy(sha, file).value;
    if oldSize == held.size {
      SameSizeIsDecided(sha, key, file, entries, signed, first);
      NoRetry(sha, key, file, entries, oldSize, signed, first, second,
              Decided(sha, key, file, held, entries, signed, first));
    } else {
      SameSizeIsDecided(sha, key, file, entries, signed, second);
      OtherSizeIsStale(sha, key, file, entries, oldSize, signed, first);
      OneRetry(sha, key, file, entries, oldSize, signed, first, second, held.size,
               Decided(sha, key, file, held, entries, signed, second));
    }
  }

  /**
    Stale recovery: a witness that holds any prefix of the log, the empty one
    included, and does not move in between returns a cosignature after at most two
    submissions, whatever size the client believes it to hold.
   */
  lemma StaleRecovery(sha: Sha, key: Key, file: Option<bytes>, entries: seq<Entry>, oldSize: nat, signed: bytes)
    requires Submittable(sha, key, entries, signed) && oldSize <= |entries|
    requires HoldsPrefix(sha, file, OriginOf(signed), entries)
    ensures CosignOutcome(sha, key, file, entries, oldSize, signed, NoCrash, NoCrash)
         == Exchanged(Ok(CosignatureOf(key, signed)), CosignedFile(key, signed))
  {
    PrefixIsAccepted(sha, HeldBy(sha, file).value, entries);
    ExchangeDecided(sha, key, file, entries, oldSize, signed, NoCrash, NoCrash);
  }

  /** The state a witness is in after it cosigned: it holds all of the log. */
  lemma HoldsAllAfter(sha: Sha, key: Key, entries: seq<Entry>, signed: bytes)
    requires Submittable(sha, key, entries, signed)
    ensures HoldsPrefix(sha, CosignedFile(key, signed), OriginOf(signed), entries)
  {
    var line := CosignatureOf(key, signed);
    OpenedIsRead(signed);
    SignatureKeepsCheckpoint(signed, line);
    FirstLineIsOrigin(AppendSignature(signed, line));
    assert entries[..|entries|] == entries;
  }

  /** A witness that stops before it answers has advanced all the same. */
  lemma ReplyIsLost(sha: Sha, key: Key, file: Option<bytes>, entries: seq<Entry>, oldSize: nat, signed: bytes)
    requires Submittable(sha, key, entries, signed) && oldSize <= |entries|
    requires HoldsPrefix(sha, file, OriginOf(signed), entries)
    ensures CosignOutcome(sha, key, file, entries, oldSize, signed, BeforeReply, BeforeReply)
         == Exchanged(Err(Unreachable), CosignedFile(key, signed))
  {
    PrefixIsAccepted(sha, HeldBy(sha, file).value, entries);
    ExchangeDecided(sha, key, file, entries, oldSize, signed, BeforeReply, BeforeReply);
  }

  /** A lost reply is recovered: the witness has advanced, and answers the same checkpoint again. */
  lemma LostReplyRecovered(sha: Sha, key: Key, file: Option<bytes>, entries: seq<Entry>, oldSize: nat, signed: bytes)
    requires Submittable(sha, key, entries, signed) && oldSize <= |entries|
    requires HoldsPrefix(sha, file, OriginOf(signed), entries)
    ensures var lost := CosignOutcome(sha, key, file, entries, oldSize, signed, BeforeReply, BeforeReply);
            && lost.reply == Err(Unreachable)
            && CosignOutcome(sha, key, lost.file, entries, oldSize, signed, NoCrash, NoCrash).reply
            == Ok(CosignatureOf(key, signed))
  {
    ReplyIsLost(sha, key, file, entries, oldSize, signed);
    HoldsAllAfter(sha, key, entries, signed);
    StaleRecovery(sha, key, CosignedFile(key, signed), entries, oldSize, signed);
  }

  /** The held checkpoint describes a prefix of the entries; nothing is a prefix of any log. */
  ghost predicate Agrees(sha: Sha, held: Checkpoint, entries: seq<Entry>) {
    && held.size <= |entries|
    && (held.size > 0 ==> held.root == RootOf(sha, Leaves(sha, entries[..held.size])))
  }

  /** `hashed` holds the strings hashed for the log, and by the witness for the proof from the size it holds. */
  ghost predicate ExchangeHashed(sha: Sha, hashed: set<bytes>, held: Checkpoint, entries: seq<Entry>) {
    var leaves := Leaves(sha, entries);
    && RootHashed(sha, hashed, leaves)
    && (held.size <= |entries| ==>
          VerifyHashed(sha, hashed, held.size, |entries|, Tlog.ProofResult(sha, leaves, held.size).value, held.root))
  }

  /** The witness's decision over an honest proof, exactly. */
  lemma DecisionExact(sha: Sha, hashed: set<bytes>, held: Checkpoint, entries: seq<Entry>)
    requires CollisionFree(sha, hashed) && ExchangeHashed(sha, hashed, held, entries)
    requires 0 < |entries| && held.size <= |entries|
    ensures LogObjection(sha, held, entries).None? <==> Agrees(sha, held, entries)
    ensures LogObjection(sha, held, entries) == Some(RootMismatch) <==>
              held.size == |entries| && !Agrees(sha, held, entries)
  {
    var leaves := Leaves(sha, entries);
    LeavesPrefix(sha, entries, held.size);
    if held.size > 0 {
      ConsistencyExact(sha, hashed, leaves, held.size, Tlog.ProofResult(sha, leaves, held.size).value, held.root);
    }
  }

  /**
    The exchange with an honest witness that does not move, exactly.  It gives a
    cosignature if and only if the witness holds a prefix of the log.  A witness
    that is ahead of the log is skipped; one that holds another history refuses,
    with an error that is never skipped.
   */
  lemma ExchangeExact(sha: Sha, hashed: set<bytes>, key: Key, file: Option<bytes>, entries: seq<Entry>, oldSize: nat,
                      signed: bytes)
    requires CollisionFree(sha, hashed) && 0 < |entries| && oldSize <= |entries|
    requires Submittable(sha, key, entries, signed)
    requires LatestIn(file, OriginOf(signed)).Ok? && HeldBy(sha, file).Ok?
    requires ExchangeHashed(sha, hashed, HeldBy(sha, file).value, entries)
    ensures var held := HeldBy(sha, file).value;
            var reply := CosignOutcome(sha, key, file, entries, oldSize, signed, NoCrash, NoCrash).reply;
            && (reply.Ok? <==> Agrees(sha, held, entries))
            && (held.size > |entries| ==> reply == Err(NoProof))
            && (Fatal(reply) <==> held.size <= |entries| && !Agrees(sha, held, entries))
            && (reply == Err(RootMismatch) <==> held.size == |entries| && !Agrees(sha, held, entries))
  {
    var held := HeldBy(sha, file).value;
    if held.size <= |entries| {
      DecisionExact(sha, hashed, held, entries);
      ExchangeDecided(sha, key, file, entries, oldSize, signed, NoCrash, NoCrash);
    } else {
      OtherSizeIsStale(sha, key, file, entries, oldSize, signed, NoCrash);
    }
  }

  // ---------- A checkpoint that succeeds ----------

  /** An honest witness, by the name it has in a policy. */
  datatype HonestWitness = HonestWitness(name: bytes, key: Key, file: Option<bytes>)

  /** The witness knows the log's key, holds a prefix, and its cosignatures are recognised under its name. */
  ghost predicate Willing(sha: Sha, w: HonestWitness, who: Parties, pol: Policy, entries: seq<Entry>) {
    var body := Marshal(CheckpointFor(sha, who.origin, entries));
    && HoldsPrefix(sha, w.file, who.origin, entries)
    && w.key.trusted(who.origin, body, who.sign(body))
    && pol.cosigner(body, w.key.cosign(body)) == Some(w.name)
  }

  lemma SignedIsKnown(sha: Sha, w: HonestWitness, who: Parties, pol: Policy, entries: seq<Entry>)
    requires Signs(who) && Writable(CheckpointFor(sha, who.origin, entries))
    requires Willing(sha, w, who, pol, entries)
    ensures Submittable(sha, w.key, entries, NoteWith(who, CheckpointFor(sha, who.origin, entries), []))
  {
    var cp := CheckpointFor(sha, who.origin, entries);
    NoteDescribes(sha, who, entries, []);
    FreshNote(who, cp);
    assert OpenNote(NoteWith(who, cp, [])).value.1[0] == who.sign(Marshal(cp));
  }

  function ReplyOf(w: HonestWitness, body: bytes): Reply {
    Ok(w.key.cosign(body))
  }

  /** Every willing witness's reply is its cosignature. */
  lemma WillingReply(sha: Sha, w: HonestWitness, who: Parties, pol: Policy, entries: seq<Entry>, oldSize: nat)
    requires Signs(who) && Writable(CheckpointFor(sha, who.origin, entries)) && oldSize <= |entries|
    requires Willing(sha, w, who, pol, entries)
    ensures var signed := NoteWith(who, CheckpointFor(sha, who.origin, entries), []);
            CosignOutcome(sha, w.key, w.file, entries, oldSize, signed, NoCrash, NoCrash).reply
            == ReplyOf(w, Marshal(CheckpointFor(sha, who.origin, entries)))
  {
    var cp := CheckpointFor(sha, who.origin, entries);
    SignedIsKnown(sha, w, who, pol, entries);
    FreshNote(who, cp);
    StaleRecovery(sha, w.key, w.file, entries, oldSize, NoteWith(who, cp, []));
  }

  /** A collected cosignature makes its witness one of the cosigners. */
  lemma CollectedCosigns(sha: Sha, w: HonestWitness, who: Parties, pol: Policy, entries: seq<Entry>,
                         replies: seq<Reply>)
    requires Signs(who) && Writable(CheckpointFor(sha, who.origin, entries))
    requires Willing(sha, w, who, pol, entries)
    requires ReplyOf(w, Marshal(CheckpointFor(sha, who.origin, entries))) in replies
    requires Collected(replies).Ok? && AllSignatureTexts(Collected(replies).value)
    ensures CosignedBy(pol, w.name, NoteWith(who, CheckpointFor(sha, who.origin, entries), Collected(replies).value))
  {
    var cp, texts := CheckpointFor(sha, who.origin, entries), Collected(replies).value;
    var line: bytes := w.key.cosign(Marshal(cp));
    NoteOpens(who, cp, texts);
    CollectedIff(replies);
    assert multiset(texts)[line] == Times(replies, line) > 0;
    OneSignature(line);
    AllLinesMembers(texts, line);
  }

  /** Nothing that counts is refused, and whatever is sent is signature lines. */
  ghost predicate NoneRefused(replies: seq<Reply>) {
    forall r :: r in replies ==> !Fatal(r) && (r.Ok? ==> SignatureText(r.value))
  }

  lemma NoneRefusedTexts(replies: seq<Reply>)
    requires NoneRefused(replies)
    ensures Collected(replies).Ok? && AllSignatureTexts(Collected(replies).value)
  {
    CollectedIff(replies);
    forall t | t in Collected(replies).value
      ensures SignatureText(t)
    {
      assert multiset(Collected(replies).value)[t] == Times(replies, t) > 0;
      assert Ok(t) in replies;
    }
  }

  /** The replies are harmless, and hold the answer of every listed witness. */
  ghost predicate RepliesFrom(sha: Sha, ws: set<HonestWitness>, replies: seq<Reply>, entries: seq<Entry>, oldSize: nat,
                              signed: bytes) {
    && NoneRefused(replies)
    && forall w :: w in ws ==>
         CosignOutcome(sha, w.key, w.file, entries, oldSize, signed, NoCrash, NoCrash).reply in replies
  }

  /** The same whatever size the log is sent from. */
  ghost predicate AnswersOf(sha: Sha, ws: set<HonestWitness>, who: Parties, entries: seq<Entry>, signed: bytes) {
    forall oldSize: nat :: oldSize <= |entries| ==>
      RepliesFrom(sha, ws, who.replies(entries, oldSize, signed), entries, oldSize, signed)
  }

  ghost predicate AllWilling(sha: Sha, ws: set<HonestWitness>, who: Parties, pol: Policy, entries: seq<Entry>) {
    forall w :: w in ws ==> Willing(sha, w, who, pol, entries)
  }

  ghost function NamesOf(ws: set<HonestWitness>): set<bytes> {
    set w | w in ws :: w.name
  }

  /** The quorum holds with what is collected from witnesses that are willing. */
  lemma WillingSatisfy(sha: Sha, ws: set<HonestWitness>, who: Parties, pol: Policy, entries: seq<Entry>, oldSize: nat,
                       replies: seq<Reply>)
    requires Signs(who) && Monotone(pol) && pol.quorum(NamesOf(ws))
    requires Writable(CheckpointFor(sha, who.origin, entries)) && oldSize <= |entries|
    requires AllWilling(sha, ws, who, pol, entries)
    requires RepliesFrom(sha, ws, replies, entries, oldSize, NoteWith(who, CheckpointFor(sha, who.origin, entries), []))
    ensures Collected(replies).Ok?
    ensures Satisfied(pol, NoteWith(who, CheckpointFor(sha, who.origin, entries), Collected(replies).value))
  {
    NoneRefusedTexts(replies);
    var cp, texts := CheckpointFor(sha, who.origin, entries), Collected(replies).value;
    forall w | w in ws
      ensures CosignedBy(pol, w.name, NoteWith(who, cp, texts))
    {
      WillingReply(sha, w, who, pol, entries, oldSize);
      CollectedCosigns(sha, w, who, pol, entries, replies);
    }
    NoteOpens(who, cp, texts);
    var (body, lines) := OpenNote(NoteWith(who, cp, texts)).value;
    assert NamesOf(ws) <= Cosigners(pol, body, lines);
  }

  /**
    A checkpoint command succeeds when the chains are in order and the witnesses
    that are willing make a quorum, whatever sizes they hold and whichever other
    witnesses cannot be reached.
   */
  lemma CheckpointSucceeds(sha: Sha, head: Option<Commit>, clone: Clone, who: Parties, pol: Policy,
                           ws: set<HonestWitness>, message: bytes)
    requires Signs(who) && Monotone(pol) && pol.quorum(NamesOf(ws))
    requires Opened(head).Ok? && Fits(sha, Opened(head).value.checkpoint, EntriesAt(head))
    requires EntriesAt(head) != [] && LogChainsOk(clone, EntriesAt(head))
    requires Writable(CheckpointFor(sha, who.origin, EntriesAt(head)))
    requires AllWilling(sha, ws, who, pol, EntriesAt(head))
    requires var signed := NoteWith(who, CheckpointFor(sha, who.origin, EntriesAt(head)), []);
             AnswersOf(sha, ws, who, EntriesAt(head), signed)
    ensures CheckpointOutcome(sha, head, clone, who, pol, message).reply.Ok?
  {
    var entries, oldSize := EntriesAt(head), ToCheckpoint(head, clone).value.1;
    var signed := NoteWith(who, CheckpointFor(sha, who.origin, entries), []);
    var replies := who.replies(entries, oldSize, signed);
    assert RepliesFrom(sha, ws, replies, entries, oldSize, signed);
    WillingSatisfy(sha, ws, who, pol, entries, oldSize, replies);
    StoresNote(sha, head, clone, who, pol, message, oldSize, Collected(replies).value);
  }
}
