/**
  A witness and the log it watches, over whole runs: what the commands of ratchet.go
  do to the log ref, and their exchanges to the witness's state file.
 */
module Following {
  import opened Wrappers
  import opened Hashing
  import opened Entries
  import opened SignedNotes
  import opened Checkpoints
  import opened GitUtil
  import opened GitLog
  import opened LogStore
  import opened Policies
  import opened Collecting
  import opened Witness
  import opened SplitView
  import opened Ratchet
  import opened Runs
  import opened Cosigning

  /** The log ref, and the state file of one witness. */
  datatype Joint = Joint(head: Option<Commit>, file: Option<bytes>)

  /** A command, and where the witness crashes over its submissions. */
  datatype Round = Round(c: Command, message: bytes, first: Crash, second: Crash)

  /** What a checkpoint command sends to the witnesses: the entries, the size it expects them to hold, the note. */
  datatype Sent = Sent(entries: seq<Entry>, oldSize: nat, signed: bytes)

  ghost function SentBy(sha: Sha, head: Option<Commit>, c: Command): Option<Sent> {
    match c
    case LogCommand(_, _) => None
    case CheckpointCommand(clone, who, _) =>
      match ToCheckpoint(head, clone)
      case Err(_) => None
      case Ok((log, oldSize)) =>
        match SignCheckpoint(Marshal(CheckpointFor(sha, who.origin, log.entries)), who.sign)
        case Err(_) => None
        case Ok(signed) => Some(Sent(log.entries, oldSize, signed))
  }

  /** The exchange of a round with the witness, if it gets that far. */
  ghost function ExchangeOf(sha: Sha, key: Key, j: Joint, round: Round): Option<Exchanged> {
    match SentBy(sha, j.head, round.c)
    case None => None
    case Some(sent) =>
      Some(CosignOutcome(sha, key, j.file, sent.entries, sent.oldSize, sent.signed, round.first, round.second))
  }

  /** The state file after a round. */
  ghost function FileAfter(sha: Sha, key: Key, j: Joint, round: Round): Option<bytes> {
    match ExchangeOf(sha, key, j, round)
    case None => j.file
    case Some(exchanged) => exchanged.file
  }

  ghost function NextJoint(sha: Sha, key: Key, j: Joint, round: Round): Joint {
    Joint(Perform(sha, j.head, round.c, round.message).head, FileAfter(sha, key, j, round))
  }

  ghost function AfterRounds(sha: Sha, key: Key, j: Joint, rounds: seq<Round>): Joint
    decreases |rounds|
  {
    if rounds == [] then j else AfterRounds(sha, key, NextJoint(sha, key, j, rounds[0]), rounds[1..])
  }

  /** Every exchange over which the witness does not crash gives a cosignature. */
  ghost predicate AlwaysCosigned(sha: Sha, key: Key, j: Joint, rounds: seq<Round>)
    decreases |rounds|
  {
    rounds == [] ||
    (Cosigned(sha, key, j, rounds[0]) && AlwaysCosigned(sha, key, NextJoint(sha, key, j, rounds[0]), rounds[1..]))
  }

  ghost predicate Cosigned(sha: Sha, key: Key, j: Joint, round: Round) {
    ExchangeOf(sha, key, j, round).Some? && round.first == NoCrash && round.second == NoCrash ==>
      ExchangeOf(sha, key, j, round).value.reply.Ok?
  }

  /** The witness knows the log by its origin, and the key that signs for it. */
  ghost predicate Knows(key: Key, who: Parties) {
    forall cp :: Writable(cp) && cp.origin == who.origin ==>
                   key.trusted(who.origin, Marshal(cp), who.sign(Marshal(cp)))
  }

  /** The commands of one log, in any clones. */
  ghost predicate OfLog(anc: Ancestry, key: Key, origin: bytes, c: Command) {
    Performable(anc, c) && (c.CheckpointCommand? ==> c.who.origin == origin && Knows(key, c.who))
  }

  /** The log keeps the rule, and the witness holds a prefix of it. */
  ghost predicate InStep(sha: Sha, anc: Ancestry, origin: bytes, j: Joint) {
    Sound(sha, anc, j.head) && HoldsPrefix(sha, j.file, origin, EntriesAt(j.head))
  }

  lemma HoldsLonger(sha: Sha, file: Option<bytes>, origin: bytes, a: seq<Entry>, b: seq<Entry>)
    requires HoldsPrefix(sha, file, origin, a) && a <= b
    ensures HoldsPrefix(sha, file, origin, b)
  {
    var n := HeldBy(sha, file).value.size;
    assert a[..n] == b[..n];
  }

  /** What is sent is known to the witness, is about the log as it is, and from a size within it. */
  lemma SentIsKnown(sha: Sha, anc: Ancestry, key: Key, origin: bytes, head: Option<Commit>, c: Command)
    requires OfLog(anc, key, origin, c) && Sound(sha, anc, head) && SentBy(sha, head, c).Some?
    ensures var sent := SentBy(sha, head, c).value;
            && sent.entries == EntriesAt(head) && sent.oldSize <= |sent.entries|
            && Submittable(sha, key, sent.entries, sent.signed) && OriginOf(sent.signed) == origin
  {
    var cp := CheckpointFor(sha, origin, EntriesAt(head));
    OpenedWellFormed(head);
    SignableIsWritable(cp);
    FreshNote(c.who, cp);
    NoteDescribes(sha, c.who, EntriesAt(head), []);
    KnownByNote(key, NoteWith(c.who, cp, []), origin, Marshal(cp), c.who.sign(Marshal(cp)));
  }

  lemma KnownByNote(key: Key, note: bytes, origin: bytes, body: bytes, line: bytes)
    requires OpenNote(note) == Some((body, [line])) && SignedIn(note).Ok? && SignedIn(note).value.origin == origin
    requires key.trusted(origin, body, line)
    ensures FromKnownLog(key, note)
  {
    assert OpenNote(note).value.1[0] == line;
  }

  /** An exchange leaves the witness with a prefix, and cosigns unless it crashes. */
  lemma ExchangeInStep(sha: Sha, key: Key, file: Option<bytes>, entries: seq<Entry>, oldSize: nat, signed: bytes,
                       first: Crash, second: Crash)
    requires Submittable(sha, key, entries, signed) && oldSize <= |entries|
    requires HoldsPrefix(sha, file, OriginOf(signed), entries)
    ensures var after := CosignOutcome(sha, key, file, entries, oldSize, signed, first, second);
            && HoldsPrefix(sha, after.file, OriginOf(signed), entries)
            && (first == NoCrash && second == NoCrash ==> after.reply.Ok?)
  {
    PrefixIsAccepted(sha, HeldBy(sha, file).value, entries);
    ExchangeDecided(sha, key, file, entries, oldSize, signed, first, second);
    HoldsAllAfter(sha, key, entries, signed);
  }

  /** What is sent keeps the witness in step. */
  lemma SentInStep(sha: Sha, key: Key, j: Joint, round: Round, sent: Sent, origin: bytes, entries: seq<Entry>)
    requires SentBy(sha, j.head, round.c) == Some(sent)
    requires sent.entries == entries && sent.oldSize <= |entries|
    requires Submittable(sha, key, entries, sent.signed) && OriginOf(sent.signed) == origin
    requires HoldsPrefix(sha, j.file, origin, entries)
    ensures HoldsPrefix(sha, FileAfter(sha, key, j, round), origin, entries) && Cosigned(sha, key, j, round)
  {
    ExchangeInStep(sha, key, j.file, entries, sent.oldSize, sent.signed, round.first, round.second);
  }

  /** The exchange of a round leaves the witness with a prefix of the log as it was before the round. */
  lemma FileInStep(sha: Sha, anc: Ancestry, key: Key, origin: bytes, j: Joint, round: Round)
    requires OfLog(anc, key, origin, round.c) && InStep(sha, anc, origin, j)
    ensures HoldsPrefix(sha, FileAfter(sha, key, j, round), origin, EntriesAt(j.head))
    ensures Cosigned(sha, key, j, round)
  {
    match SentBy(sha, j.head, round.c)
    case None =>
    case Some(sent) =>
      SentIsKnown(sha, anc, key, origin, j.head, round.c);
      SentInStep(sha, key, j, round, sent, origin, EntriesAt(j.head));
  }

  lemma RoundInStep(sha: Sha, anc: Ancestry, key: Key, origin: bytes, j: Joint, round: Round)
    requires IsAncestry(anc) && OfLog(anc, key, origin, round.c) && InStep(sha, anc, origin, j)
    ensures InStep(sha, anc, origin, NextJoint(sha, key, j, round)) && Cosigned(sha, key, j, round)
  {
    CommandKeepsSound(sha, anc, j.head, round.c, round.message);
    FileInStep(sha, anc, key, origin, j, round);
    HoldsLonger(sha, FileAfter(sha, key, j, round), origin, EntriesAt(j.head),
                EntriesAt(Perform(sha, j.head, round.c, round.message).head));
  }

  /**
    A witness that sees one log only never refuses it.  Whatever commands run in
    whatever clones, whether they succeed or not, and wherever the witness crashes
    over their submissions, it always holds a prefix of the log, and every exchange
    over which it does not crash ends with a cosignature.
   */
  lemma {:induction false} WitnessFollows(sha: Sha, anc: Ancestry, key: Key, origin: bytes, j: Joint,
                                          rounds: seq<Round>)
    requires IsAncestry(anc) && InStep(sha, anc, origin, j)
    requires forall round :: round in rounds ==> OfLog(anc, key, origin, round.c)
    ensures InStep(sha, anc, origin, AfterRounds(sha, key, j, rounds))
    ensures AlwaysCosigned(sha, key, j, rounds)
    decreases |rounds|
  {
    if rounds != [] {
      assert rounds[0] in rounds;
      RoundInStep(sha, anc, key, origin, j, rounds[0]);
      WitnessFollows(sha, anc, key, origin, NextJoint(sha, key, j, rounds[0]), rounds[1..]);
    }
  }

  /** The same from an empty log and a witness without a state file. */
  lemma WitnessFollowsFromNothing(sha: Sha, anc: Ancestry, key: Key, origin: bytes, rounds: seq<Round>)
    requires IsAncestry(anc) && forall round :: round in rounds ==> OfLog(anc, key, origin, round.c)
    ensures AlwaysCosigned(sha, key, Joint(None, None), rounds)
    ensures var j := AfterRounds(sha, key, Joint(None, None), rounds);
            HoldsPrefix(sha, j.file, origin, EntriesAt(j.head))
  {
    var none: seq<Entry> := [];
    assert none[..0] == none;
    assert HoldsPrefix(sha, None, origin, none);
    WitnessFollows(sha, anc, key, origin, Joint(None, None), rounds);
  }

  // ---------- Another history ----------

  /** A refusal that counts ends the command, and the log ref stays where it is. */
  lemma RefusalRejects(sha: Sha, head: Option<Commit>, clone: Clone, who: Parties, pol: Policy, message: bytes,
                       refusal: Reply)
    requires SentBy(sha, head, CheckpointCommand(clone, who, pol)).Some? && Fatal(refusal)
    requires var sent := SentBy(sha, head, CheckpointCommand(clone, who, pol)).value;
             refusal in who.replies(sent.entries, sent.oldSize, sent.signed)
    ensures var done := CheckpointOutcome(sha, head, clone, who, pol, message);
            && done.reply.Err? && done.reply.error.WitnessRejected? && done.head == head
  {
    var sent := SentBy(sha, head, CheckpointCommand(clone, who, pol)).value;
    CollectedIff(who.replies(sent.entries, sent.oldSize, sent.signed));
  }

  /**
    A witness with another history stops the log.  If one of the replies is that of
    an honest witness that holds no more than the log, and not a prefix of it, the
    checkpoint command is rejected whatever the others reply, and nothing is stored.
   */
  lemma OtherHistoryRejects(sha: Sha, hashed: set<bytes>, anc: Ancestry, head: Option<Commit>, c: Command,
                            message: bytes, key: Key, file: Option<bytes>)
    requires c.CheckpointCommand? && OfLog(anc, key, c.who.origin, c) && Sound(sha, anc, head)
    requires SentBy(sha, head, c).Some?
    requires LatestIn(file, c.who.origin).Ok? && HeldBy(sha, file).Ok?
    requires CollisionFree(sha, hashed) && ExchangeHashed(sha, hashed, HeldBy(sha, file).value, EntriesAt(head))
    requires HeldBy(sha, file).value.size <= |EntriesAt(head)|
    requires !Agrees(sha, HeldBy(sha, file).value, EntriesAt(head))
    requires var sent := SentBy(sha, head, c).value;
             CosignOutcome(sha, key, file, sent.entries, sent.oldSize, sent.signed, NoCrash, NoCrash).reply
             in c.who.replies(sent.entries, sent.oldSize, sent.signed)
    ensures var done := Perform(sha, head, c, message);
            && done.reply.Err? && done.reply.error.WitnessRejected? && done.head == head
  {
    var sent := SentBy(sha, head, c).value;
    SentIsKnown(sha, anc, key, c.who.origin, head, c);
    ExchangeExact(sha, hashed, key, file, sent.entries, sent.oldSize, sent.signed);
    RefusalRejects(sha, head, c.clone, c.who, c.pol, message,
                   CosignOutcome(sha, key, file, sent.entries, sent.oldSize, sent.signed, NoCrash, NoCrash).reply);
  }
}
