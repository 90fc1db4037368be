/**
  What a policy has to ask for so that whatever `checkpointLog` stores is verified
  afterwards, with nothing asked of what the witnesses send.
 */
module HonestQuorum {
  import opened Wrappers
  import opened Hashing
  import opened Notes
  import opened SignedNotes
  import opened Checkpoints
  import opened GitUtil
  import opened GitLog
  import opened LogStore
  import opened Policies
  import opened SplitView
  import opened Ratchet
  import opened Runs

  /** The witness cosigns only what the log has signed, by the key that the policy knows. */
  ghost predicate TrustsOnly(run: WitnessRun, pol: Policy) {
    forall origin, body, line :: run.key.trusted(origin, body, line) ==> pol.logSigned(body, line)
  }

  /** The log's signature is on everything that was cosigned. */
  lemma {:induction false} CosignedWasSigned(sha: Sha, run: WitnessRun, body: bytes)
    requires CosignedIn(sha, run, body)
    ensures exists origin, line :: run.key.trusted(origin, body, line)
    decreases |run.submissions|
  {
    if AnswerHere(sha, run).reply.Some? && AnswerHere(sha, run).reply.value.Ok?
       && BodyIn(run.submissions[0].req.note) == Some(body) {
      AcceptedWasSigned(sha, run, body);
    } else {
      CosignedWasSigned(sha, Onward(sha, run), body);
    }
  }

  lemma AcceptedWasSigned(sha: Sha, run: WitnessRun, body: bytes)
    requires run.submissions != [] && BodyIn(run.submissions[0].req.note) == Some(body)
    requires AnswerHere(sha, run).reply.Some? && AnswerHere(sha, run).reply.value.Ok?
    ensures exists origin, line :: run.key.trusted(origin, body, line)
  {
    var req := run.submissions[0].req;
    AcceptsExactly(sha, run.key, run.file, req);
    var lines := OpenNote(req.note).value.1;
    var line :| line in lines && run.key.trusted(SignedIn(req.note).value.origin, body, line);
  }

  /** A note that such a policy is satisfied with is about a checkpoint, and nothing behind it. */
  lemma HonestText(sha: Sha, run: WitnessRun, pol: Policy, name: bytes, note: bytes)
    requires OnlyTextsFrom(sha, run, pol, name) && Needs(pol, name) && TrustsOnly(run, pol) && SignsCheckpoints(pol)
    requires Satisfied(pol, note)
    ensures OpenNote(note).Some? && Index(OpenNote(note).value.0, Separator).None?
  {
    var (text, lines) := OpenNote(note).value;
    assert name in Cosigners(pol, text, lines);
    var line :| line in lines && pol.cosigner(text, line) == Some(name);
    CosignedWasSigned(sha, run, text);
    var origin, sig :| run.key.trusted(origin, text, sig);
    assert pol.logSigned(text, sig);
    var cp :| Writable(cp) && text == Marshal(cp);
    MarshalHasNoSeparator(cp);
  }

  /**
    Under a policy that needs an honest witness, whose cosignatures cover the text
    they are about, a checkpoint command that succeeds leaves a log that is
    verified as a whole, whatever the other witnesses sent.
   */
  lemma HonestQuorumVerifies(sha: Sha, head: Option<Commit>, clone: Clone, who: Parties, pol: Policy, message: bytes,
                             run: WitnessRun, name: bytes)
    requires Matches(who, pol) && SignsCheckpoints(pol) && IsAncestry(clone.anc)
    requires OnlyTextsFrom(sha, run, pol, name) && Needs(pol, name) && TrustsOnly(run, pol)
    requires CheckpointOutcome(sha, head, clone, who, pol, message).reply.Ok?
    ensures AllSignatureTexts(Gathered(sha, head, clone, who))
    ensures CheckpointedOutcome(sha, CheckpointOutcome(sha, head, clone, who, pol, message).head, pol)
         == Ok(EntriesAt(head))
    ensures forall ref :: AtLatest(clone, EntriesAt(head), ref) ==> RefVerdict(clone, ref, EntriesAt(head)).None?
  {
    CheckpointWrites(sha, head, clone, who, pol, message);
    var cp, texts := CheckpointFor(sha, who.origin, EntriesAt(head)), Gathered(sha, head, clone, who);
    HonestText(sha, run, pol, name, NoteWith(who, cp, texts));
    NoteOpens(who, cp, texts);
    CheckpointThenVerify(sha, head, clone, who, pol, message);
  }

  /** Log, checkpoint, verify under such a policy: all refs that were logged are verified. */
  lemma HonestLogCheckpointVerify(sha: Sha, head: Option<Commit>, clone: Clone, refs: seq<bytes>, who: Parties,
                                  pol: Policy, first: bytes, second: bytes, run: WitnessRun, name: bytes)
    requires Matches(who, pol) && SignsCheckpoints(pol) && IsAncestry(clone.anc)
    requires OnlyTextsFrom(sha, run, pol, name) && Needs(pol, name) && TrustsOnly(run, pol)
    requires forall ref :: ref in clone.refs ==> clone.refs[ref] in clone.objects
    requires LogOutcome(head, clone, refs, first).reply.Ok?
    requires CheckpointOutcome(sha, LogOutcome(head, clone, refs, first).head, clone, who, pol, second).reply.Ok?
    ensures var mid := LogOutcome(head, clone, refs, first).head;
            var after := CheckpointOutcome(sha, mid, clone, who, pol, second).head;
            && CheckpointedOutcome(sha, after, pol) == Ok(EntriesAt(mid))
            && forall ref :: ref in refs ==> RefVerdict(clone, ref, EntriesAt(mid)).None?
  {
    var mid := LogOutcome(head, clone, refs, first).head;
    HonestQuorumVerifies(sha, mid, clone, who, pol, second, run, name);
    LogCheckpointVerify(sha, head, clone, refs, who, pol, first, second);
    CheckpointThenVerify(sha, mid, clone, who, pol, second);
  }
}
