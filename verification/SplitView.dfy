/**
  Safety over whole runs of a witness, and what it means for clones: everything a
  witness cosigns lies in one history, so a rewrite that is once cosigned can
  neither be hidden nor taken back.
 */
module SplitView {
  import opened Wrappers
  import opened Hashing
  import opened Rfc6962
  import opened Verifier
  import opened Consistency
  import opened Entries
  import opened Storage
  import opened Reading
  import opened SignedNotes
  import opened Checkpoints
  import opened GitUtil
  import opened GitLog
  import opened Chains
  import opened Policies
  import opened Witness
  import opened Ratchet
  import opened Runs

  // ---------- Runs of a witness ----------

  /** Any request, and the point at which the witness crashes over it. */
  datatype Submission = Submission(req: Request, crash: Crash)

  /** A run: one witness, the content of its state file, and what is submitted. */
  datatype WitnessRun = WitnessRun(key: Key, file: Option<bytes>, submissions: seq<Submission>)

  function AnswerHere(sha: Sha, run: WitnessRun): Answer
    requires run.submissions != []
  {
    AnswerTo(sha, run.key, run.file, run.submissions[0].req, run.submissions[0].crash)
  }

  /** The rest of a run. */
  function Onward(sha: Sha, run: WitnessRun): WitnessRun
    requires run.submissions != []
  {
    run.(file := AnswerHere(sha, run).file, submissions := run.submissions[1..])
  }

  /** What the signatures of a note are about. */
  function BodyIn(note: bytes): Option<bytes> {
    if OpenNote(note).Some? then Some(OpenNote(note).value.0) else None
  }

  /** The checkpoint was cosigned in the run, and the answer left. */
  predicate CosignedIn(sha: Sha, run: WitnessRun, body: bytes)
    decreases |run.submissions|
  {
    run.submissions != [] &&
    ((AnswerHere(sha, run).reply.Some? && AnswerHere(sha, run).reply.value.Ok?
      && BodyIn(run.submissions[0].req.note) == Some(body))
     || CosignedIn(sha, Onward(sha, run), body))
  }

  /** The checkpoint the witness holds before it sees a request; the empty tree if it holds none. */
  function HeldBy(sha: Sha, file: Option<bytes>): Result<Checkpoint, CheckpointError> {
    Held(sha, [], if file.None? || file.value == [] then None else file)
  }

  /** `hashed` holds every string the witness hashes to check the proofs of the run. */
  ghost predicate ProofsHashed(sha: Sha, hashed: set<bytes>, run: WitnessRun)
    decreases |run.submissions|
  {
    run.submissions == [] ||
    (ProofHashed(sha, hashed, run.file, run.submissions[0].req) && ProofsHashed(sha, hashed, Onward(sha, run)))
  }

  ghost predicate ProofHashed(sha: Sha, hashed: set<bytes>, file: Option<bytes>, req: Request) {
    HeldBy(sha, file).Ok? && SignedIn(req.note).Ok? ==>
      VerifyHashed(sha, hashed, HeldBy(sha, file).value.size, SignedIn(req.note).value.size, req.path,
                   HeldBy(sha, file).value.root)
  }

  // ---------- One step ----------

  /** What a witness replaces its checkpoint by has been proved to extend it. */
  lemma AcceptedExtends(sha: Sha, key: Key, file: Option<bytes>, req: Request)
    requires Decision(sha, key, file, req).Ok?
    ensures SignedIn(req.note).Ok? && HeldBy(sha, file).Ok? && Decision(sha, key, file, req).value.Some?
    ensures var cp, held := SignedIn(req.note).value, HeldBy(sha, file).value;
            && VerifyConsistency(sha, held.size, cp.size, req.path, held.root, cp.root)
            && HeldBy(sha, Decision(sha, key, file, req).value) == Ok(cp)
  {
    SignatureKeepsCheckpoint(req.note, CosignatureOf(key, req.note));
  }

  /**
    A witness accepts a request if and only if a log it knows signed the
    checkpoint, its state file is for that log, the old size is the size it holds,
    and the proof shows that the new checkpoint extends the one it holds.
   */
  lemma AcceptsExactly(sha: Sha, key: Key, file: Option<bytes>, req: Request)
    ensures Decision(sha, key, file, req).Ok? <==> Acceptable(sha, key, file, req)
  {
  }

  ghost predicate Acceptable(sha: Sha, key: Key, file: Option<bytes>, req: Request) {
    && SignedIn(req.note).Ok? && FromKnownLog(key, req.note)
    && LatestIn(file, SignedIn(req.note).value.origin).Ok? && HeldBy(sha, file).Ok?
    && var cp, held := SignedIn(req.note).value, HeldBy(sha, file).value;
       && req.oldSize == held.size
       && VerifyConsistency(sha, held.size, cp.size, req.path, held.root, cp.root)
  }

  /** A request that is accepted, without a crash, is cosigned. */
  lemma AcceptedCosigned(sha: Sha, run: WitnessRun, body: bytes)
    requires run.submissions != [] && run.submissions[0].crash == NoCrash
    requires Acceptable(sha, run.key, run.file, run.submissions[0].req)
    requires BodyIn(run.submissions[0].req.note) == Some(body)
    ensures CosignedIn(sha, run, body)
  {
    AcceptsExactly(sha, run.key, run.file, run.submissions[0].req);
  }

  /** The state file after one submission: as before, or with a checkpoint proved to extend it. */
  lemma StepExtends(sha: Sha, hashed: set<bytes>, run: WitnessRun)
    requires run.submissions != [] && HeldBy(sha, run.file).Ok?
    requires ProofHashed(sha, hashed, run.file, run.submissions[0].req)
    ensures HeldBy(sha, Onward(sha, run).file).Ok?
    ensures Onward(sha, run).file == run.file
         || exists path ::
              Extended(sha, hashed, HeldBy(sha, run.file).value, HeldBy(sha, Onward(sha, run).file).value, path)
  {
    var req := run.submissions[0].req;
    if Onward(sha, run).file != run.file {
      AcceptedExtends(sha, run.key, run.file, req);
      assert Extended(sha, hashed, HeldBy(sha, run.file).value, SignedIn(req.note).value, req.path);
    }
  }

  /** One checkpoint was proved to extend another. */
  ghost predicate Extended(sha: Sha, hashed: set<bytes>, earlier: Checkpoint, later: Checkpoint, path: seq<Hash>) {
    && VerifyConsistency(sha, earlier.size, later.size, path, earlier.root, later.root)
    && VerifyHashed(sha, hashed, earlier.size, later.size, path, earlier.root)
  }

  // ---------- Back through the run ----------

  /** A checkpoint describes a prefix of a list of leaves, and the strings hashed for that prefix are known. */
  ghost predicate Covers(sha: Sha, hashed: set<bytes>, cp: Checkpoint, leaves: seq<Hash>) {
    && cp.size <= |leaves|
    && (cp.size > 0 ==> cp.root == RootOf(sha, leaves[..cp.size]) && RootHashed(sha, hashed, leaves[..cp.size]))
  }

  /** What the later of two checkpoints describes a prefix of, so does the earlier. */
  lemma CoversEarlier(sha: Sha, hashed: set<bytes>, earlier: Checkpoint, later: Checkpoint, path: seq<Hash>,
                      leaves: seq<Hash>)
    requires CollisionFree(sha, hashed)
    requires Extended(sha, hashed, earlier, later, path) && Covers(sha, hashed, later, leaves)
    ensures Covers(sha, hashed, earlier, leaves)
  {
    if earlier.size > 0 {
      var known := leaves[..later.size];
      ConsistencySound(sha, hashed, known, earlier.size, path, earlier.root);
      assert known[..earlier.size] == leaves[..earlier.size];
    }
  }

  /**
    Whatever a witness cosigns later, the checkpoint it holds now describes a
    prefix of it, also if that later one is reached through checkpoints whose trees
    nobody ever sees.
   */
  lemma {:induction false} HeldIsCovered(sha: Sha, hashed: set<bytes>, run: WitnessRun, body: bytes, leaves: seq<Hash>)
    requires CollisionFree(sha, hashed) && ProofsHashed(sha, hashed, run)
    requires HeldBy(sha, run.file).Ok? && CosignedIn(sha, run, body)
    requires ParseCheckpoint(body).Ok? && Covers(sha, hashed, ParseCheckpoint(body).value, leaves)
    ensures Covers(sha, hashed, HeldBy(sha, run.file).value, leaves)
    decreases |run.submissions|
  {
    var next := Onward(sha, run);
    StepExtends(sha, hashed, run);
    if AnswerHere(sha, run).reply.Some? && AnswerHere(sha, run).reply.value.Ok?
       && BodyIn(run.submissions[0].req.note) == Some(body) {
      AcceptedExtends(sha, run.key, run.file, run.submissions[0].req);
    } else {
      HeldIsCovered(sha, hashed, next, body, leaves);
    }
    if next.file != run.file {
      var path :| Extended(sha, hashed, HeldBy(sha, run.file).value, HeldBy(sha, next.file).value, path);
      CoversEarlier(sha, hashed, HeldBy(sha, run.file).value, HeldBy(sha, next.file).value, path, leaves);
    }
  }

  /** Of two cosigned checkpoints, one describes a prefix of whatever tree the other describes. */
  lemma {:induction false} CosignedCovered(sha: Sha, hashed: set<bytes>, run: WitnessRun, body1: bytes, body2: bytes,
                                           leaves1: seq<Hash>, leaves2: seq<Hash>)
    requires CollisionFree(sha, hashed) && ProofsHashed(sha, hashed, run) && HeldBy(sha, run.file).Ok?
    requires CosignedIn(sha, run, body1) && CosignedIn(sha, run, body2)
    requires ParseCheckpoint(body1).Ok? && Covers(sha, hashed, ParseCheckpoint(body1).value, leaves1)
    requires ParseCheckpoint(body2).Ok? && Covers(sha, hashed, ParseCheckpoint(body2).value, leaves2)
    ensures Covers(sha, hashed, ParseCheckpoint(body1).value, leaves2)
         || Covers(sha, hashed, ParseCheckpoint(body2).value, leaves1)
    decreases |run.submissions|
  {
    var next := Onward(sha, run);
    StepExtends(sha, hashed, run);
    if AnswerHere(sha, run).reply.Some? && AnswerHere(sha, run).reply.value.Ok? {
      AcceptedExtends(sha, run.key, run.file, run.submissions[0].req);
    }
    if CosignedIn(sha, next, body1) {
      if CosignedIn(sha, next, body2) {
        CosignedCovered(sha, hashed, next, body1, body2, leaves1, leaves2);
      } else {
        HeldIsCovered(sha, hashed, next, body1, leaves1);
      }
    } else if CosignedIn(sha, next, body2) {
      HeldIsCovered(sha, hashed, next, body2, leaves2);
    }
  }

  // ---------- Split-view safety ----------

  /** `hashed` holds the strings hashed to reproduce a checkpoint from entries. */
  ghost predicate Reproduced(sha: Sha, hashed: set<bytes>, entries: seq<Entry>, cp: Checkpoint) {
    && CheckpointedEntries(sha, entries, cp).Ok?
    && EntriesHashed(sha, hashed, entries[..cp.size])
  }

  lemma ReproducedCovers(sha: Sha, hashed: set<bytes>, entries: seq<Entry>, cp: Checkpoint)
    requires Reproduced(sha, hashed, entries, cp)
    ensures Covers(sha, hashed, cp, Leaves(sha, entries[..cp.size]))
  {
    var leaves := Leaves(sha, entries[..cp.size]);
    assert leaves[..cp.size] == leaves;
  }

  /** A checkpoint that one list reproduces, and that describes a prefix of another, binds both. */
  lemma CoveredBinds(sha: Sha, hashed: set<bytes>, a: seq<Entry>, cp: Checkpoint, b: seq<Entry>)
    requires CollisionFree(sha, hashed)
    requires Reproduced(sha, hashed, a, cp) && EntriesHashed(sha, hashed, b)
    requires Covers(sha, hashed, cp, Leaves(sha, b))
    ensures cp.size <= |b| && Raws(a[..cp.size]) == Raws(b[..cp.size])
  {
    var n := cp.size;
    LeavesPrefix(sha, b, n);
    if n > 0 {
      RootBindsEntries(sha, hashed, a[..n], b[..n]);
    } else {
      assert a[..0] == b[..0];
    }
  }

  /**
    Split-view safety.  One witness is sent any requests in any order, with any
    roots and proofs, and crashes wherever it likes.  Any two checkpoints that it
    cosigned and that two lists of entries reproduce have entries of which one list
    is a prefix of the other, unless the strings hashed by the witness and by those
    who reproduce the checkpoints collide.
   */
  lemma SplitViewSafety(sha: Sha, hashed: set<bytes>, run: WitnessRun, body1: bytes, body2: bytes,
                        a: seq<Entry>, b: seq<Entry>)
    requires CollisionFree(sha, hashed) && ProofsHashed(sha, hashed, run) && HeldBy(sha, run.file).Ok?
    requires CosignedIn(sha, run, body1) && CosignedIn(sha, run, body2)
    requires ParseCheckpoint(body1).Ok? && Reproduced(sha, hashed, a, ParseCheckpoint(body1).value)
    requires ParseCheckpoint(body2).Ok? && Reproduced(sha, hashed, b, ParseCheckpoint(body2).value)
    ensures var m, n := ParseCheckpoint(body1).value.size, ParseCheckpoint(body2).value.size;
            Raws(a[..m]) <= Raws(b[..n]) || Raws(b[..n]) <= Raws(a[..m])
  {
    var cp1, cp2 := ParseCheckpoint(body1).value, ParseCheckpoint(body2).value;
    var a', b' := a[..cp1.size], b[..cp2.size];
    ReproducedCovers(sha, hashed, a, cp1);
    ReproducedCovers(sha, hashed, b, cp2);
    CosignedCovered(sha, hashed, run, body1, body2, Leaves(sha, a'), Leaves(sha, b'));
    if Covers(sha, hashed, cp1, Leaves(sha, b')) {
      CoveredBinds(sha, hashed, a, cp1, b');
      RawsPrefix(b', cp1.size);
    } else {
      CoveredBinds(sha, hashed, b, cp2, a');
      RawsPrefix(a', cp2.size);
    }
  }

  lemma RawsPrefix(entries: seq<Entry>, n: nat)
    requires n <= |entries|
    ensures Raws(entries[..n]) <= Raws(entries)
  {
    var a, b := Raws(entries[..n]), Raws(entries);
    assert forall i :: 0 <= i < n ==> a[i] == entries[..n][i].raw == b[i];
  }

  // ---------- Clones ----------

  /** The named witness is among those that cosigned a note. */
  ghost predicate CosignedBy(pol: Policy, name: bytes, note: bytes) {
    OpenNote(note).Some? && var (body, lines) := OpenNote(note).value; name in Cosigners(pol, body, lines)
  }

  /** In the run a body with the same origin, size and root was cosigned. */
  ghost predicate CosignedAs(sha: Sha, run: WitnessRun, body: bytes) {
    exists b :: CosignedIn(sha, run, b) && ParseCheckpoint(b) == ParseCheckpoint(body)
  }

  /**
    Cosignatures of the named witness come from the run only: they cannot be
    forged.  A cosignature need not cover more of a body than the checkpoint it is.
   */
  ghost predicate OnlyFrom(sha: Sha, run: WitnessRun, pol: Policy, name: bytes) {
    forall body, line :: pol.cosigner(body, line) == Some(name) && ParseCheckpoint(body).Ok? ==>
                           CosignedAs(sha, run, body)
  }

  /** The same of a key whose cosignatures cover every byte of a body. */
  ghost predicate OnlyTextsFrom(sha: Sha, run: WitnessRun, pol: Policy, name: bytes) {
    forall body, line :: pol.cosigner(body, line) == Some(name) ==> CosignedIn(sha, run, body)
  }

  lemma TextsAreCheckpoints(sha: Sha, run: WitnessRun, pol: Policy, name: bytes)
    requires OnlyTextsFrom(sha, run, pol, name)
    ensures OnlyFrom(sha, run, pol, name)
  {
  }

  /** A clone holds a log that verifies, with a cosignature of the witness. */
  ghost predicate Attested(sha: Sha, run: WitnessRun, head: Option<Commit>, pol: Policy, name: bytes) {
    && CheckpointedOutcome(sha, head, pol).Ok?
    && OnlyFrom(sha, run, pol, name) && CosignedBy(pol, name, Opened(head).value.checkpoint)
  }

  /** No quorum is satisfied without the named witness. */
  ghost predicate Needs(pol: Policy, name: bytes) {
    forall names :: pol.quorum(names) ==> name in names
  }

  /** What a policy that no quorum satisfies without the witness accepts, the witness cosigned. */
  lemma RequiredWitnessAttests(sha: Sha, run: WitnessRun, head: Option<Commit>, pol: Policy, name: bytes)
    requires CheckpointedOutcome(sha, head, pol).Ok? && OnlyFrom(sha, run, pol, name) && Needs(pol, name)
    ensures Attested(sha, run, head, pol, name)
  {
    var (body, lines) := OpenNote(Opened(head).value.checkpoint).value;
    assert pol.quorum(Cosigners(pol, body, lines));
  }

  /** Of an attested log: the cosigned body, and the entries it commits to. */
  lemma AttestedBody(sha: Sha, run: WitnessRun, head: Option<Commit>, pol: Policy, name: bytes) returns (body: bytes)
    requires Attested(sha, run, head, pol, name)
    ensures CosignedIn(sha, run, body) && ParseCheckpoint(body).Ok?
    ensures Opened(head).Ok? && CheckpointedOutcome(sha, head, pol).Ok?
    ensures CheckpointedEntries(sha, Opened(head).value.entries, ParseCheckpoint(body).value)
         == Ok(CheckpointedOutcome(sha, head, pol).value)
    ensures WellFormed(CheckpointedOutcome(sha, head, pol).value)
  {
    OpenedWellFormed(head);
    var text, line := CosignedBody(pol, name, Opened(head).value.checkpoint);
    assert CosignedAs(sha, run, text);
    body :| CosignedIn(sha, run, body) && ParseCheckpoint(body) == ParseCheckpoint(text);
  }

  /** The text of a verified note is what was cosigned, and what is read. */
  lemma CosignedBody(pol: Policy, name: bytes, note: bytes) returns (body: bytes, line: bytes)
    requires Verified(pol, note) && CosignedBy(pol, name, note)
    ensures ParseCheckpoint(body).Ok? && CheckpointOf(note) == ParseCheckpoint(body)
    ensures pol.cosigner(body, line) == Some(name)
  {
    OpenedIsRead(note);
    var (text, lines) := OpenNote(note).value;
    body := text;
    line :| line in lines && pol.cosigner(text, line) == Some(name);
  }

  /**
    Clones whose quorums share an honest witness never disagree on a position they
    both hold: of the two logs that they accept, one is a prefix of the other.
   */
  lemma ClonesAgree(sha: Sha, hashed: set<bytes>, run: WitnessRun, name: bytes,
                    head1: Option<Commit>, pol1: Policy, head2: Option<Commit>, pol2: Policy)
    requires CollisionFree(sha, hashed) && ProofsHashed(sha, hashed, run) && HeldBy(sha, run.file).Ok?
    requires Attested(sha, run, head1, pol1, name) && Attested(sha, run, head2, pol2, name)
    requires EntriesHashed(sha, hashed, CheckpointedOutcome(sha, head1, pol1).value)
    requires EntriesHashed(sha, hashed, CheckpointedOutcome(sha, head2, pol2).value)
    ensures var a, b := CheckpointedOutcome(sha, head1, pol1).value, CheckpointedOutcome(sha, head2, pol2).value;
            a <= b || b <= a
  {
    var body1 := AttestedBody(sha, run, head1, pol1, name);
    var body2 := AttestedBody(sha, run, head2, pol2, name);
    SplitViewSafety(sha, hashed, run, body1, body2, Opened(head1).value.entries, Opened(head2).value.entries);
    OneIsPrefix(CheckpointedOutcome(sha, head1, pol1).value, CheckpointedOutcome(sha, head2, pol2).value);
  }

  lemma OneIsPrefix(a: seq<Entry>, b: seq<Entry>)
    requires WellFormed(a) && WellFormed(b)
    requires Raws(a) <= Raws(b) || Raws(b) <= Raws(a)
    ensures a <= b || b <= a
  {
    if Raws(a) <= Raws(b) {
      PrefixOfSameBytes(a, b);
    } else {
      PrefixOfSameBytes(b, a);
    }
  }

  lemma PrefixOfSameBytes(a: seq<Entry>, b: seq<Entry>)
    requires WellFormed(a) && WellFormed(b) && Raws(a) <= Raws(b)
    ensures a <= b
  {
    assert Raws(b[..|a|]) == Raws(b)[..|a|] == Raws(a);
    SameBytesSameEntries(a, b[..|a|]);
  }

  /** What was cosigned, and is reproduced by anyone, is the first part of every attested log at least as long. */
  lemma CosignedIsPrefix(sha: Sha, hashed: set<bytes>, run: WitnessRun, body: bytes, cp: Checkpoint, a: seq<Entry>,
                         head: Option<Commit>, pol: Policy, name: bytes)
    requires CollisionFree(sha, hashed) && ProofsHashed(sha, hashed, run) && HeldBy(sha, run.file).Ok?
    requires CosignedIn(sha, run, body) && ParseCheckpoint(body) == Ok(cp)
    requires Reproduced(sha, hashed, a, cp) && WellFormed(a)
    requires Attested(sha, run, head, pol, name)
    requires EntriesHashed(sha, hashed, CheckpointedOutcome(sha, head, pol).value)
    requires cp.size <= |CheckpointedOutcome(sha, head, pol).value|
    ensures WellFormed(CheckpointedOutcome(sha, head, pol).value)
    ensures cp.size <= |a| && a[..cp.size] <= CheckpointedOutcome(sha, head, pol).value
  {
    var later := AttestedBody(sha, run, head, pol, name);
    SplitViewSafety(sha, hashed, run, body, later, a, Opened(head).value.entries);
    OneIsPrefix(a[..cp.size], CheckpointedOutcome(sha, head, pol).value);
  }

  /**
    A rewrite is permanent.  Once the witness has cosigned a prefix in which the
    records of a ref break the ratchet rule, no clone ever verifies that ref against
    a log attested by the witness that is at least as long, whatever objects and
    refs the clone has, and whoever accepted that prefix or did not.
   */
  lemma RewriteIsPermanent(sha: Sha, hashed: set<bytes>, run: WitnessRun, body: bytes, cp: Checkpoint, a: seq<Entry>,
                           head: Option<Commit>, pol: Policy, name: bytes, clone: Clone, ref: bytes, kind: RefKind)
    requires CollisionFree(sha, hashed) && ProofsHashed(sha, hashed, run) && HeldBy(sha, run.file).Ok?
    requires CosignedIn(sha, run, body) && ParseCheckpoint(body) == Ok(cp)
    requires Reproduced(sha, hashed, a, cp) && WellFormed(a)
    requires Attested(sha, run, head, pol, name)
    requires EntriesHashed(sha, hashed, CheckpointedOutcome(sha, head, pol).value)
    requires cp.size <= |CheckpointedOutcome(sha, head, pol).value|
    requires IsAncestry(clone.anc) && ParseRefKind(ref) == Some(kind)
    requires Breaks(clone.anc, kind, RecordsOf(a[..cp.size], ref))
    ensures RefVerdict(clone, ref, CheckpointedOutcome(sha, head, pol).value).Some?
    ensures RefVerdict(clone, ref, CheckpointedOutcome(sha, head, pol).value).value.RuleBroken?
  {
    CosignedIsPrefix(sha, hashed, run, body, cp, a, head, pol, name);
    BreakIsInherited(clone, kind, ref, a[..cp.size], CheckpointedOutcome(sha, head, pol).value);
  }

  /** Records that break the rule in a log make every longer log's ref fail. */
  lemma BreakIsInherited(clone: Clone, kind: RefKind, ref: bytes, a: seq<Entry>, b: seq<Entry>)
    requires IsAncestry(clone.anc) && ParseRefKind(ref) == Some(kind)
    requires a <= b && WellFormed(b) && Breaks(clone.anc, kind, RecordsOf(a, ref))
    ensures RefVerdict(clone, ref, b).Some? && RefVerdict(clone, ref, b).value.RuleBroken?
  {
    WellFormedDecodable(b);
    assert b == a + b[|a|..];
    RecordsConcat(a, b[|a|..], ref);
    BreaksExtends(clone.anc, kind, RecordsOf(a, ref), RecordsOf(b, ref));
    BreaksRejected(clone, kind, RecordsOf(b, ref));
  }
}
