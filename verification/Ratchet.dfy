/** ratchet.go: the commands that log refs, checkpoint the log and verify refs. */
module Ratchet {
  import opened Wrappers
  import opened Hashing
  import opened Rfc6962
  import opened Entries
  import opened Storage
  import opened Notes
  import opened Checkpoints
  import opened GitUtil
  import opened GitLog
  import opened Chains
  import opened Policies
  import opened Collecting

  datatype RatchetError =
    | OpenFailed(log: LogError) | SaveFailed(log: LogError)
    | GitFailed(git: GitError) | EntryFailed(entry: EntryError)
    | UnrecognisedRefName | NoRecords | RuleBroken(chain: ChainError) | TagDiffers | AheadOfLog
    | ChainsBroken | EmptyLog | NotACheckpoint(checkpoint: CheckpointError)
    | WitnessRejected(refusal: WitnessError) | QuorumNotMet
    | NoCheckpoint | NotVerified | NotReproduced(log: LogError)

  // ---------- The chains of a log ----------

  /** The records of a ref keep the ratchet rule, as far as the clone can tell. */
  ghost predicate RefChainOk(clone: Clone, entries: seq<Entry>, ref: bytes) {
    && ParseRefKind(ref).Some? && Records(entries, ref).Ok?
    && ChainVerdict(clone, ParseRefKind(ref).value, Records(entries, ref).value).None?
  }

  ghost predicate LogChainsOk(clone: Clone, entries: seq<Entry>) {
    RefSet(entries).Ok? && forall ref :: ref in RefSet(entries).value ==> RefChainOk(clone, entries, ref)
  }

  /** Applies the ratchet rule to every ref the log names, in any order. */
  method CheckLogChains(clone: Clone, l: Log) returns (r: Option<RatchetError>)
    ensures r.None? <==> LogChainsOk(clone, l.entries)
  {
    var refs := l.Refs();
    if refs.Err? {
      return Some(EntryFailed(refs.error));
    }
    var rest := refs.value;
    while rest != {}
      invariant rest <= refs.value
      invariant forall ref :: ref in refs.value - rest ==> RefChainOk(clone, l.entries, ref)
      decreases |rest|
    {
      var ref :| ref in rest;
      var kind := ParseRefKind(ref);
      if kind.None? {
        return Some(UnrecognisedRefName);
      }
      var records := l.RefRecords(ref);
      if records.Err? {
        return Some(EntryFailed(records.error));
      }
      var broken := CheckRefChain(clone, kind.value, records.value);
      if broken.Some? {
        return Some(RuleBroken(broken.value));
      }
      rest := rest - {ref};
    }
    return None;
  }

  // ---------- log ----------

  /** The object a ref was logged at last. */
  function Latest(records: seq<RefRecord>): Option<bytes> {
    if records == [] then None else Some(records[|records| - 1].obj)
  }

  /** The entries with a record of each listed ref that is not at its latest logged state. */
  function WithRefs(clone: Clone, entries: seq<Entry>, refs: seq<bytes>): Result<seq<Entry>, RatchetError>
    decreases |refs|
  {
    if refs == [] then Ok(entries)
    else match (ResolveRef(clone, refs[0]), Records(entries, refs[0]))
      case (Err(e), _) => Err(GitFailed(e))
      case (Ok(_), Err(e)) => Err(EntryFailed(e))
      case (Ok(obj), Ok(records)) =>
        if Latest(records) == Some(obj) then WithRefs(clone, entries, refs[1..])
        else match NewRefRecord(refs[0], obj)
          case Err(e) => Err(EntryFailed(e))
          case Ok(entry) => WithRefs(clone, entries + [entry], refs[1..])
  }

  /** The size of a stored checkpoint, 0 if there is none. */
  function StoredSize(stored: bytes): Result<nat, CheckpointError> {
    if stored == [] then Ok(0)
    else
      var cp :- CheckpointOf(stored);
      Ok(cp.size)
  }

  /** What a command answers, and where the log ref is afterwards. */
  datatype Outcome = Outcome(reply: Result<nat, RatchetError>, head: Option<Commit>)

  /** What `LogRefs` does: on success the reply is the number of entries added. */
  ghost function LogOutcome(head: Option<Commit>, clone: Clone, refs: seq<bytes>, message: bytes): Outcome {
    match Opened(head)
    case Err(e) => Outcome(Err(OpenFailed(e)), head)
    case Ok(log) =>
      match WithRefs(clone, log.entries, refs)
      case Err(e) => Outcome(Err(e), head)
      case Ok(entries) =>
        WithRefsGrows(clone, log.entries, refs);
        if |entries| == |log.entries| then Outcome(Ok(0), head)
        else Written(clone, log.(entries := entries), |log.entries|, message)
  }

  /** The second half: the entries are checked, and saved with the checkpoint that was stored. */
  ghost function Written(clone: Clone, log: LogState, before: nat, message: bytes): Outcome
    requires before <= |log.entries|
  {
    if !LogChainsOk(clone, log.entries) then Outcome(Err(ChainsBroken), log.head)
    else if !Storable(log.entries) then Outcome(Err(SaveFailed(Unreadable(BadEntry(TooLarge)))), log.head)
    else
      var after := Some(SavedAs(log, log.checkpoint, message));
      match StoredSize(log.checkpoint)
      case Err(e) => Outcome(Err(NotACheckpoint(e)), after)
      case Ok(_) => Outcome(Ok(|log.entries| - before), after)
  }

  /** Checks the chains of the log before writing it. */
  method WriteLog(l: Log, repo: Repo, before: nat, message: bytes) returns (r: Result<nat, RatchetError>)
    requires before <= |l.entries| && l.head == repo.head
    modifies l, repo`head
    ensures Outcome(r, repo.head) == Written(repo.clone, old(l.View()), before, message)
  {
    var broken := CheckLogChains(repo.clone, l);
    if broken.Some? {
      return Err(ChainsBroken);
    }
    var failed := l.Save(repo, l.checkpoint, message);
    if failed.Some? {
      return Err(SaveFailed(failed.value));
    }
    var stored := StoredSize(l.checkpoint);
    if stored.Err? {
      return Err(NotACheckpoint(stored.error));
    }
    return Ok(|l.entries| - before);
  }

  /** Appends a record of a ref, unless it is at its latest logged state. */
  method LogRef(l: Log, clone: Clone, ref: bytes) returns (r: Option<RatchetError>)
    modifies l
    ensures r.None? <==> WithRefs(clone, old(l.entries), [ref]).Ok?
    ensures r.None? ==> l.View() == old(l.View()).(entries := WithRefs(clone, old(l.entries), [ref]).value)
    ensures r.Some? ==> WithRefs(clone, old(l.entries), [ref]) == Err(r.value) && l.View() == old(l.View())
  {
    var obj := ResolveRef(clone, ref);
    if obj.Err? {
      return Some(GitFailed(obj.error));
    }
    var records := l.RefRecords(ref);
    if records.Err? {
      return Some(EntryFailed(records.error));
    }
    assert |[ref][1..]| == 0;
    if |records.value| > 0 && records.value[|records.value| - 1].obj == obj.value {
      return None;
    }
    var entry := NewRefRecord(ref, obj.value);
    if entry.Err? {
      return Some(EntryFailed(entry.error));
    }
    l.Append(entry.value);
    return None;
  }

  /** Logging one ref and then the others. */
  lemma WithRefsStep(clone: Clone, entries: seq<Entry>, refs: seq<bytes>)
    requires refs != []
    ensures WithRefs(clone, entries, refs)
         == match WithRefs(clone, entries, [refs[0]])
            case Err(e) => Err(e)
            case Ok(next) => WithRefs(clone, next, refs[1..])
  {
    assert [refs[0]] == refs[..1] && refs[..1][1..] == [];
  }

  /** Appends a record of each listed ref that is not at its latest logged state. */
  method AppendRefs(l: Log, clone: Clone, refs: seq<bytes>) returns (r: Option<RatchetError>)
    modifies l
    ensures match WithRefs(clone, old(l.entries), refs)
            case Err(e) => r == Some(e)
            case Ok(entries) => r.None? && l.View() == old(l.View()).(entries := entries)
  {
    assert refs[0..] == refs;
    for i := 0 to |refs|
      invariant l.View() == old(l.View()).(entries := l.entries)
      invariant WithRefs(clone, old(l.entries), refs) == WithRefs(clone, l.entries, refs[i..])
    {
      WithRefsStep(clone, l.entries, refs[i..]);
      assert refs[i..][1..] == refs[i + 1..];
      var failed := LogRef(l, clone, refs[i]);
      if failed.Some? {
        return failed;
      }
    }
    return None;
  }

  /** Records each ref's current object in the log. */
  method LogRefs(sha: Sha, repo: Repo, refs: seq<bytes>, message: bytes) returns (r: Result<nat, RatchetError>)
    modifies repo`head
    ensures Outcome(r, repo.head) == LogOutcome(old(repo.head), repo.clone, refs, message)
  {
    var open := Log.Open(sha, repo);
    if open.Err? {
      return Err(OpenFailed(open.error));
    }
    var l := open.value;
    var before := |l.entries|;
    ghost var start := l.entries;
    var failed := AppendRefs(l, repo.clone, refs);
    if failed.Some? {
      return Err(failed.value);
    }
    WithRefsGrows(repo.clone, start, refs);
    if |l.entries| == before {
      return Ok(0);
    }
    r := WriteLog(l, repo, before, message);
  }

  /** Logging only appends. */
  lemma {:induction false} WithRefsGrows(clone: Clone, entries: seq<Entry>, refs: seq<bytes>)
    requires WithRefs(clone, entries, refs).Ok?
    ensures entries <= WithRefs(clone, entries, refs).value
    decreases |refs|
  {
    if refs != [] {
      var obj := ResolveRef(clone, refs[0]).value;
      if Latest(Records(entries, refs[0]).value) == Some(obj) {
        WithRefsGrows(clone, entries, refs[1..]);
      } else {
        WithRefsGrows(clone, entries + [NewRefRecord(refs[0], obj).value], refs[1..]);
      }
    }
  }

  // ---------- checkpoint ----------

  /** Opens the log for checkpointing; the number is the size of the stored checkpoint. */
  ghost function ToCheckpoint(head: Option<Commit>, clone: Clone): Result<(LogState, nat), RatchetError> {
    match Opened(head)
    case Err(e) => Err(OpenFailed(e))
    case Ok(log) =>
      if log.entries == [] then Err(EmptyLog)
      else if !LogChainsOk(clone, log.entries) then Err(ChainsBroken)
      else match StoredSize(log.checkpoint)
        case Err(e) => Err(NotACheckpoint(e))
        case Ok(size) => Ok((log, size))
  }

  method LogToCheckpoint(sha: Sha, repo: Repo) returns (r: Result<(Log, nat), RatchetError>)
    ensures match ToCheckpoint(repo.head, repo.clone)
            case Err(e) => r == Err(e)
            case Ok((log, size)) =>
              && r.Ok? && fresh(r.value.0) && r.value.0.sha == sha
              && r.value.0.View() == log && r.value.1 == size
  {
    var open := Log.Open(sha, repo);
    if open.Err? {
      return Err(OpenFailed(open.error));
    }
    var l := open.value;
    if |l.entries| == 0 {
      return Err(EmptyLog);
    }
    var broken := CheckLogChains(repo.clone, l);
    if broken.Some? {
      return Err(ChainsBroken);
    }
    var stored := StoredSize(l.checkpoint);
    if stored.Err? {
      return Err(NotACheckpoint(stored.error));
    }
    return Ok((l, stored.value));
  }

  /** Signs a checkpoint body as the log, given the signature line of the key. */
  function SignCheckpoint(body: bytes, sign: bytes -> Signature): Result<bytes, CheckpointError> {
    var cp :- ParseCheckpoint(body);
    Ok(Frame(body, sign(body)))
  }

  /** Whoever signs and cosigns: the log's key, and the witnesses' replies to entries, an old size and a signed note. */
  datatype Parties = Parties(origin: bytes, sign: bytes -> Signature, replies: (seq<Entry>, nat, bytes) -> seq<Reply>)

  /** The checkpoint of all of the entries. */
  ghost function CheckpointFor(sha: Sha, origin: bytes, entries: seq<Entry>): Checkpoint {
    Checkpoint(origin, |entries|, RootOf(sha, Leaves(sha, entries)))
  }

  /** What `CheckpointLog` does: on success the reply is the number of cosignatures. */
  ghost function CheckpointOutcome(sha: Sha, head: Option<Commit>, clone: Clone, who: Parties, pol: Policy,
                                   message: bytes): Outcome {
    match ToCheckpoint(head, clone)
    case Err(e) => Outcome(Err(e), head)
    case Ok((log, oldSize)) =>
      match SignCheckpoint(Marshal(CheckpointFor(sha, who.origin, log.entries)), who.sign)
      case Err(e) => Outcome(Err(NotACheckpoint(e)), head)
      case Ok(signed) =>
        match Collected(who.replies(log.entries, oldSize, signed))
        case Err(e) => Outcome(Err(WitnessRejected(e)), head)
        case Ok(lines) =>
          var assembled := Assemble(signed, lines);
          if !Satisfied(pol, assembled) then Outcome(Err(QuorumNotMet), head)
          else if !Storable(log.entries) then Outcome(Err(SaveFailed(Unreadable(BadEntry(TooLarge)))), head)
          else Outcome(Ok(|lines|), Some(SavedAs(log, assembled, message)))
  }

  /** Has the log's head cosigned, and stores the result once the quorum holds. */
  method CheckpointLog(sha: Sha, repo: Repo, who: Parties, pol: Policy, message: bytes)
    returns (r: Result<nat, RatchetError>)
    modifies repo`head
    ensures Outcome(r, repo.head) == CheckpointOutcome(sha, old(repo.head), repo.clone, who, pol, message)
  {
    var open := LogToCheckpoint(sha, repo);
    if open.Err? {
      return Err(open.error);
    }
    var (l, oldSize) := open.value;
    var root := l.Root();
    var signed := SignCheckpoint(Marshal(Checkpoint(who.origin, |l.entries|, root)), who.sign);
    if signed.Err? {
      return Err(NotACheckpoint(signed.error));
    }
    var lines := CollectCosignatures(who.replies(l.entries, oldSize, signed.value));
    if lines.Err? {
      return Err(WitnessRejected(lines.error));
    }
    var assembled := signed.value;
    assert lines.value[0..] == lines.value;
    for i := 0 to |lines.value|
      invariant Assemble(signed.value, lines.value) == Assemble(assembled, lines.value[i..])
    {
      assert lines.value[i..][1..] == lines.value[i + 1..];
      assembled := AppendSignature(assembled, lines.value[i]);
    }
    if !Satisfied(pol, assembled) {
      return Err(QuorumNotMet);
    }
    var failed := l.Save(repo, assembled, message);
    if failed.Some? {
      return Err(SaveFailed(failed.value));
    }
    return Ok(|lines.value|);
  }

  // ---------- verify ----------

  /** The entries that a stored checkpoint commits to, once it is verified. */
  ghost function VerifiedPart(sha: Sha, pol: Policy, stored: bytes, entries: seq<Entry>)
    : Result<seq<Entry>, RatchetError>
  {
    if stored == [] then Err(NoCheckpoint)
    else if !Verified(pol, stored) then Err(NotVerified)
    else match CheckpointOf(stored)
      case Err(e) => Err(NotACheckpoint(e))
      case Ok(cp) =>
        match CheckpointedEntries(sha, entries, cp)
        case Err(e) => Err(NotReproduced(e))
        case Ok(prefix) => Ok(prefix)
  }

  /** The entries that a verified checkpoint in the log commits to. */
  ghost function CheckpointedOutcome(sha: Sha, head: Option<Commit>, pol: Policy): Result<seq<Entry>, RatchetError> {
    match Opened(head)
    case Err(e) => Err(OpenFailed(e))
    case Ok(log) => VerifiedPart(sha, pol, log.checkpoint, log.entries)
  }

  /** Opens the log and returns the part of it that a quorum attested to. */
  method CheckpointedLog(sha: Sha, repo: Repo, pol: Policy) returns (r: Result<Log, RatchetError>)
    ensures match CheckpointedOutcome(sha, repo.head, pol)
            case Err(e) => r == Err(e)
            case Ok(entries) => r.Ok? && fresh(r.value) && r.value.sha == sha && r.value.entries == entries
  {
    var open := Log.Open(sha, repo);
    if open.Err? {
      return Err(OpenFailed(open.error));
    }
    var l := open.value;
    if l.checkpoint == [] {
      return Err(NoCheckpoint);
    }
    if !Verified(pol, l.checkpoint) {
      return Err(NotVerified);
    }
    var cp := CheckpointOf(l.checkpoint);
    if cp.Err? {
      return Err(NotACheckpoint(cp.error));
    }
    var trimmed := l.Checkpointed(cp.value);
    if trimmed.Err? {
      return Err(NotReproduced(trimmed.error));
    }
    return Ok(trimmed.value);
  }

  /** The verdict of `VerifySingleRef`; none when the ref is verified. */
  function RefVerdict(clone: Clone, ref: bytes, entries: seq<Entry>): Option<RatchetError> {
    match (ParseRefKind(ref), Records(entries, ref))
    case (None, _) => Some(UnrecognisedRefName)
    case (Some(_), Err(e)) => Some(EntryFailed(e))
    case (Some(kind), Ok(records)) => RecordsVerdict(clone, ref, kind, records)
  }

  /** The verdict over the records of a ref. */
  function RecordsVerdict(clone: Clone, ref: bytes, kind: RefKind, records: seq<RefRecord>): Option<RatchetError> {
    if records == [] then Some(NoRecords)
    else
      var latest := records[|records| - 1].obj;
      match (ChainVerdict(clone, kind, records), ResolveRef(clone, ref))
      case (Some(e), _) => Some(RuleBroken(e))
      case (None, Err(e)) => Some(GitFailed(e))
      case (None, Ok(local)) =>
        if kind.Tag? then
          if local != latest then Some(TagDiffers) else None
        else match IsAncestor(clone, local, latest)
          case Err(e) => Some(GitFailed(e))
          case Ok(ok) => if ok then None else Some(AheadOfLog)
  }

  /** Checks one ref against the verified log. */
  method VerifySingleRef(clone: Clone, ref: bytes, l: Log) returns (r: Option<RatchetError>)
    ensures r == RefVerdict(clone, ref, l.entries)
  {
    var kind := ParseRefKind(ref);
    if kind.None? {
      return Some(UnrecognisedRefName);
    }
    var records := l.RefRecords(ref);
    if records.Err? {
      return Some(EntryFailed(records.error));
    }
    if |records.value| == 0 {
      return Some(NoRecords);
    }
    var broken := CheckRefChain(clone, kind.value, records.value);
    if broken.Some? {
      return Some(RuleBroken(broken.value));
    }
    var latest := records.value[|records.value| - 1];
    var local := ResolveRef(clone, ref);
    if local.Err? {
      return Some(GitFailed(local.error));
    }
    if kind.value == Tag {
      if local.value != latest.obj {
        return Some(TagDiffers);
      }
      return None;
    }
    var ok := IsAncestor(clone, local.value, latest.obj);
    if ok.Err? {
      return Some(GitFailed(ok.error));
    }
    if !ok.value {
      return Some(AheadOfLog);
    }
    return None;
  }
}
