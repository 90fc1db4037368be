/**
  cosign/state.go and cosign/checkpoint.go: a witness that keeps the checkpoint it
  cosigned last in a file, and answers add-checkpoint requests as C2SP tlog-witness
  says.  It may crash at any point of an update.
 */
module Witness {
  import opened Wrappers
  import opened Hashing
  import opened Text
  import opened Verifier
  import opened Notes
  import opened SignedNotes
  import opened Checkpoints
  import opened Collecting

  // ---------- The state file ----------

  /** Where a crash interrupts an update, if it does. */
  datatype Crash = NoCrash | BeforeWrite | DuringWrite(torn: bytes) | BeforeRename | BeforeReply

  datatype Update = Died | Failed(error: WitnessError) | Completed

  /** The first line of a text, or all of it. */
  function FirstLine(s: bytes): bytes {
    match Cut(s, '\n')
    case None => s
    case Some((line, _)) => line
  }

  /** The stored checkpoint; a file for another origin is an error. */
  function LatestIn(file: Option<bytes>, origin: bytes): Result<Option<bytes>, WitnessError> {
    if file.None? || file.value == [] then Ok(None)
    else if FirstLine(file.value) != origin then Err(WitnessFailed)
    else Ok(file)
  }

  /** How an update changes the file. */
  type Change = Option<bytes> -> Result<Option<bytes>, WitnessError>

  /** What an update would write. */
  function Written(file: Option<bytes>, origin: bytes, f: Change): Result<Option<bytes>, WitnessError> {
    var current :- LatestIn(file, origin);
    f(current)
  }

  /** Whether an update got as far as replacing the file. */
  predicate Durable(crash: Crash) {
    crash.NoCrash? || crash.BeforeReply?
  }

  /** The file that holds the stored checkpoint, and the file next to it that updates write first. */
  class FileState {
    var file: Option<bytes>
    var tmp: Option<bytes>

    constructor (file: Option<bytes>)
      ensures this.file == file
    {
      this.file, tmp := file, None;
    }

    method Latest(origin: bytes) returns (r: Result<Option<bytes>, WitnessError>)
      ensures r == LatestIn(file, origin)
    {
      if file.None? {
        return Ok(None);
      }
      if |file.value| == 0 {
        return Ok(None);
      }
      var stored := FirstLine(file.value);
      if stored != origin {
        return Err(WitnessFailed);
      }
      return Ok(file);
    }

    /**
      Applies `f` to the stored checkpoint and writes the result back.  Whatever
      happens, the file holds what it held before or all of the new content.
     */
    method Update(origin: bytes, f: Change, crash: Crash) returns (r: Update)
      modifies this
      ensures match Written(old(file), origin, f)
              case Err(e) => r == Failed(e) && file == old(file)
              case Ok(None) => r == Completed && file == old(file)
              case Ok(Some(next)) =>
                && file == (if Durable(crash) then Some(next) else old(file))
                && r == (if crash.NoCrash? then Completed else Died)
    {
      var current := Latest(origin);
      if current.Err? {
        return Failed(current.error);
      }
      var next := f(current.value);
      if next.Err? {
        return Failed(next.error);
      }
      if next.value.None? {
        return Completed;
      }
      if crash.BeforeWrite? {
        return Died;
      }
      if crash.DuringWrite? {
        tmp := Some(crash.torn);
        return Died;
      }
      tmp := next.value;
      if crash.BeforeRename? {
        return Died;
      }
      file, tmp := tmp, None;
      if crash.BeforeReply? {
        return Died;
      }
      return Completed;
    }
  }

  // ---------- The decision ----------

  /** An add-checkpoint request. */
  datatype Request = Request(oldSize: nat, path: seq<Hash>, note: bytes)

  /** The logs a witness knows, and its key: the cosignature line of a checkpoint body. */
  datatype Key = Key(trusted: (bytes, bytes, bytes) -> bool, cosign: bytes -> Signature)

  /** A line is the signature of a log the witness knows. */
  predicate FromKnownLog(key: Key, note: bytes) {
    SignedIn(note).Ok? &&
    var (body, lines) := OpenNote(note).value;
    exists line :: line in lines && key.trusted(SignedIn(note).value.origin, body, line)
  }

  /** The checkpoint a witness holds; without one, the empty tree. */
  function Held(sha: Sha, origin: bytes, stored: Option<bytes>): Result<Checkpoint, CheckpointError> {
    if stored.None? then Ok(Checkpoint(origin, 0, EmptyRoot(sha))) else SignedIn(stored.value)
  }

  function CosignatureOf(key: Key, note: bytes): Signature
    requires SignedIn(note).Ok?
  {
    key.cosign(OpenNote(note).value.0)
  }

  /** The decision against the stored checkpoint: what to store, or why not. */
  function Decide(sha: Sha, key: Key, req: Request, stored: Option<bytes>): Result<Option<bytes>, WitnessError>
    requires SignedIn(req.note).Ok?
  {
    var cp := SignedIn(req.note).value;
    match Held(sha, cp.origin, stored)
    case Err(_) => Err(WitnessFailed)
    case Ok(held) =>
      if req.oldSize != held.size then Err(Stale(held.size))
      else if cp.size == held.size && cp.root != held.root then Err(RootMismatch)
      else if !VerifyConsistency(sha, held.size, cp.size, req.path, held.root, cp.root) then Err(InvalidProof)
      else Ok(Some(AppendSignature(req.note, CosignatureOf(key, req.note))))
  }

  /** What is refused before the state is looked at. */
  function Inspect(key: Key, req: Request): Option<WitnessError> {
    if SignedIn(req.note).Err? then Some(BadRequest)
    else if !FromKnownLog(key, req.note) then Some(UnknownLog)
    else if req.oldSize > SignedIn(req.note).value.size then Some(BadRequest)
    else None
  }

  /** What a request makes of a state file: the new content, or why it is refused. */
  function Decision(sha: Sha, key: Key, file: Option<bytes>, req: Request): Result<Option<bytes>, WitnessError> {
    match Inspect(key, req)
    case Some(e) => Err(e)
    case None =>
      Written(file, SignedIn(req.note).value.origin,
              stored requires SignedIn(req.note).Ok? => Decide(sha, key, req, stored))
  }

  /** What a witness answers, if it lives to answer, and the state file afterwards. */
  datatype Answer = Answer(reply: Option<Reply>, file: Option<bytes>)

  function AnswerTo(sha: Sha, key: Key, file: Option<bytes>, req: Request, crash: Crash): Answer {
    match Decision(sha, key, file, req)
    case Err(e) => Answer(Some(Err(e)), file)
    case Ok(next) =>
      Answer(if crash.NoCrash? then Some(Ok(CosignatureOf(key, req.note))) else None,
             if Durable(crash) then next else file)
  }

  /** Answers one request.  The answer leaves only after the update has completed. */
  method AnswerAddCheckpoint(sha: Sha, key: Key, state: FileState, req: Request, crash: Crash)
    returns (reply: Option<Reply>)
    modifies state
    ensures Answer(reply, state.file) == AnswerTo(sha, key, old(state.file), req, crash)
  {
    var refused := Inspect(key, req);
    if refused.Some? {
      return Some(Err(refused.value));
    }
    var origin := SignedIn(req.note).value.origin;
    var r := state.Update(origin, stored requires SignedIn(req.note).Ok? => Decide(sha, key, req, stored), crash);
    match r {
      case Died => return None;
      case Failed(e) => return Some(Err(e));
      case Completed => return Some(Ok(CosignatureOf(key, req.note)));
    }
  }
}
