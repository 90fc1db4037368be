# Verification of git-ratchet

git-ratchet keeps a transparency log inside the Git repository it describes. Each log entry says which object a branch
or a tag pointed at; a checkpoint over the log's Merkle tree is signed by the log and cosigned by witnesses; and a ref
is verified against the entries that such a checkpoint commits to. This project models that as one stack, from the
bits of tree indices up to clones that read the log, and proves what the program is for: a rewrite that was once
cosigned can neither be hidden nor taken back.

`dafny verify dfyconfig.toml` checks the project.

## The layers

| modules | source | what they are |
|---|---|---|
| `Binary`, `Hashing`, `Text`, `Wrappers` | | shifts and bit lengths, the hash function, byte strings, result types |
| `Rfc6962` | section 2.1 of RFC 6962 | the reference tree hash MTH and the recursive proof PROOF |
| `CompactRanges`, `ProofNodes`, `ProofRefinement`, `Tlog` | `internal/tlog/tlog.go` | the incremental root, the node list of a proof, and what they compute |
| `Verifier`, `Consistency` | section 2.1.4.2 of RFC 9162 | the verification a witness runs, its soundness and completeness |
| `Entries` | `internal/gitlog/entry.go` | the canonical entry encoding and its grammar |
| `Storage`, `Reading`, `GitLog` | `internal/gitlog/gitlog.go` | bundles, the tree they are stored in, and the `Log` object |
| `LogStore` | `internal/gitlog/gitlog.go` | the same under any interleaving of processes |
| `Encodings`, `Notes`, `SignedNotes`, `Checkpoints` | `internal/note/note.go`, `internal/tlog/checkpoint.go` | decimal and base64, note framing, what the signed-note library reads, checkpoint bodies |
| `GitUtil`, `Chains` | `internal/gitutil/`, `ratchet.go` | refs, ancestry, and the ratchet rule |
| `Policies`, `Collecting`, `Ratchet`, `Runs` | `ratchet.go` | the commands, and what runs of them keep |
| `Interleaving`, `SoloRuns`, `Repositories` | `ratchet.go`, `internal/gitlog/gitlog.go` | the ratchet rule when the git calls of commands overlap, in one repository and in many that exchange commits; a command on its own as such a run |
| `Witness`, `SplitView` | `cosign/state.go`, `cosign/checkpoint.go` | a witness with its state file and crashes, and safety over whole runs |
| `Cosigning`, `Following` | `ratchet.go` | the exchange with a witness and its one retry; a log and its witness over whole runs |
| `HonestQuorum` | `ratchet.go` | the policies under which what is checkpointed is verified |
| `Scenarios` | `ratchet.go` | whole runs in which all that the theorems ask for is there, and one whose checkpoint is never verified |

## How to read the statements

- **Hashing.** The model is about every function from byte strings to 32-byte strings. No such function is injective,
  so a theorem that has to exclude collisions speaks of a finite set `hashed` that holds the strings really hashed
  (`TreeHashed`, `VerifyHashed`, `EntriesHashed`, `ProofsHashed` say which), and requires that this set holds no two
  different strings with one hash (`CollisionFree`). Read the other way round: where the conclusion fails, two of those
  strings are a collision.
- **Commits.** Git names a commit by the hash of its content, parent included. Here a commit is its content, so the log
  ref can never come back to a head it has left, which is what the compare-and-swap relies on.
- **Signatures** are tokens: a policy knows whether a line is the log's signature of a text, and whose cosignature it
  is. That a witness's cosignatures cannot be forged is the hypothesis `OnlyFrom`, which asks no more than that the
  checkpoint in the text was cosigned: an ML-DSA-44 signature covers origin, range and root of a checkpoint, and not the
  rest of the text. Where every byte matters, the hypotheses are `OnlyTextsFrom` for a witness and `SignsCheckpoints` for
  the log's key; Ed25519 signatures meet them. Which text was signed is decided as the signed-note library decides it
  (`OpenNote`: all up to the last blank line), for policies and for witnesses; the program itself reads `ExtractBody`, all
  up to the first blank line with a signature behind it. `Checkpoints.SignedIsRead` is about the two.
- **Ancestry** is a fixed reflexive and transitive relation on commits; a clone answers only about objects it holds.
- **Methods and functions.** Loops and objects of the source are methods and classes, each proved against a function
  (`Opened`, `Records`, `LogOutcome`, `CheckpointOutcome`, `AnswerTo`, ...), and the theorems are about those functions.
- The Merkle library (compact range, node enumeration) and the witness's decision are not part of the repository; they
  are written after RFC 6962, RFC 9162 and C2SP tlog-witness, and proved equal to those documents' recursive forms.

Five results are of the kind "not always, and here is exactly when"; each has a lemma at an input where it fails:

- `NewRefRecord` accepts refs with a space, newline or carriage return, and writes an entry that `ParseEntry` rejects.
  `Entries.SpaceInRef` has a revision that git resolves, and `Entries.NewThenParse` the exact condition. The `log` command
  is saved by `checkLogChains`, which decodes every entry before it is written (`Runs.LogWrites`).
- `docs/transparency-log.md` has every entry with a blank at the start of a line, or with two spaces between fields,
  rejected. `ParseEntry` looks at the ends of lines only, so it accepts such entries of types it does not know
  (`Entries.LeadingBlankAccepted`); for ref-records it makes no difference (`Entries.DocumentedExactly`). The model follows
  the code.
- `ExtractBody` returns what was signed exactly when the body has no separator of its own (`Notes.FrameBody`,
  `SignedNotes.SeparatorInBody`). Where the body is a checkpoint, it has none.
- `checkRefChain` accepts a branch that names one object only even when the clone lacks the object
  (`Chains.VerdictIsGlobal`, `Chains.OneObjectMissing`).
- A checkpoint that `checkpointLog` stores is verified afterwards exactly if what the witnesses sent is signature lines
  (`Runs.CheckpointThenVerify`): the program appends each reply as it comes, and a blank line in one makes the library take
  everything before it for the signed text (`SignedNotes.BlankLineInReply`). `Scenarios.StoredAndNeverVerified` is a
  command that succeeds and stores a note that is not verified. A condition on the policy alone is enough: one that needs
  an honest witness whose cosignatures cover the text (`HonestQuorum.HonestQuorumVerifies`). In the scenario
  everything else is the same, but the cosignatures of the honest witness cover the checkpoint only.

## Model

| member | source | states |
|---|---|---|
| CompactRanges.PeaksExtend | internal/tlog/tlog.go:124-132 | a block smaller than every perfect subtree so far becomes the last subtree of the compact range |
| CompactRanges.FoldPeaksIsMth | internal/tlog/tlog.go:133-137 | folding the perfect subtrees from the smallest up gives MTH of section 2.1 of RFC 6962 for every range of leaves |
| CompactRanges.CompactRange.Append | internal/tlog/tlog.go:125-132 | one append keeps the stack equal to the perfect subtrees of the leaves so far, with the new leaf |
| CompactRanges.CompactRange.MergeLeaf | internal/tlog/tlog.go:129-131 | merging on every low one bit of the size gives the subtrees of one leaf more |
| CompactRanges.CompactRange.GetRootHash | internal/tlog/tlog.go:133-137 | the right-to-left fold is the recursive root of the appended leaves |
| Tlog.Root | internal/tlog/tlog.go:119-138 | the incremental root refines the recursive one, for every list and the empty one |
| Rfc6962.RootBindsLeaves | internal/tlog/tlog.go:119-138 | for lists of one size, equal roots force equal leaves, unless the strings hashed for them collide |
| Rfc6962.MthBindsLeaves | internal/tlog/tlog.go:119-138 | the same for every range of leaves |
| Rfc6962.SubProofLength | internal/tlog/tlog.go:173-191 | a proof has at most ceil(log2 n) + 1 hashes |
| Rfc6962.SubProofKnown | internal/tlog/tlog.go:186-190 | a receiver that knows the old root needs one hash less exactly when the old size is a power of two |
| ProofNodes.ForkInTree | internal/tlog/tlog.go:186-190 | the xor of the old node's and the border's index finds the fork of their paths, and the fork ends inside the tree |
| ProofRefinement.RangeIDsArePeaks | internal/tlog/tlog.go:157-171 | the nodes listed beside the fork are inside the tree and hash to the perfect subtrees of the leaves there |
| ProofRefinement.PerfectPath | internal/tlog/tlog.go:157-171 | in a perfect subtree, the old node and the siblings on its path are the recursive proof |
| ProofRefinement.AssembledIsProof | internal/tlog/tlog.go:155-171 | path, ephemeral node and left subtrees are the recursive proof of any aligned range that reaches to the end of the tree |
| ProofRefinement.InclusionIsProof | internal/tlog/tlog.go:155-171 | the node list with its ephemeral node folded is SUBPROOF for the whole tree |
| ProofRefinement.NodesAreProof | internal/tlog/tlog.go:142-171 | every node of the list satisfies (index+1)<<level <= n, and the folded hashes are PROOF(m, D[n]) of section 2.1.2 of RFC 6962 |
| Tlog.HashNode | internal/tlog/tlog.go:147-153 | the recomputed hash is that of the node's leaf range, and an error exactly for a node outside the tree |
| Tlog.Fetch | internal/tlog/tlog.go:157-171 | fails exactly when some node is outside the tree, and otherwise returns the hashes with the ephemeral node folded |
| Tlog.ConsistencyProof | internal/tlog/tlog.go:178-191 | the proof is the recursive PROOF for every old size, nothing from 0, and an error beyond the tree |
| Tlog.ProofResultAccepted | internal/tlog/tlog.go:173-191 | every proof is accepted against the roots of prefix and list, is empty exactly from 0 and from n, and is logarithmic in size |
| Consistency.RebuildProof | internal/tlog/tlog.go:173-191 | the recursive proof of any part of a tree rebuilds its old and its new root |
| Consistency.RebuildSound | internal/tlog/tlog.go:173-191 | whatever rebuilds the new root of a part of a tree is the recursive proof and rebuilds its old root |
| Consistency.ConsistencyComplete | internal/tlog/tlog.go:173-191 | the verifier accepts the proof of every prefix of every list |
| Consistency.ConsistencySound | internal/tlog/tlog.go:173-191 | any accepted proof to the root of a list comes from the root of its first m leaves, whose hashed strings are then known, so accepted steps compose |
| Consistency.ConsistencyExact | internal/tlog/tlog.go:173-191 | the verifier accepts exactly one old root and one proof |
| Entries.DecodedIsEncoding | internal/gitlog/entry.go:92-112 | an entry that decodes is the encoding of what it decodes to |
| Entries.ParsedIsCanonical | internal/gitlog/entry.go:143-163 | every byte string accepted as a ref-record is the one NewRefRecord writes for its statement |
| Entries.OneEntryPerStatement | internal/gitlog/entry.go:114-118 | two accepted byte strings that state the same are the same |
| Entries.NewThenParse | internal/gitlog/entry.go:80-89 | NewRefRecord then ParseEntry is the identity exactly for refs free of space, newline and carriage return, and an error for all others |
| Entries.SpaceInRef | internal/gitlog/entry.go:80-89 | a concrete ref that NewRefRecord accepts and ParseEntry rejects |
| Entries.LinesAreClean | internal/gitlog/entry.go:190-198 | the checks line by line are one condition on the text: no carriage return, and no blank before a line's end |
| Entries.AcceptsGrammar | internal/gitlog/entry.go:143-200 | ParseEntry accepts exactly the byte strings of a grammar stated without it, and keeps the bytes of each, also of an unknown type |
| Entries.DocumentedExactly | docs/transparency-log.md:96-113 | an accepted entry meets the documented encoding if and only if it is a ref-record, or no line starts with a blank and no two spaces follow each other |
| Entries.LeadingBlankAccepted | internal/gitlog/entry.go:190-198 | an entry that ParseEntry accepts and the documented encoding excludes |
| Storage.DecodeEncode | internal/gitlog/gitlog.go:157-167 | decoding a bundle undoes encoding it |
| Storage.EncodeDecode | internal/gitlog/gitlog.go:137-143 | encoding undoes decoding, so one content has one bundle and one bundle one content |
| Storage.MarshalBundle | internal/gitlog/gitlog.go:157-167 | the loop writes the framing of its entries, and fails exactly when one is longer than 65535 bytes |
| Storage.BuildTree | internal/gitlog/gitlog.go:277-299 | the loop over steps of 256 writes the bundles of the whole list, each under its path, and fails exactly when an entry is too long |
| Reading.IndexPaths | internal/gitlog/gitlog.go:105-125 | for any order of the listing, finds the one path of every index, or fails exactly when two paths share one |
| Reading.LoadBundle | internal/gitlog/gitlog.go:140-150 | decodes and parses a bundle up to the first bad entry |
| Reading.ReadEntries | internal/gitlog/gitlog.go:97-153 | the entries read do not depend on the order in which git lists the tree |
| Reading.TreeFromIndices | internal/gitlog/gitlog.go:281-299 | a saved list has exactly the bundle indices from 0 to k-1, one bundle each, k being the list's length over 256 rounded up |
| Reading.StorageRoundTrip | internal/gitlog/gitlog.go:97-153 | every list of well-formed entries is read back as it was saved |
| Reading.ResaveKeepsEntries | internal/gitlog/gitlog.go:277-280 | saving again any tree that can be read keeps its entries, however it was split |
| Reading.SharedPath | internal/gitlog/gitlog.go:292-298 | a path that the trees of a list and of a longer one share has one content: a partial bundle never occupies the path of its full form |
| GitLog.Log.Open | internal/gitlog/gitlog.go:71-94 | opens an absent ref as an empty log, and otherwise reads entries, stored checkpoint and head |
| GitLog.Log.Root | internal/gitlog/gitlog.go:187-189 | the root over all entries is that of their leaf hashes |
| GitLog.Log.ConsistencyProofFrom | internal/gitlog/gitlog.go:258-260 | the proof over the entries' leaf hashes is the recursive one |
| GitLog.Log.Append | internal/gitlog/gitlog.go:192-194 | adds one entry and changes nothing else |
| GitLog.Log.Checkpointed | internal/gitlog/gitlog.go:205-218 | returns the first cp.Size entries if their recursive root is the one signed, leaves this log as it is, and else says which check failed |
| GitLog.Log.Refs | internal/gitlog/gitlog.go:221-234 | the refs named by the decoded ref-records, or the first decoding error |
| GitLog.Log.RefRecords | internal/gitlog/gitlog.go:239-254 | the records of one ref in log order, or the first decoding error |
| GitLog.Log.Save | internal/gitlog/gitlog.go:268-319 | succeeds exactly when the ref still is at the head this log was opened at; then the ref holds the whole list on a commit with that parent, and else nothing changes |
| GitLog.SaveThenOpen | internal/gitlog/gitlog.go:71-94 | opening what was saved gives back the entries and the checkpoint |
| GitLog.RecordsConcat | internal/gitlog/gitlog.go:239-254 | the records of a ref in a list are those of its parts, in order |
| GitLog.RootBindsEntries | internal/gitlog/gitlog.go:205-218 | two lists of one length with one root store the same bytes, unless hashed strings collide |
| LogStore.MovesOn | internal/gitlog/gitlog.go:346-350 | a ref that moves to a later commit has left every earlier head for good |
| LogStore.RunMovesForward | internal/gitlog/gitlog.go:311-317 | in every run of any number of processes the ref only moves to later commits |
| LogStore.NoLostUpdate | internal/gitlog/gitlog.go:265-319 | however the separate git reads of Open are interleaved with other writers, a save that succeeds installs a list that extends exactly the one the ref held just before |
| LogStore.StoredCheckpointFits | ratchet.go:86-97 | in every run of the commands the stored checkpoint describes a prefix of the entries, the entries only grow, and every reader's checkpoint fits the entries it read |
| LogStore.StraddlingReader | internal/gitlog/gitlog.go:82-93 | a reader whose reads straddle the saves of others still holds a checkpoint of at most the size of its log that Checkpointed accepts |
| Encodings.ParseUint64RoundTrip | internal/tlog/checkpoint.go:37-46 | a decimal size reads back if and only if it fits 64 bits |
| Encodings.Base64RoundTrip | internal/tlog/checkpoint.go:37-46 | a base64 root reads back, for every byte string |
| Notes.ParseSignedNote | internal/note/note.go:297-309 | returns the body before the first separator and the lines behind it that are signatures, in order |
| Notes.FrameBody | internal/note/note.go:288-294 | the framed body is recovered if and only if it has no separator of its own |
| Notes.AppendKeepsBody | internal/note/note.go:279-284 | appending a signature keeps the body and adds its lines behind the others |
| Notes.FrameRoundTrip | internal/note/note.go:202-229 | signing and then appending any number of signature texts lets the parser recover exactly the body and all lines in order |
| SignedNotes.OpenFramed | internal/note/note.go:223-228 | the library reads a text, a blank line and signature lines as that text and those lines, whatever the text holds |
| SignedNotes.AssembleOpens | internal/note/note.go:279-284 | appending keeps what the library reads as signed if and only if nothing but signature lines is appended |
| SignedNotes.TextHasSeparator | internal/note/note.go:288-294 | whatever the library reads as signed in a note with texts appended is the body itself, or has a separator in it |
| SignedNotes.SeparatorInBody | internal/note/note.go:288-294 | a body of which ExtractBody returns less than was signed |
| SignedNotes.BlankLineInReply | internal/note/note.go:279-284 | an appended text that makes the library take all before it for the signed text |
| Checkpoints.SignedIsRead | ratchet.go:196-207 | whenever the text before the last blank line, which is what was signed, is a checkpoint, the program reads that same checkpoint |
| Checkpoints.CheckpointRoundTrip | internal/tlog/checkpoint.go:37-51 | parsing a marshalled checkpoint gives its origin, size and root, also with extension lines behind |
| Checkpoints.MarshalHasNoSeparator | internal/tlog/checkpoint.go:49-51 | a checkpoint body never contains a separator, so framing recovers it |
| Checkpoints.SignedCheckpoint | internal/note/note.go:297-309 | the signed note of a checkpoint, with any signatures appended, carries that checkpoint and those lines |
| Chains.DropRepeats | ratchet.go:307-316 | the loop collapses every run of one object to its first record |
| Chains.CheckRefChain | ratchet.go:321-347 | the loop finds the first place where a branch does not move forward, or that a tag moved |
| Chains.CollapsedForward | ratchet.go:302-316 | collapsing repeats changes nothing about which objects precede which |
| Chains.VerdictIsGlobal | ratchet.go:321-347 | the adjacent walk is the global rule: a tag passes if and only if all records name one object; a branch if and only if they do, or all objects are present and every earlier one is an ancestor of every later one |
| Chains.OneObjectMissing | ratchet.go:321-347 | a branch recorded at one object that the clone lacks is accepted, and with a second object it is not |
| Chains.RejectionIsPermanent | ratchet.go:349-356 | a rejected list stays rejected for the same reason under every extension |
| Policies.OrderOfCosignatures | ratchet.go:121-129 | whether a quorum is satisfied does not depend on order or repetition of the cosignature lines |
| Collecting.CollectCosignatures | ratchet.go:163-179 | the loop stops at the first refusal, skips other errors, and returns the lines in order of arrival |
| Collecting.CollectedIff | ratchet.go:164-177 | collecting fails if and only if some witness reported an invalid proof or a root mismatch, and otherwise has every line as often as it was sent |
| Collecting.OrderIrrelevant | ratchet.go:148-179 | any two arrival orders of the same replies both fail or give the same multiset of lines |
| Collecting.NobodyBlocks | ratchet.go:149-165 | in every run no sender ever blocks, also after an early return, and the collector waits only while something is to come |
| Collecting.EveryInterleaving | ratchet.go:148-179 | the exact failure condition and the collected lines, for every interleaving of senders and collector |
| Ratchet.CheckLogChains | ratchet.go:360-379 | accepts exactly when every ref the log names is a branch or tag whose records keep the rule, in any order of the refs |
| Ratchet.AppendRefs | ratchet.go:51-75 | one record is appended for each listed ref that is not at its latest logged state; the checkpoint and the head stay |
| Ratchet.LogRefs | ratchet.go:44-99 | reply and log ref after the command, in every case of success and failure |
| Ratchet.LogToCheckpoint | ratchet.go:385-406 | the log and the stored size to checkpoint from, or why not |
| Ratchet.CheckpointLog | ratchet.go:104-138 | reply and log ref after the command, in every case of success and failure |
| Ratchet.CheckpointedLog | ratchet.go:185-211 | the entries that a verified stored checkpoint commits to, or why there are none |
| Ratchet.VerifySingleRef | ratchet.go:222-261 | the verdict on a ref over the verified entries |
| Runs.LoggedRefs | ratchet.go:51-75 | after logging, every listed ref is at its latest logged state, and no ref is recorded twice in a row at one object |
| Runs.LogWrites | ratchet.go:82-90 | what a log command writes extends the log, is well formed, keeps every chain valid, and carries the stored checkpoint unchanged |
| Runs.LogRecordsRefs | ratchet.go:44-99 | after a log command that succeeds every listed ref is at its latest logged state |
| Runs.RepeatWritesNothing | ratchet.go:61-80 | repeating a successful log command while the refs stay writes nothing |
| Runs.CheckpointWrites | ratchet.go:121-133 | a checkpoint command stores the entries as they were and a note about all of them, and only once the quorum holds |
| Runs.CommandIsLawfulSave | ratchet.go:86-138 | a command that moves the ref is one save by the rules of the concurrent store |
| Runs.KeptAccepted | ratchet.go:360-379 | chains that keep the rule are accepted by every clone that has the logged objects |
| Runs.RunsKeepSound | ratchet.go:44-138 | whatever commands run one after the other in whatever clones, the entries only grow, the stored checkpoint fits, every ref keeps the rule, and nothing is recorded twice in a row |
| Interleaving.WithRefsInSteps | ratchet.go:51-75 | logging refs one by one, each resolved when it is reached, is what the command does when nothing moves meanwhile |
| Interleaving.InterleavingsKeepRule | ratchet.go:349-379 | the same for every interleaving of the git calls of any number of log and checkpoint commands and of pushes |
| Interleaving.InterleavedWriters | ratchet.go:349-379 | from an empty log, in every such run a clone that has the logged objects accepts every chain |
| SoloRuns.UninterruptedOpen | internal/gitlog/gitlog.go:71-94 | a process whose git calls nobody interrupts ends up with the log that opening the ref gives, and fails exactly where that fails |
| SoloRuns.CommandAsRun | ratchet.go:44-138 | what a command does to the ref is done by a run of the concurrent store that meets its rules: open, append, save |
| Repositories.RepositoriesKeepRule | ratchet.go:349-379 | in any number of repositories whose commands overlap and which fetch and push each other's logs, old and new, every log grows only, fits its checkpoint and keeps the rule for every ref; nothing is asked of the commits that arrive |
| Repositories.RepositoriesFromNothing | ratchet.go:349-379 | the same from no log anywhere: a clone that has the logged objects accepts every chain of every log |
| Runs.WriterInvariant | ratchet.go:349-379 | the same from an empty log, with every chain accepted by a clone that has the objects |
| Runs.VerifiedExactly | ratchet.go:222-261 | a ref is verified if and only if the log names it, its records keep the global rule, and the clone's ref is the logged object (tag) or not ahead of the latest one (branch) |
| Runs.NoteVerified | ratchet.go:121-129 | a note that satisfies the quorum is verified if and only if nothing but signature lines was appended |
| Runs.CheckpointThenVerify | ratchet.go:104-138 | after a successful checkpoint under a policy that matches the key, the whole log and every ref at its latest logged object are verified, if and only if the witnesses sent signature lines |
| Runs.LogCheckpointVerify | ratchet.go:44-138 | log, checkpoint and verify together: all refs that were logged are verified |
| HonestQuorum.CosignedWasSigned | cosign/checkpoint.go:40-84 | whatever a witness cosigned in a run carried the log's signature of that very text |
| HonestQuorum.HonestQuorumVerifies | ratchet.go:104-138 | under a policy that needs an honest witness whose cosignatures cover the text, every checkpoint that succeeds is verified with the whole log, whatever the witnesses sent |
| HonestQuorum.HonestLogCheckpointVerify | ratchet.go:44-138 | log, checkpoint and verify under such a policy: all refs that were logged are verified |
| Scenarios.HonestQuorumHappens | ratchet.go:104-138 | every log whose chains are in order is checkpointed, with success, under a policy of that kind |
| Scenarios.StoredAndNeverVerified | ratchet.go:121-138 | for every log that can be checkpointed: a command that succeeds with one reply that holds a blank line, and stores a note that is not verified |
| Runs.UnwitnessedSuffix | internal/gitlog/gitlog.go:196-204 | entries beyond the checkpoint change nothing about what is verified |
| Runs.AppendedEntriesIgnored | ratchet.go:182-211 | appending any entries that parse, and saving, leaves the verdict on every ref unchanged |
| Runs.OtherEntriesIgnored | ratchet.go:219-234 | the verdict on a ref is invariant under inserting unknown-type or other-ref entries anywhere |
| Witness.FileState.Latest | cosign/state.go:42-58 | nothing for a missing or empty file, the content for this origin, and an error for another one |
| Witness.FileState.Update | cosign/state.go:63-85 | wherever it crashes, the file holds what it held before or all of the new content, and success is reported only for the latter |
| Witness.AnswerAddCheckpoint | cosign/checkpoint.go:40-84 | the answer leaves only after the update has completed, and the state changes only for an accepted request |
| SplitView.StepExtends | cosign/state.go:63-85 | after any submission and any crash the state is as before or proved to extend what it was |
| SplitView.HeldIsCovered | cosign/state.go:60-85 | what a witness holds now describes a prefix of whatever it cosigns later, also through checkpoints whose trees nobody sees |
| SplitView.SplitViewSafety | ratchet.go:185-211 | any two checkpoints one witness cosigned in any run, that two lists reproduce, have entries of which one list is a prefix of the other |
| SplitView.RequiredWitnessAttests | ratchet.go:196-200 | what a policy accepts that has no quorum without the witness, the witness cosigned |
| SplitView.ClonesAgree | ratchet.go:182-211 | clones whose quorums share an honest witness never disagree on a position they both hold |
| SplitView.RewriteIsPermanent | ratchet.go:349-356 | once a prefix with records that break the rule is cosigned, whether or not any clone accepts it, no clone ever verifies that ref against an attested log at least as long |
| Cosigning.CosignWithWitness | ratchet.go:269-291 | reply and witness state after at most two submissions, for any crash of the witness in either |
| Cosigning.StaleRecovery | ratchet.go:263-291 | a witness that holds any prefix of the log, the empty one included, gives a cosignature after at most two submissions, whatever size the client expects |
| Cosigning.LostReplyRecovered | ratchet.go:280-290 | a cosignature whose reply was lost is obtained by asking again |
| Cosigning.ExchangeExact | ratchet.go:269-291 | the exchange gives a cosignature if and only if the witness holds a prefix; a witness ahead of the log is skipped, and one with another history refuses with an error that is never skipped |
| Following.WitnessFollows | ratchet.go:263-291 | over any run of commands in any clones, with crashes of the witness anywhere, a witness of one log always holds a prefix of it, and each exchange without a crash ends in a cosignature |
| Following.WitnessFollowsFromNothing | ratchet.go:263-291 | the same from an empty log and a witness without a state file |
| Following.OtherHistoryRejects | ratchet.go:164-177 | if one of the replies is that of an honest witness with another history, the checkpoint command is rejected and the log ref stays, whatever the others reply |
| Scenarios.FirstCheckpoint | ratchet.go:44-138 | from nothing: any ref that can be logged is logged, checkpointed with a witness that has seen nothing, and verified |
| Scenarios.MovedTagHappens | ratchet.go:349-356 | from nothing: a tag recorded at two objects, cosigned once, in an attested log that no clone verifies it against |
| Cosigning.CheckpointSucceeds | ratchet.go:104-138 | checkpointing succeeds when the stored checkpoint fits, the chains are in order and the willing witnesses make a quorum |

## Left out

- Git processes, environment, scratch index and blob storage (`internal/gitutil/repo.go`, `writeTree`): replaced by a log
  ref, a clone with refs and objects, and an ancestor relation that can answer that an object is missing.
- Signature schemes, key files and key management (`internal/note/kms.go`, `internal/note/tlog.go`, the rest of
  `internal/note/note.go`): signatures are tokens, and signing never fails. Of the signed-note library the split of a
  note is modelled, and not its limits on the character set and the number of signatures.
- Policy files and the evaluation of groups: a quorum is any predicate on the set of cosigners, monotone where a theorem
  needs that.
- HTTP and GitHub issue transport, timeouts and rate limits: a submission is one request with one reply or none.
- Unforced moves of the log ref other than saves are pushes to a later commit; a forced push or a deleted log ref is not
  modelled, because commits that are dropped that way were never protected by the compare-and-swap.
- Concurrent runs of one witness state file: the program leaves their serialisation to its caller, so submissions are
  sequential, each with a crash anywhere. A crash is one of the process: the program syncs neither the file nor its
  directory, so what a loss of power does to a rename is not modelled.
- Machine integers: sizes are natural numbers, and 64 bits matter only where a size is parsed; bundle widths and entry
  lengths are kept within their bytes by the checks of the code.
- Paths of bundles are an index and a width; their spelling as directories is the layout library's.
- The number of unwitnessed entries that `log` prints is not modelled; that it cannot underflow is
  `LogStore.StraddlingReader`.
- Checkpoints of single refs (`cosign/cosign.go`): they are plain signed notes without a tree, so neither proofs nor the
  ratchet of a witness apply to them. Flags, messages and key generation decide nothing about the log.
- Interleaving.InterleavingsKeepRule: takes a push as one of a sound commit that extends the entries, and so does
  `InterleavedWriters`; that the commits of repositories which run the commands are such is
  `Repositories.RepositoriesKeepRule`.
- Runs.CheckpointThenVerify: speaks of the replies received, because that is the exact condition, and `LogCheckpointVerify`
  takes it over; the forms with a condition on the policy are in `HonestQuorum`.
- Reading.IndexPaths: takes the listed paths as parsed, so the error for a path that is no bundle path is not there.
- Reading.ReadEntries: reads every listed blob; a git call that fails, and an object of another kind in the listing, are
  errors of the program that lead to no log.
- GitLog.Log.Open: reads the ref once; reads that straddle the saves of others are in `LogStore`, where each git call is
  a step of its own.
- GitLog.Log.Save: fails on entries that are too long and on a ref that has moved; git failing to write an object leaves
  the ref where it was, as those failures do.
- Ratchet.CheckpointLog: takes the witnesses' replies as a parameter, so that they can be anything; what honest witnesses
  reply is computed in `Cosigning`, and `Cosigning.CheckpointSucceeds` joins the two.
- Witness.FileState.Latest: a file that exists and cannot be read is an error before anything is decided, and not modelled.
- Witness.FileState.Update: errors of the directory, write and rename calls end the update with the old file, like a crash
  before the rename, and are not told apart from it.
- Witness.AnswerAddCheckpoint: starts from a parsed request, with a state file at hand.
- Cosigning.CosignWithWitness: returns the reply as it was sent; trimming it, and errors of the transport, are not there.
