/**
  What the program asks of a policy: whether a checkpoint is signed by the log,
  and whether enough witnesses cosigned it.  Signatures are tokens: a policy knows
  whether a line is the log's signature of a text, and whose cosignature it is.
  What was signed is the text as the signed-note library reads it.
 */
module Policies {
  import opened Wrappers
  import opened Hashing
  import opened Notes
  import opened SignedNotes
  import opened Checkpoints

  datatype Policy = Policy(
    origin: bytes,
    logSigned: (bytes, bytes) -> bool,
    cosigner: (bytes, bytes) -> Option<bytes>,
    quorum: set<bytes> -> bool)

  /** More cosigners are never worse. */
  ghost predicate Monotone(pol: Policy) {
    forall a, b :: a <= b && pol.quorum(a) ==> pol.quorum(b)
  }

  /** The witnesses that cosigned a text. */
  function Cosigners(pol: Policy, text: bytes, lines: seq<bytes>): (names: set<bytes>)
    ensures forall name :: name in names <==> exists line :: line in lines && pol.cosigner(text, line) == Some(name)
  {
    if lines == [] then {}
    else
      var rest := Cosigners(pol, text, lines[1..]);
      assert lines == [lines[0]] + lines[1..];
      match pol.cosigner(text, lines[0])
      case None => rest
      case Some(name) => {name} + rest
  }

  /** Whether enough witnesses cosigned. */
  predicate Satisfied(pol: Policy, note: bytes) {
    match OpenNote(note)
    case None => false
    case Some((text, lines)) => pol.quorum(Cosigners(pol, text, lines))
  }

  /** Whether the log signed, under the origin it is known by, and enough witnesses cosigned. */
  predicate Verified(pol: Policy, note: bytes) {
    match OpenNote(note)
    case None => false
    case Some((text, lines)) =>
      && ParseCheckpoint(text).Ok? && ParseCheckpoint(text).value.origin == pol.origin
      && (exists line :: line in lines && pol.logSigned(text, line))
      && pol.quorum(Cosigners(pol, text, lines))
  }

  /** The cosigners depend on which lines there are, not on their order or number. */
  lemma CosignersOfSet(pol: Policy, text: bytes, a: seq<bytes>, b: seq<bytes>)
    requires forall line :: line in a ==> line in b
    ensures Cosigners(pol, text, a) <= Cosigners(pol, text, b)
  {
  }

  /** A note with the same cosignatures in another order satisfies the same policies. */
  lemma OrderOfCosignatures(pol: Policy, note: bytes, a: seq<bytes>, b: seq<bytes>)
    requires OpenNote(note).Some? && forall t :: t in a ==> SignatureText(t)
    requires forall t :: t in a <==> t in b
    ensures Satisfied(pol, Assemble(note, a)) == Satisfied(pol, Assemble(note, b))
  {
    AssembleOpens(note, a);
    AssembleOpens(note, b);
    var (text, lines) := OpenNote(note).value;
    var la, lb := lines + AllLines(a), lines + AllLines(b);
    forall line
      ensures line in la <==> line in lb
    {
      AllLinesMembers(a, line);
      AllLinesMembers(b, line);
    }
    CosignersOfSet(pol, text, la, lb);
    CosignersOfSet(pol, text, lb, la);
    assert Cosigners(pol, text, la) == Cosigners(pol, text, lb);
  }
}
