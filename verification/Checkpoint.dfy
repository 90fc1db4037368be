/** internal/tlog/checkpoint.go: the size and the root that a checkpoint body commits to. */
module Checkpoints {
  import opened Wrappers
  import opened Hashing
  import opened Text
  import opened Encodings
  import opened Notes
  import opened SignedNotes

  datatype CheckpointError =
    | TooFewNewlines | EmptyOrigin | BadSize | BadBase64 | WrongRootLength
    | BadNote(error: NoteError)

  /** A tlog-checkpoint. */
  datatype Checkpoint = Checkpoint(origin: bytes, size: nat, root: Hash)

  /** The body of a checkpoint: origin, size and root, one to a line. */
  function Marshal(cp: Checkpoint): bytes {
    cp.origin + "\n" + Decimal(cp.size) + "\n" + Base64(cp.root.digest) + "\n"
  }

  function RootFromBytes(b: bytes): Result<Hash, CheckpointError> {
    if |b| != HashSize then Err(WrongRootLength) else Ok(Hash(b))
  }

  /** Parses a body; lines after the root are extensions and are not interpreted. */
  function ParseCheckpoint(body: bytes): Result<Checkpoint, CheckpointError> {
    match Cut(body, '\n')
    case None => Err(TooFewNewlines)
    case Some((origin, rest1)) =>
      match Cut(rest1, '\n')
      case None => Err(TooFewNewlines)
      case Some((size, rest2)) =>
        match Cut(rest2, '\n')
        case None => Err(TooFewNewlines)
        case Some((root, extensions)) =>
          if origin == [] then Err(EmptyOrigin)
          else match (ParseUint64(size), FromBase64(root))
            case (None, _) => Err(BadSize)
            case (Some(_), None) => Err(BadBase64)
            case (Some(n), Some(b)) =>
              var hash :- RootFromBytes(b);
              Ok(Checkpoint(origin, n, hash))
  }

  /** The checkpoint that the program reads in a signed note. */
  function CheckpointOf(note: bytes): Result<Checkpoint, CheckpointError> {
    match ExtractBody(note)
    case Err(e) => Err(BadNote(e))
    case Ok(body) => ParseCheckpoint(body)
  }

  /** The checkpoint that the signatures of a note are about, as the library reads it. */
  function SignedIn(note: bytes): Result<Checkpoint, CheckpointError> {
    match OpenNote(note)
    case None => Err(BadNote(NoSignatures))
    case Some((text, _)) => ParseCheckpoint(text)
  }

  /** A checkpoint whose body says what it is: a one-line origin, and a size of 64 bits. */
  predicate Writable(cp: Checkpoint) {
    cp.origin != [] && '\n' !in cp.origin && cp.size < Uint64Limit
  }

  /** Parsing undoes marshalling, also with extension lines behind. */
  lemma CheckpointRoundTrip(cp: Checkpoint, extensions: bytes)
    requires Writable(cp)
    ensures ParseCheckpoint(Marshal(cp) + extensions) == Ok(cp)
  {
    var size, root := Decimal(cp.size), Base64(cp.root.digest);
    DecimalRoundTrip(cp.size);
    Base64RoundTrip(cp.root.digest);
    Base64HasNoNewline(cp.root.digest);
    DecimalHasNoNewline(cp.size);
    ThreeLines(cp.origin, size, root, extensions);
  }

  lemma MarshalParses(cp: Checkpoint)
    requires Writable(cp)
    ensures ParseCheckpoint(Marshal(cp)) == Ok(cp)
  {
    CheckpointRoundTrip(cp, []);
    assert Marshal(cp) + [] == Marshal(cp);
  }

  /** Cutting three lines off a text, one by one. */
  lemma ThreeLines(a: bytes, b: bytes, c: bytes, more: bytes)
    requires '\n' !in a && '\n' !in b && '\n' !in c
    ensures var rest2 := c + ['\n'] + more; var rest1 := b + ['\n'] + rest2;
            && Cut(a + "\n" + b + "\n" + c + "\n" + more, '\n') == Some((a, rest1))
            && Cut(rest1, '\n') == Some((b, rest2)) && Cut(rest2, '\n') == Some((c, more))
  {
    var rest2 := c + ['\n'] + more;
    var rest1 := b + ['\n'] + rest2;
    assert a + "\n" + b + "\n" + c + "\n" + more == a + ['\n'] + rest1;
    CutFirst(a, rest1, '\n');
    CutFirst(b, rest2, '\n');
    CutFirst(c, more, '\n');
  }

  /** A marshalled checkpoint has no blank line, so no separator of its own. */
  lemma MarshalHasNoSeparator(cp: Checkpoint)
    requires Writable(cp)
    ensures EndsWithNewline(Marshal(cp))
    ensures Index(Marshal(cp), Separator).None?
  {
    var size, root := Decimal(cp.size), Base64(cp.root.digest);
    Base64HasNoNewline(cp.root.digest);
    DecimalHasNoNewline(cp.size);
    NoBlankLineJoin(size, root + "\n");
    NoBlankLineJoin(cp.origin, size + "\n" + (root + "\n"));
    assert Marshal(cp) == cp.origin + "\n" + (size + "\n" + (root + "\n"));
    NoBlankLine(Marshal(cp));
  }

  lemma NoBlankLineJoin(line: bytes, rest: bytes)
    requires line != [] && '\n' !in line
    requires rest != [] && rest[0] != '\n' && HasNoBlankLine(rest)
    ensures HasNoBlankLine(line + "\n" + rest) && (line + "\n" + rest)[0] != '\n'
  {
    var s := line + "\n" + rest;
    forall i | 0 <= i < |s| - 1
      ensures s[i] != '\n' || s[i + 1] != '\n'
    {
      if i < |line| { assert s[i] == line[i]; }
      if i == |line| { assert s[i + 1] == rest[0]; }
      if i > |line| { assert s[i] == rest[i - |line| - 1] && s[i + 1] == rest[i - |line|]; }
    }
  }

  /**
    What is signed is what is read: the note of a checkpoint, with any signature
    texts appended to it, carries that checkpoint.
   */
  lemma SignedCheckpoint(cp: Checkpoint, sigLine: Signature, sigTexts: seq<bytes>)
    requires Writable(cp)
    ensures CheckpointOf(Assemble(Frame(Marshal(cp), sigLine), sigTexts)) == Ok(cp)
    ensures Parsed(Assemble(Frame(Marshal(cp), sigLine), sigTexts))
         == Ok((Marshal(cp), [sigLine] + AllSigLines(sigTexts)))
  {
    MarshalHasNoSeparator(cp);
    FrameRoundTrip(Marshal(cp), sigLine, sigTexts);
    MarshalParses(cp);
  }

  // ---------- What is signed is what is read ----------

  /** Three lines, and what is behind them, of a body that parses. */
  lemma ParsedLines(text: bytes) returns (a: bytes, b: bytes, c: bytes, more: bytes)
    requires ParseCheckpoint(text).Ok?
    ensures text == a + "\n" + b + "\n" + c + "\n" + more
    ensures a != [] && b != [] && c != [] && '\n' !in a && '\n' !in b && '\n' !in c
  {
    CutParts(text, '\n');
    var (x, rest1) := Cut(text, '\n').value;
    CutParts(rest1, '\n');
    var (y, rest2) := Cut(rest1, '\n').value;
    CutParts(rest2, '\n');
    var (z, rest3) := Cut(rest2, '\n').value;
    a, b, c, more := x, y, z, rest3;
    LinesJoined(text, a, b, c, more);
  }

  lemma LinesJoined(text: bytes, a: bytes, b: bytes, c: bytes, more: bytes)
    requires text == a + ['\n'] + (b + ['\n'] + (c + ['\n'] + more))
    ensures text == a + "\n" + b + "\n" + c + "\n" + more
  {
  }

  /** The first three lines of such a body hold no blank line. */
  lemma BlankLineBehind(a: bytes, b: bytes, c: bytes, more: bytes, k: nat)
    requires a != [] && b != [] && c != [] && '\n' !in a && '\n' !in b && '\n' !in c
    requires var text := a + "\n" + b + "\n" + c + "\n" + more;
             k + 1 < |text| && text[k] == '\n' && text[k + 1] == '\n'
    ensures k >= |a| + |b| + |c| + 2
  {
    var text := a + "\n" + b + "\n" + c + "\n" + more;
    var i, j := |a| + 1, |a| + |b| + 2;
    assert forall x :: 0 <= x < |a| ==> text[x] == a[x];
    assert forall x :: 0 <= x < |b| ==> text[i + x] == b[x];
    assert forall x :: 0 <= x < |c| ==> text[j + x] == c[x];
  }

  /** A body that goes on behind a blank line parses as what is before it. */
  lemma ParseBeforeBlankLine(body: bytes, text: bytes)
    requires EndsWithNewline(body) && body <= text && ParseCheckpoint(text).Ok?
    requires body == text || text[|body|] == '\n'
    ensures ParseCheckpoint(body) == ParseCheckpoint(text)
  {
    if body != text {
      var a, b, c, more := ParsedLines(text);
      BlankLineBehind(a, b, c, more, |body| - 1);
      var end := |a| + |b| + |c| + 3;
      var less := more[..|body| - end];
      assert body == a + "\n" + b + "\n" + c + "\n" + less;
      ThreeLines(a, b, c, more);
      ThreeLines(a, b, c, less);
    }
  }

  /**
    The library splits a note at its last blank line, the program at the first one
    that has a signature behind it.  Whenever what the library reads is a
    checkpoint, the program reads the same one.
   */
  lemma SignedIsRead(note: bytes)
    requires LastBlankLine(note).Some? && ExtractBody(note).Ok?
    requires ParseCheckpoint(note[..LastBlankLine(note).value + 1]).Ok?
    ensures CheckpointOf(note) == ParseCheckpoint(note[..LastBlankLine(note).value + 1])
  {
    IndexSound(note, Separator);
    var i := Index(note, Separator).value;
    SeparatorIsBlankLine(note, i);
    LastBlankLineLast(note, i);
    ParseAtBlankLine(note, i, LastBlankLine(note).value);
  }

  lemma ParseAtBlankLine(note: bytes, i: nat, j: nat)
    requires i <= j && j + 1 < |note| && note[i] == '\n' && note[i + 1] == '\n'
    requires ParseCheckpoint(note[..j + 1]).Ok?
    ensures ParseCheckpoint(note[..i + 1]) == ParseCheckpoint(note[..j + 1])
  {
    TwoEnds(note, i, j);
    ParseBeforeBlankLine(note[..i + 1], note[..j + 1]);
  }

  /** The texts before two blank lines. */
  lemma TwoEnds(note: bytes, i: nat, j: nat)
    requires i <= j && j + 1 < |note| && note[i] == '\n' && note[i + 1] == '\n'
    ensures EndsWithNewline(note[..i + 1]) && note[..i + 1] <= note[..j + 1]
    ensures i < j ==> note[..j + 1][i + 1] == '\n'
  {
    assert note[..i + 1] == note[..j + 1][..i + 1];
  }

  lemma SeparatorIsBlankLine(note: bytes, i: nat)
    requires OccursAt(note, Separator, i)
    ensures note[i] == '\n' && note[i + 1] == '\n'
  {
    var separator := note[i..i + 6];
    assert note[i] == separator[0] && note[i + 1] == separator[1];
  }

  /** A note whose signatures are about a checkpoint is read as that checkpoint. */
  lemma OpenedIsRead(note: bytes)
    requires SignedIn(note).Ok?
    ensures CheckpointOf(note) == SignedIn(note)
  {
    OpenedHasBody(note);
    assert LastBlankLine(note).Some? && OpenNote(note).value.0 == note[..LastBlankLine(note).value + 1];
    SignedIsRead(note);
  }

  /** A signature appended to a note that opens leaves its checkpoint as it is. */
  lemma SignatureKeepsCheckpoint(note: bytes, line: Signature)
    requires OpenNote(note).Some?
    ensures OpenNote(AppendSignature(note, line)).Some?
    ensures OpenNote(AppendSignature(note, line)).value.0 == OpenNote(note).value.0
    ensures SignedIn(AppendSignature(note, line)) == SignedIn(note)
    ensures AppendSignature(note, line) != []
  {
    OneSignature(line);
    assert Assemble(note, [line]) == AppendSignature(note, line) by { assert [line][1..] == []; }
    AssembleOpens(note, [line]);
  }
}
