/** internal/note/note.go, framing: a body, a blank line and signature lines. */
module Notes {
  import opened Wrappers
  import opened Hashing
  import opened Text

  /** An em dash in UTF-8 and a space. */
  const SigPrefix: bytes := ['\U{E2}', '\U{80}', '\U{94}', ' ']

  /** What ends the body of a signed note: its last newline, a blank line and the first signature. */
  const Separator: bytes := ['\n', '\n', '\U{E2}', '\U{80}', '\U{94}', ' ']

  /** One signature: what a key makes of a body. */
  type Signature = l: bytes | SigPrefix <= l && '\n' !in l witness SigPrefix

  datatype NoteError = NoSignatures

  /** `strings.Index`: where `sub` first occurs. */
  function Index(s: bytes, sub: bytes): (i: Option<nat>)
    requires sub != []
  {
    if sub <= s then Some(0)
    else if s == [] then None
    else match Index(s[1..], sub)
      case None => None
      case Some(i) => Some(i + 1)
  }

  predicate EndsWithNewline(s: bytes) {
    s != [] && s[|s| - 1] == '\n'
  }

  /** A text with a newline at its end, as it is signed. */
  function Terminated(text: bytes): bytes {
    if EndsWithNewline(text) then text else text + "\n"
  }

  /** The framing of `Sign`, given the signature line. */
  function Frame(body: bytes, sigLine: bytes): bytes {
    Terminated(body) + "\n" + sigLine + "\n"
  }

  function AppendSignature(note: bytes, sigText: bytes): bytes {
    Terminated(note) + sigText + "\n"
  }

  /** The body of a signed note, with its last newline. */
  function ExtractBody(note: bytes): Result<bytes, NoteError> {
    match Index(note, Separator)
    case None => Err(NoSignatures)
    case Some(i) =>
      IndexSound(note, Separator);
      Ok(note[..i + 1])
  }

  /** A line, if it is a signature. */
  function SigLine(line: bytes): seq<bytes> {
    if HasPrefix(line, SigPrefix) then [line] else []
  }

  /** Lines that are signatures. */
  function SigLines(lines: seq<bytes>): seq<bytes> {
    if lines == [] then [] else SigLine(lines[0]) + SigLines(lines[1..])
  }

  /** What `ParseSignedNote` returns. */
  function Parsed(note: bytes): Result<(bytes, seq<bytes>), NoteError> {
    match ExtractBody(note)
    case Err(e) => Err(e)
    case Ok(body) =>
      IndexSound(note, Separator);
      Ok((body, SigLines(Split(note[|body| + 1..], '\n'))))
  }

  /** Splits a signed note into its body and its signature lines. */
  method ParseSignedNote(note: bytes) returns (r: Result<(bytes, seq<bytes>), NoteError>)
    ensures r == Parsed(note)
  {
    var body := ExtractBody(note);
    if body.Err? {
      return Err(body.error);
    }
    IndexSound(note, Separator);
    var lines := Split(note[|body.value| + 1..], '\n');
    var sigLines: seq<bytes> := [];
    assert lines[..0] == [];
    for i := 0 to |lines|
      invariant sigLines == SigLines(lines[..i])
    {
      SigLinesNext(lines, i);
      if HasPrefix(lines[i], SigPrefix) {
        sigLines := sigLines + [lines[i]];
      }
    }
    assert lines[..|lines|] == lines;
    return Ok((body.value, sigLines));
  }

  // ---------- Searching ----------

  /** `sub` stands at position `i`. */
  predicate OccursAt(s: bytes, sub: bytes, i: nat) {
    i + |sub| <= |s| && s[i..i + |sub|] == sub
  }

  lemma {:induction false} IndexSound(s: bytes, sub: bytes)
    requires sub != []
    ensures Index(s, sub).Some? ==> OccursAt(s, sub, Index(s, sub).value)
  {
    if !(sub <= s) && s != [] {
      IndexSound(s[1..], sub);
      if Index(s[1..], sub).Some? {
        var i := Index(s[1..], sub).value;
        assert s[i + 1..i + 1 + |sub|] == s[1..][i..i + |sub|];
      }
    }
  }

  lemma {:induction false} IndexFirst(s: bytes, sub: bytes, i: nat)
    requires sub != [] && OccursAt(s, sub, i)
    ensures Index(s, sub).Some? && Index(s, sub).value <= i
  {
    if !(sub <= s) {
      assert OccursAt(s, sub, 0) <==> sub <= s;
      assert s[1..][i - 1..i - 1 + |sub|] == s[i..i + |sub|];
      IndexFirst(s[1..], sub, i - 1);
    }
  }

  /** Text behind the first occurrence does not change where it is. */
  lemma IndexExtends(s: bytes, more: bytes, sub: bytes)
    requires sub != [] && Index(s, sub).Some?
    ensures Index(s + more, sub) == Index(s, sub)
  {
    var i := Index(s, sub).value;
    IndexSound(s, sub);
    assert (s + more)[i..i + |sub|] == s[i..i + |sub|];
    IndexFirst(s + more, sub, i);
    var j := Index(s + more, sub).value;
    IndexSound(s + more, sub);
    assert (s + more)[j..j + |sub|] == s[j..j + |sub|];
    IndexFirst(s, sub, j);
  }

  lemma ConcatThree<T>(a: seq<T>, b: seq<T>, c: seq<T>)
    ensures a + (b + c) == (a + b) + c
  {
  }

  lemma {:induction false} SigLinesConcat(a: seq<bytes>, b: seq<bytes>)
    ensures SigLines(a + b) == SigLines(a) + SigLines(b)
  {
    if a == [] {
      assert a + b == b;
    } else {
      SigLinesConcat(a[1..], b);
      assert (a + b)[1..] == a[1..] + b;
      ConcatThree(SigLine(a[0]), SigLines(a[1..]), SigLines(b));
    }
  }

  lemma SigLinesNext(lines: seq<bytes>, i: nat)
    requires i < |lines|
    ensures SigLines(lines[..i + 1]) == SigLines(lines[..i]) + SigLine(lines[i])
    ensures SigLine(lines[i]) == [] ==> SigLines(lines[..i + 1]) == SigLines(lines[..i])
  {
    SigLinesConcat(lines[..i], [lines[i]]);
    assert lines[..i + 1] == lines[..i] + [lines[i]];
    assert SigLines([lines[i]]) == SigLine(lines[i]) + SigLines([lines[i]][1..]);
  }

  // ---------- The framing round trip ----------

  /** A separator that starts before a blank line ends before it. */
  lemma SeparatorBeforeBlankLine(note: bytes, i: nat, end: nat)
    requires i < end && end + 1 < |note| && note[end] == '\n' && note[end + 1] == '\n'
    requires OccursAt(note, Separator, i)
    ensures i + 6 <= end
  {
    var s := note[i..i + 6];
    assert s[2] == note[i + 2] && s[3] == note[i + 3] && s[4] == note[i + 4] && s[5] == note[i + 5];
  }

  /** In a framed note no separator straddles the end of the body. */
  lemma SeparatorInFrame(body: bytes, rest: bytes, i: nat)
    requires EndsWithNewline(body) && SigPrefix <= rest
    requires OccursAt(body + "\n" + rest, Separator, i)
    ensures i < |body| ==> i == |body| - 1 || OccursAt(body, Separator, i)
  {
    var note := body + "\n" + rest;
    if i < |body| - 1 {
      SeparatorBeforeBlankLine(note, i, |body| - 1);
      assert note[i..i + 6] == body[i..i + 6];
    }
  }

  /** A separator stands where the body ends. */
  lemma SeparatorAtEnd(body: bytes, rest: bytes)
    requires EndsWithNewline(body) && SigPrefix <= rest
    ensures OccursAt(body + "\n" + rest, Separator, |body| - 1)
  {
    var note, end := body + "\n" + rest, |body| - 1;
    assert rest[..4] == SigPrefix;
    assert note[end..end + 6] == [body[end]] + "\n" + rest[..4];
  }

  /**
    Framing keeps the body exactly when it has no separator of its own: then
    `ExtractBody` gives back what was signed, and otherwise less of it.
   */
  lemma FrameBody(body: bytes, rest: bytes)
    requires EndsWithNewline(body) && SigPrefix <= rest
    ensures ExtractBody(body + "\n" + rest).Ok?
    ensures ExtractBody(body + "\n" + rest) == Ok(body) <==> Index(body, Separator).None?
  {
    var note := body + "\n" + rest;
    var end := |body| - 1;
    SeparatorAtEnd(body, rest);
    IndexFirst(note, Separator, end);
    IndexSound(note, Separator);
    var i := Index(note, Separator).value;
    SeparatorInFrame(body, rest, i);
    if i == end {
      assert note[..end + 1] == body;
      if Index(body, Separator).Some? {
        IndexSound(body, Separator);
        var j := Index(body, Separator).value;
        assert note[j..j + 6] == body[j..j + 6];
        IndexFirst(note, Separator, j);
      }
    } else {
      IndexFirst(body, Separator, i);
      assert |note[..i + 1]| < |body|;
    }
  }

  /** Appending signature lines leaves the body as it is, and adds those lines. */
  lemma AppendKeepsBody(note: bytes, sigLine: bytes)
    requires ExtractBody(note).Ok? && EndsWithNewline(note)
    ensures ExtractBody(AppendSignature(note, sigLine)) == ExtractBody(note)
    ensures Parsed(AppendSignature(note, sigLine)).value.1
         == Parsed(note).value.1 + SigLines(Split(sigLine, '\n'))
  {
    var more := sigLine + "\n";
    assert AppendSignature(note, sigLine) == note + more;
    AppendKeepsExtract(note, more);
    var end := |ExtractBody(note).value| + 1;
    BehindBody(note, more, end);
    LinesAppend(note[end..], sigLine);
  }

  /** What is behind the body of a note, and behind the body of the note with more appended. */
  lemma BehindBody(note: bytes, more: bytes, end: nat)
    requires ExtractBody(note).Ok? && EndsWithNewline(note) && end == |ExtractBody(note).value| + 1
    ensures end < |note| && EndsWithNewline(note[end..]) && (note + more)[end..] == note[end..] + more
  {
    IndexSound(note, Separator);
    assert note[end..][|note| - end - 1] == note[|note| - 1];
  }

  lemma AppendKeepsExtract(note: bytes, more: bytes)
    requires ExtractBody(note).Ok?
    ensures ExtractBody(note + more) == ExtractBody(note)
  {
    IndexSound(note, Separator);
    IndexExtends(note, more, Separator);
    var i := Index(note, Separator).value;
    assert (note + more)[..i + 1] == note[..i + 1];
  }

  lemma LinesAppend(rest: bytes, sigLine: bytes)
    requires EndsWithNewline(rest)
    ensures SigLines(Split(rest + (sigLine + "\n"), '\n'))
         == SigLines(Split(rest, '\n')) + SigLines(Split(sigLine, '\n'))
  {
    var init := rest[..|rest| - 1];
    assert rest + (sigLine + "\n") == init + ['\n'] + (sigLine + "\n");
    SplitConcat(init, sigLine + "\n", '\n');
    SigLinesConcat(Split(init, '\n'), Split(sigLine + "\n", '\n'));
    assert rest == init + "\n";
    SigLinesEnd(init);
    SigLinesEnd(sigLine);
  }

  /** The end of a last line adds no signature. */
  lemma SigLinesEnd(s: bytes)
    ensures SigLines(Split(s + "\n", '\n')) == SigLines(Split(s, '\n'))
  {
    SplitConcat(s, [], '\n');
    assert s + ['\n'] + [] == s + "\n";
    SigLinesConcat(Split(s, '\n'), [[]]);
  }

  /** Signing and then appending further signature texts. */
  function Assemble(note: bytes, sigTexts: seq<bytes>): bytes
    decreases |sigTexts|
  {
    if sigTexts == [] then note
    else Assemble(AppendSignature(note, sigTexts[0]), sigTexts[1..])
  }

  /** The signature lines of several texts, in order. */
  function AllSigLines(sigTexts: seq<bytes>): seq<bytes> {
    if sigTexts == [] then [] else SigLines(Split(sigTexts[0], '\n')) + AllSigLines(sigTexts[1..])
  }

  lemma {:induction false} AssembleKeeps(note: bytes, sigTexts: seq<bytes>)
    requires ExtractBody(note).Ok? && EndsWithNewline(note)
    ensures ExtractBody(Assemble(note, sigTexts)) == ExtractBody(note)
    ensures Parsed(Assemble(note, sigTexts)).value.1 == Parsed(note).value.1 + AllSigLines(sigTexts)
    decreases |sigTexts|
  {
    if sigTexts != [] {
      AppendKeepsBody(note, sigTexts[0]);
      AssembleKeeps(AppendSignature(note, sigTexts[0]), sigTexts[1..]);
    }
  }

  /**
    The framing round trip: a body without a separator, signed by one signature
    line and followed by any number of others, is recovered exactly, with the
    signature lines in order.
   */
  lemma FrameRoundTrip(body: bytes, sigLine: Signature, sigTexts: seq<bytes>)
    requires Index(Terminated(body), Separator).None?
    ensures Parsed(Assemble(Frame(body, sigLine), sigTexts))
         == Ok((Terminated(body), [sigLine] + AllSigLines(sigTexts)))
  {
    var b, rest := Terminated(body), sigLine + "\n";
    var note := Frame(body, sigLine);
    assert note == b + "\n" + rest;
    FrameBody(b, rest);
    AssembleKeeps(note, sigTexts);
    assert note[|b| + 1..] == rest;
    SigLinesEnd(sigLine);
    SplitSingle(sigLine, '\n');
    assert SigLines([sigLine]) == [sigLine] by { assert [sigLine][1..] == []; }
  }

  /** No two newlines in a row. */
  ghost predicate HasNoBlankLine(s: bytes) {
    forall i :: 0 <= i < |s| - 1 ==> s[i] != '\n' || s[i + 1] != '\n'
  }

  /** Text without a blank line has no separator. */
  lemma NoBlankLine(s: bytes)
    requires HasNoBlankLine(s)
    ensures Index(s, Separator).None?
  {
    IndexSound(s, Separator);
    forall i: nat
      ensures !OccursAt(s, Separator, i)
    {
      if i + 6 <= |s| { assert s[i..i + 6][0] == s[i] && s[i..i + 6][1] == s[i + 1]; }
    }
  }
}
