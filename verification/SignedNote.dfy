/**
  A signed note as the signed-note library reads it, for whoever verifies
  signatures: policies and witnesses.  The library splits a note at its last blank
  line, `ExtractBody` at the first one that has a signature behind it.
 */
module SignedNotes {
  import opened Wrappers
  import opened Hashing
  import opened Text
  import opened Notes

  /** `bytes.LastIndex` of two newlines in a row. */
  function LastBlankLine(s: bytes): (i: Option<nat>)
    ensures i.Some? ==> i.value + 2 <= |s| && s[i.value] == '\n' && s[i.value + 1] == '\n'
  {
    var n := |s|;
    if n < 2 then None
    else if s[n - 2] == '\n' && s[n - 1] == '\n' then Some(n - 2)
    else LastBlankLine(s[..n - 1])
  }

  predicate AreSignatures(lines: seq<bytes>) {
    forall line :: line in lines ==> HasPrefix(line, SigPrefix)
  }

  /**
    `note.Open` of the library, before it looks at keys: the text up to the last
    blank line, which is what signatures are about, and the lines behind it, which
    all have to be signatures.
   */
  function OpenNote(note: bytes): Option<(bytes, seq<bytes>)> {
    match LastBlankLine(note)
    case None => None
    case Some(i) =>
      var rest := note[i + 2..];
      if !EndsWithNewline(rest) then None
      else
        var lines := Split(rest[..|rest| - 1], '\n');
        if AreSignatures(lines) then Some((note[..i + 1], lines)) else None
  }

  /** A text of nothing but signature lines. */
  predicate SignatureText(text: bytes) {
    AreSignatures(Split(text, '\n'))
  }

  /** The lines of several texts, in order. */
  function AllLines(texts: seq<bytes>): seq<bytes> {
    if texts == [] then [] else Split(texts[0], '\n') + AllLines(texts[1..])
  }

  lemma {:induction false} AllLinesMembers(texts: seq<bytes>, line: bytes)
    ensures line in AllLines(texts) <==> exists t :: t in texts && line in Split(t, '\n')
  {
    if texts != [] {
      AllLinesMembers(texts[1..], line);
      assert texts == [texts[0]] + texts[1..];
      if line in Split(texts[0], '\n') { assert texts[0] in texts; }
    }
  }

  lemma OneSignature(line: Signature)
    ensures Split(line, '\n') == [line] && SignatureText(line)
  {
    SplitSingle(line, '\n');
  }

  lemma {:induction false} LastBlankLineIs(s: bytes, i: nat)
    requires i + 2 <= |s| && s[i] == '\n' && s[i + 1] == '\n' && HasNoBlankLine(s[i + 1..])
    ensures LastBlankLine(s) == Some(i)
    decreases |s|
  {
    var n := |s|;
    if i < n - 2 {
      assert s[i + 1..][n - i - 3] == s[n - 2] && s[i + 1..][n - i - 2] == s[n - 1];
      var t := s[..n - 1];
      assert t[i + 1..] == s[i + 1..][..n - i - 2];
      LastBlankLineIs(t, i);
    }
  }

  /** There is no later blank line. */
  lemma {:induction false} LastBlankLineLast(s: bytes, j: nat)
    requires j + 2 <= |s| && s[j] == '\n' && s[j + 1] == '\n'
    ensures LastBlankLine(s).Some? && j <= LastBlankLine(s).value
    decreases |s|
  {
    if j < |s| - 2 && LastBlankLine(s) != Some(|s| - 2) { LastBlankLineLast(s[..|s| - 1], j); }
  }

  lemma NoBlankLineCons(c: byte, s: bytes)
    requires HasNoBlankLine(s) && (c == '\n' && s != [] ==> s[0] != '\n')
    ensures HasNoBlankLine([c] + s)
  {
    var t := [c] + s;
    forall i | 0 <= i < |t| - 1
      ensures t[i] != '\n' || t[i + 1] != '\n'
    {
      if i > 0 { assert t[i] == s[i - 1] && t[i + 1] == s[i]; }
    }
  }

  /** No line but perhaps the first is empty: there is no blank line. */
  lemma {:induction false} FullLines(s: bytes)
    requires forall k :: 0 < k < |Split(s, '\n')| ==> Split(s, '\n')[k] != []
    ensures HasNoBlankLine(s + "\n")
    ensures Split(s, '\n')[0] == [] <==> s == [] || s[0] == '\n'
  {
    if s != [] {
      var c, rest := s[0], s[1..];
      var parts := Split(rest, '\n');
      forall k | 0 < k < |parts|
        ensures parts[k] != []
      {
        assert parts[k] == Split(s, '\n')[if c == '\n' then k + 1 else k];
      }
      if c == '\n' { assert parts[0] == Split(s, '\n')[1]; }
      FullLines(rest);
      NoBlankLineCons(c, rest + "\n");
      assert s + "\n" == [c] + (rest + "\n");
    }
  }

  /** Behind a blank line, signature lines hold no other. */
  lemma LastBeforeSignatures(text: bytes, s: bytes)
    requires EndsWithNewline(text) && SignatureText(s)
    ensures LastBlankLine(text + "\n" + s + "\n") == Some(|text| - 1)
  {
    var note := text + "\n" + s + "\n";
    assert [] !in Split(s, '\n') by { assert !HasPrefix([], SigPrefix); }
    FullLines(s);
    NoBlankLineCons('\n', s + "\n");
    assert note[|text|..] == ['\n'] + (s + "\n");
    LastBlankLineIs(note, |text| - 1);
  }

  lemma FramedParts(text: bytes, s: bytes)
    ensures var note := text + "\n" + s + "\n";
            note[..|text|] == text && note[|text| + 1..] == s + "\n" && (s + "\n")[..|s|] == s
  {
  }

  /** A text, a blank line and signature lines are read as that. */
  lemma OpenFramed(text: bytes, s: bytes)
    requires EndsWithNewline(text) && SignatureText(s)
    ensures OpenNote(text + "\n" + s + "\n") == Some((text, Split(s, '\n')))
  {
    LastBeforeSignatures(text, s);
    FramedParts(text, s);
  }

  /** And the other way round: what is read is a text, a blank line and signature lines. */
  lemma OpenParts(note: bytes) returns (s: bytes)
    requires OpenNote(note).Some?
    ensures EndsWithNewline(note) && EndsWithNewline(OpenNote(note).value.0)
    ensures note == OpenNote(note).value.0 + "\n" + s + "\n"
    ensures SignatureText(s) && Split(s, '\n') == OpenNote(note).value.1
  {
    var i := LastBlankLine(note).value;
    s := note[i + 2..][..|note| - i - 3];
    NoteParts(note, i);
  }

  lemma NoteParts(note: bytes, i: nat)
    requires i + 2 < |note| && note[i] == '\n' && note[i + 1] == '\n' && note[|note| - 1] == '\n'
    ensures note == note[..i + 1] + "\n" + note[i + 2..][..|note| - i - 3] + "\n"
  {
    var head, s := note[..i + 1], note[i + 2..][..|note| - i - 3];
    assert head + "\n" == note[..i + 2];
    assert note[..i + 2] + s == note[..|note| - 1];
    assert note == note[..|note| - 1] + [note[|note| - 1]];
  }

  /** The lines that appended texts add to a note. */
  lemma {:induction false} AssembleText(text: bytes, s: bytes, sigTexts: seq<bytes>) returns (s': bytes)
    ensures Assemble(text + "\n" + s + "\n", sigTexts) == text + "\n" + s' + "\n"
    ensures Split(s', '\n') == Split(s, '\n') + AllLines(sigTexts)
    decreases |sigTexts|
  {
    if sigTexts == [] {
      s' := s;
    } else {
      var note, next := text + "\n" + s + "\n", s + ['\n'] + sigTexts[0];
      assert AppendSignature(note, sigTexts[0]) == text + "\n" + next + "\n";
      s' := AssembleText(text, next, sigTexts[1..]);
      SplitConcat(s, sigTexts[0], '\n');
      ConcatThree(Split(s, '\n'), Split(sigTexts[0], '\n'), AllLines(sigTexts[1..]));
    }
  }

  /**
    Appending keeps what the library reads as signed exactly when nothing but
    signature lines is appended; then those lines are added to the others.
   */
  lemma AssembleOpens(note: bytes, sigTexts: seq<bytes>)
    requires OpenNote(note).Some?
    ensures (forall t :: t in sigTexts ==> SignatureText(t)) ==>
              OpenNote(Assemble(note, sigTexts))
              == Some((OpenNote(note).value.0, OpenNote(note).value.1 + AllLines(sigTexts)))
    ensures OpenNote(Assemble(note, sigTexts)).Some?
            && OpenNote(Assemble(note, sigTexts)).value.0 == OpenNote(note).value.0
       <==> forall t :: t in sigTexts ==> SignatureText(t)
  {
    var (text, lines) := OpenNote(note).value;
    var s := OpenParts(note);
    var s' := AssembleText(text, s, sigTexts);
    var after := OpenNote(Assemble(note, sigTexts));
    if forall t :: t in sigTexts ==> SignatureText(t) {
      AllSignatures(lines, sigTexts);
      OpenFramed(text, s');
    } else if after.Some? && after.value.0 == text {
      var t := OpenParts(Assemble(note, sigTexts));
      SameEnd(text, s', t);
      SignaturesOnly(lines, sigTexts);
    }
  }

  lemma SameEnd(text: bytes, a: bytes, b: bytes)
    requires text + "\n" + a + "\n" == text + "\n" + b + "\n"
    ensures a == b
  {
    var note := text + "\n" + a + "\n";
    assert a == note[|text| + 1..|note| - 1];
    assert b == note[|text| + 1..|note| - 1];
  }

  lemma AllSignatures(lines: seq<bytes>, sigTexts: seq<bytes>)
    requires AreSignatures(lines) && forall t :: t in sigTexts ==> SignatureText(t)
    ensures AreSignatures(lines + AllLines(sigTexts))
  {
    forall line | line in AllLines(sigTexts)
      ensures HasPrefix(line, SigPrefix)
    {
      AllLinesMembers(sigTexts, line);
    }
  }

  lemma SignaturesOnly(lines: seq<bytes>, sigTexts: seq<bytes>)
    requires AreSignatures(lines + AllLines(sigTexts))
    ensures forall t :: t in sigTexts ==> SignatureText(t)
  {
    forall t, line | t in sigTexts && line in Split(t, '\n')
      ensures HasPrefix(line, SigPrefix)
    {
      AllLinesMembers(sigTexts, line);
      assert line in lines + AllLines(sigTexts);
    }
  }

  /** A signed body is read as it was signed, whatever is in it. */
  lemma FrameOpens(body: bytes, sigLine: Signature)
    ensures OpenNote(Frame(body, sigLine)) == Some((Terminated(body), [sigLine]))
  {
    OneSignature(sigLine);
    OpenFramed(Terminated(body), sigLine);
  }

  /** Where the library finds a signature, the program finds one too, and no later. */
  lemma OpenedHasBody(note: bytes)
    requires OpenNote(note).Some?
    ensures ExtractBody(note).Ok? && ExtractBody(note).value <= OpenNote(note).value.0
  {
    var text := OpenNote(note).value.0;
    var s := OpenParts(note);
    assert Split(s, '\n')[0] in Split(s, '\n');
    FirstSignature(text, s);
    IndexFirst(note, Separator, |text| - 1);
    IndexSound(note, Separator);
  }

  /** The first signature line makes a separator. */
  lemma FirstSignature(text: bytes, s: bytes)
    requires EndsWithNewline(text) && HasPrefix(Split(s, '\n')[0], SigPrefix)
    ensures OccursAt(text + "\n" + s + "\n", Separator, |text| - 1)
  {
    JoinSplit(s, '\n');
    assert Split(s, '\n')[0] <= s;
    assert text + "\n" + s + "\n" == text + "\n" + (s + "\n");
    SeparatorAtEnd(text, s + "\n");
  }

  /** In a framed note with texts behind it, what is read as signed is the body, or has a separator in it. */
  lemma TextHasSeparator(body: bytes, sigLine: Signature, sigTexts: seq<bytes>)
    requires OpenNote(Assemble(Frame(body, sigLine), sigTexts)).Some?
    ensures var text := OpenNote(Assemble(Frame(body, sigLine), sigTexts)).value.0;
            text == Terminated(body) || Index(text, Separator).Some?
  {
    var b := Terminated(body);
    var s := AssembleText(b, sigLine, sigTexts);
    OneSignature(sigLine);
    FirstSignature(b, s);
    TextOrSeparator(b, b + "\n" + s + "\n");
  }

  lemma TextOrSeparator(body: bytes, note: bytes)
    requires body <= note && EndsWithNewline(body) && OccursAt(note, Separator, |body| - 1)
    requires OpenNote(note).Some?
    ensures OpenNote(note).value.0 == body || Index(OpenNote(note).value.0, Separator).Some?
  {
    var i, last := |body| - 1, LastBlankLine(note).value;
    var separator := note[i..i + 6];
    assert note[i] == separator[0] && note[i + 1] == separator[1];
    LastBlankLineLast(note, i);
    if i < last { SeparatorKept(note, i, last + 1); }
  }

  /** A text that ends between two newlines holds all of a separator that starts before its end. */
  lemma SeparatorKept(note: bytes, i: nat, end: nat)
    requires OccursAt(note, Separator, i) && i + 1 < end < |note| && note[end - 1] == '\n' && note[end] == '\n'
    ensures Index(note[..end], Separator).Some?
  {
    SeparatorBeforeBlankLine(note, i, end - 1);
    assert note[..end][i..i + 6] == note[i..i + 6];
    IndexFirst(note[..end], Separator, i);
  }

  // ---------- Where the two readings part ----------

  /** A body with a separator of its own, of which `ExtractBody` returns less than was signed. */
  lemma SeparatorInBody(sigLine: Signature)
    ensures var body: bytes := "a" + Separator + "b\n";
            && OpenNote(Frame(body, sigLine)) == Some((body, [sigLine]))
            && ExtractBody(Frame(body, sigLine)) == Ok("a\n")
  {
    var body: bytes := "a" + Separator + "b\n";
    assert EndsWithNewline(body);
    FrameOpens(body, sigLine);
    var rest := "b\n" + "\n" + sigLine + "\n";
    assert Frame(body, sigLine) == ['a'] + (Separator + rest);
    FirstSeparator('a', rest);
    assert ['a'] + "\n" == "a\n";
  }

  lemma FirstSeparator(c: byte, rest: bytes)
    requires c != '\n'
    ensures ExtractBody([c] + (Separator + rest)) == Ok([c] + "\n")
  {
    var note := [c] + (Separator + rest);
    assert note[1..] == Separator + rest && Separator <= Separator + rest;
    assert note[0] != Separator[0];
    assert Index(note, Separator) == Some(1);
    assert note[..2] == [c] + "\n";
  }

  /** A blank line in an appended text, behind which the library reads all that was there before as signed. */
  lemma BlankLineInReply(body: bytes, sigLine: Signature, reply: Signature)
    ensures var note := AppendSignature(Frame(body, sigLine), "x\n\n" + reply);
            OpenNote(note) == Some((Frame(body, sigLine) + "x\n", [reply]))
  {
    var framed := Frame(body, sigLine);
    assert AppendSignature(framed, "x\n\n" + reply) == (framed + "x\n") + "\n" + reply + "\n";
    OneSignature(reply);
    OpenFramed(framed + "x\n", reply);
  }
}
