/** internal/gitlog/entry.go: the canonical encoding of log entries. */
module Entries {
  import opened Wrappers
  import opened Hashing
  import opened Text
  import opened GitUtil

  const TypeRefRecord: bytes := "ref-record/v1"
  const MaxEntrySize := 65535

  datatype EntryError =
    | EmptyEntry | TooLarge | NoFinalNewline | CarriageReturn | TrailingWhitespace
    | EmptyType | TypeWhitespace
    | WrongType | WrongLineCount | NoSpace
    | UnrecognisedRef | BadObjectLength | NotLowercase | NotHex

  /** An entry: its bytes as stored, and the type its first line names. */
  datatype Entry = Entry(raw: bytes, kind: bytes)

  /** The payload of a ref-record entry. */
  datatype RefRecord = RefRecord(ref: bytes, obj: bytes)

  predicate IsUpper(c: byte) { 'A' <= c <= 'Z' }

  predicate IsHexDigit(c: byte) { '0' <= c <= '9' || 'a' <= c <= 'f' || 'A' <= c <= 'F' }

  /** The error a line of an entry deserves, if any. */
  function LineError(line: bytes): Option<EntryError> {
    if '\r' in line then Some(CarriageReturn)
    else if line != [] && line[|line| - 1] in " \t" then Some(TrailingWhitespace)
    else None
  }

  /** The error of the first bad line. */
  function FirstLineError(lines: seq<bytes>): Option<EntryError> {
    if lines == [] then None
    else if LineError(lines[0]).Some? then LineError(lines[0])
    else FirstLineError(lines[1..])
  }

  /** The lines of an entry, with the framing rules enforced. */
  function EntryLines(raw: bytes): (r: Result<seq<bytes>, EntryError>)
    ensures r.Ok? ==> |r.value| > 0
  {
    if |raw| == 0 then Err(EmptyEntry)
    else if |raw| > MaxEntrySize then Err(TooLarge)
    else if raw[|raw| - 1] != '\n' then Err(NoFinalNewline)
    else
      var lines := Split(raw[..|raw| - 1], '\n');
      match FirstLineError(lines)
      case Some(e) => Err(e)
      case None => Ok(lines)
  }

  /** Checks the fields a ref-record must carry. */
  function ValidateRefRecord(ref: bytes, obj: bytes): Option<EntryError> {
    if ParseRefKind(ref).None? then Some(UnrecognisedRef)
    else if |obj| != 40 && |obj| != 64 then Some(BadObjectLength)
    else if exists c: byte :: c in obj && IsUpper(c) then Some(NotLowercase)
    else if exists c: byte :: c in obj && !IsHexDigit(c) then Some(NotHex)
    else None
  }

  /** Builds a ref-record entry ready to append. */
  function NewRefRecord(ref: bytes, obj: bytes): Result<Entry, EntryError> {
    match ValidateRefRecord(ref, obj)
    case Some(e) => Err(e)
    case None =>
      var raw := TypeRefRecord + "\n" + ref + " " + obj + "\n";
      if |raw| > MaxEntrySize then Err(TooLarge) else Ok(Entry(raw, TypeRefRecord))
  }

  /** Decodes the payload of a ref-record entry. */
  function AsRefRecord(e: Entry): Result<RefRecord, EntryError> {
    if e.kind != TypeRefRecord then Err(WrongType)
    else
      var lines :- EntryLines(e.raw);
      if |lines| != 2 then Err(WrongLineCount)
      else match Cut(lines[1], ' ')
        case None => Err(NoSpace)
        case Some((ref, obj)) =>
          match ValidateRefRecord(ref, obj)
          case Some(err) => Err(err)
          case None => Ok(RefRecord(ref, obj))
  }

  /** Parses one stored entry; only entries of the known type are validated further. */
  function ParseEntry(raw: bytes): Result<Entry, EntryError> {
    var lines :- EntryLines(raw);
    var kind := lines[0];
    if kind == [] then Err(EmptyType)
    else if ' ' in kind || '\t' in kind then Err(TypeWhitespace)
    else
      var e := Entry(raw, kind);
      if kind == TypeRefRecord then
        var _ :- AsRefRecord(e);
        Ok(e)
      else Ok(e)
  }

  /** A ref without the bytes the encoding uses as separators. */
  predicate CleanRef(ref: bytes) {
    ' ' !in ref && '\n' !in ref && '\r' !in ref
  }

  // ---------- Properties ----------

  /** An entry that decodes is the encoding of what it decodes to. */
  lemma DecodedIsEncoding(e: Entry)
    requires AsRefRecord(e).Ok?
    requires EntryLines(e.raw).Ok? && EntryLines(e.raw).value[0] == e.kind
    ensures var rr := AsRefRecord(e).value;
            CleanRef(rr.ref) && NewRefRecord(rr.ref, rr.obj) == Ok(e)
  {
    var lines := EntryLines(e.raw).value;
    assert lines == [lines[0], lines[1]];
    TwoLineText(e.raw, lines[0], lines[1]);
    CutParts(lines[1], ' ');
    var rr := AsRefRecord(e).value;
    assert e.raw == TypeRefRecord + "\n" + rr.ref + " " + rr.obj + "\n";
  }

  /** An entry of two lines, put together again. */
  lemma TwoLineText(raw: bytes, first: bytes, second: bytes)
    requires EntryLines(raw) == Ok([first, second])
    ensures raw == first + "\n" + second + "\n"
    ensures '\n' !in second && '\r' !in second
  {
    var text, lines := raw[..|raw| - 1], [first, second];
    JoinSplit(text, '\n');
    assert Join(lines[1..], '\n') == second;
    assert raw == text + "\n";
    NoLineError(lines, 1);
    SplitHasNoSeparator(text, '\n', 1);
  }

  lemma {:induction false} NoLineError(lines: seq<bytes>, i: nat)
    requires FirstLineError(lines).None? && i < |lines|
    ensures LineError(lines[i]).None?
  {
    if i > 0 { NoLineError(lines[1..], i - 1); }
  }

  lemma {:induction false} SplitHasNoSeparator(s: bytes, sep: byte, i: nat)
    requires i < |Split(s, sep)|
    ensures sep !in Split(s, sep)[i]
  {
    if s != [] {
      if s[0] == sep {
        if i > 0 { SplitHasNoSeparator(s[1..], sep, i - 1); }
      } else {
        SplitHasNoSeparator(s[1..], sep, i);
      }
    }
  }

  /**
    The encoding is canonical: every byte string accepted as a ref-record is the
    one that `NewRefRecord` writes for its statement.
   */
  lemma ParsedIsCanonical(raw: bytes)
    requires ParseEntry(raw).Ok? && ParseEntry(raw).value.kind == TypeRefRecord
    ensures var e := ParseEntry(raw).value;
            && AsRefRecord(e).Ok?
            && CleanRef(AsRefRecord(e).value.ref)
            && NewRefRecord(AsRefRecord(e).value.ref, AsRefRecord(e).value.obj) == Ok(Entry(raw, TypeRefRecord))
  {
    DecodedIsEncoding(ParseEntry(raw).value);
  }

  /** Each statement has one entry. */
  lemma OneEntryPerStatement(raw1: bytes, raw2: bytes)
    requires ParseEntry(raw1).Ok? && ParseEntry(raw1).value.kind == TypeRefRecord
    requires ParseEntry(raw2).Ok? && ParseEntry(raw2).value.kind == TypeRefRecord
    requires AsRefRecord(ParseEntry(raw1).value) == AsRefRecord(ParseEntry(raw2).value)
    ensures raw1 == raw2
  {
    ParsedIsCanonical(raw1);
    ParsedIsCanonical(raw2);
  }

  /** The lines of a new ref-record: the payload is one line unless the ref has a newline. */
  lemma NewRecordLines(ref: bytes, obj: bytes)
    requires NewRefRecord(ref, obj).Ok?
    ensures var raw := NewRefRecord(ref, obj).value.raw;
            && |raw| > 0 && raw[|raw| - 1] == '\n'
            && Split(raw[..|raw| - 1], '\n') == [TypeRefRecord] + Split(ref + " " + obj, '\n')
  {
    var raw, line := NewRefRecord(ref, obj).value.raw, ref + " " + obj;
    assert raw[..|raw| - 1] == TypeRefRecord + ['\n'] + line;
    SplitFirst(TypeRefRecord, line, '\n');
  }

  /** With a clean ref, the new entry decodes to what it was made of. */
  lemma NewRecordDecodes(ref: bytes, obj: bytes)
    requires NewRefRecord(ref, obj).Ok? && CleanRef(ref)
    ensures var e := NewRefRecord(ref, obj).value;
            AsRefRecord(e) == Ok(RefRecord(ref, obj)) && ParseEntry(e.raw) == Ok(e)
  {
    var line := ref + " " + obj;
    LinesOfClean(ref, obj);
    assert line == ref + [' '] + obj;
    CutFirst(ref, obj, ' ');
  }

  lemma LinesOfClean(ref: bytes, obj: bytes)
    requires NewRefRecord(ref, obj).Ok? && CleanRef(ref)
    ensures EntryLines(NewRefRecord(ref, obj).value.raw) == Ok([TypeRefRecord, ref + " " + obj])
  {
    var line := ref + " " + obj;
    NewRecordLines(ref, obj);
    HexIsClean(obj);
    assert '\n' !in line && '\r' !in line;
    SplitSingle(line, '\n');
    var split := [TypeRefRecord] + [line];
    assert LineError(line).None? by { assert line[|line| - 1] == obj[|obj| - 1]; }
    assert split == [TypeRefRecord, line];
    TwoLines(TypeRefRecord, line);
  }

  lemma TwoLines(first: bytes, second: bytes)
    requires LineError(first).None? && LineError(second).None?
    ensures FirstLineError([first, second]).None?
  {
    assert FirstLineError([second][1..]).None?;
    assert [first, second][1..] == [second];
  }

  lemma HexIsClean(obj: bytes)
    requires forall c: byte :: c in obj ==> IsHexDigit(c)
    ensures ' ' !in obj && '\n' !in obj && '\r' !in obj && '\t' !in obj
  {
  }

  /** Cutting at the first of two spaces leaves the other one behind. */
  lemma SpaceRemains(ref: bytes, obj: bytes, before: bytes, after: bytes)
    requires ref + " " + obj == before + [' '] + after
    requires ' ' in ref && ' ' !in before
    ensures ' ' in after
  {
    var line := ref + " " + obj;
    var i :| 0 <= i < |ref| && ref[i] == ' ';
    assert line[i] == ' ' && line[|ref|] == ' ';
    assert forall k :: 0 <= k < |before| ==> line[k] == before[k];
    assert i >= |before|;
    assert after[|ref| - |before| - 1] == line[|ref|];
  }

  /** What a record line of two fields decodes to, if it decodes at all. */
  lemma DecodedFields(e: Entry, line: bytes)
    requires EntryLines(e.raw) == Ok([TypeRefRecord, line]) && AsRefRecord(e).Ok?
    ensures var rr := AsRefRecord(e).value;
            line == rr.ref + [' '] + rr.obj && ' ' !in rr.ref && ' ' !in rr.obj
  {
    CutParts(line, ' ');
    HexIsClean(AsRefRecord(e).value.obj);
  }

  /** With any other ref, the new entry does not decode. */
  lemma UncleanRecordFails(ref: bytes, obj: bytes)
    requires NewRefRecord(ref, obj).Ok? && !CleanRef(ref)
    ensures AsRefRecord(NewRefRecord(ref, obj).value).Err?
  {
    var e := NewRefRecord(ref, obj).value;
    var line := ref + " " + obj;
    if AsRefRecord(e).Ok? {
      NewRecordLines(ref, obj);
      SplitSingle(line, '\n');
      assert EntryLines(e.raw).value == [TypeRefRecord, line];
      TwoLineText(e.raw, TypeRefRecord, line);
      DecodedFields(e, line);
      if ' ' in ref { SpaceRemains(ref, obj, AsRefRecord(e).value.ref, AsRefRecord(e).value.obj); }
    }
  }

  /**
    `NewRefRecord` followed by `ParseEntry` is the identity exactly for refs free
    of space, newline and carriage return; for any other ref the entry it builds
    is one that `ParseEntry` rejects.
   */
  lemma NewThenParse(ref: bytes, obj: bytes)
    requires NewRefRecord(ref, obj).Ok?
    ensures var e := NewRefRecord(ref, obj).value;
            && (ParseEntry(e.raw) == Ok(e) <==> CleanRef(ref))
            && (ParseEntry(e.raw).Err? <==> !CleanRef(ref))
            && (CleanRef(ref) ==> AsRefRecord(e) == Ok(RefRecord(ref, obj)))
  {
    var e := NewRefRecord(ref, obj).value;
    if CleanRef(ref) {
      NewRecordDecodes(ref, obj);
    } else {
      UncleanRecordFails(ref, obj);
      NewRecordLines(ref, obj);
    }
  }

  // ---------- The grammar ----------

  predicate IsBlank(c: byte) { c == ' ' || c == '\t' }

  /** No carriage return, and no blank at the end of a line. */
  ghost predicate CleanLines(text: bytes) {
    && '\r' !in text
    && forall i :: 0 <= i < |text| && IsBlank(text[i]) ==> i + 1 < |text| && text[i + 1] != '\n'
  }

  predicate IsLowerHex(c: byte) { '0' <= c <= '9' || 'a' <= c <= 'f' }

  /** A branch or a tag, and an object name of 20 or 32 bytes in lower case. */
  ghost predicate ValidFields(ref: bytes, obj: bytes) {
    && ("refs/heads/" <= ref || "refs/tags/" <= ref)
    && (|obj| == 40 || |obj| == 64) && forall c: byte :: c in obj ==> IsLowerHex(c)
  }

  /** The payload of a ref-record: a ref without separators, a space and an object name on one line. */
  ghost predicate Statement(payload: bytes) {
    exists ref: bytes, obj: bytes :: CleanRef(ref) && ValidFields(ref, obj) && payload == ref + " " + obj + "\n"
  }

  /** The entries of the grammar, byte by byte. */
  ghost predicate Grammar(raw: bytes) {
    && 0 < |raw| <= MaxEntrySize && raw[|raw| - 1] == '\n' && CleanLines(raw[..|raw| - 1])
    && Cut(raw, '\n').Some?
    && var (kind, payload) := Cut(raw, '\n').value;
       && kind != [] && ' ' !in kind && '\t' !in kind
       && (kind == TypeRefRecord ==> Statement(payload))
  }

  lemma FieldsChecked(ref: bytes, obj: bytes)
    ensures ValidateRefRecord(ref, obj).None? <==> ValidFields(ref, obj)
  {
    forall c: byte
      ensures IsLowerHex(c) <==> !IsUpper(c) && IsHexDigit(c)
    {
    }
  }

  lemma CleanLinesCons(c: byte, rest: bytes)
    ensures CleanLines([c] + rest) <==>
              CleanLines(rest) && c != '\r' && (IsBlank(c) ==> rest != [] && rest[0] != '\n')
  {
    var text := [c] + rest;
    assert forall i :: 0 <= i < |rest| ==> text[i + 1] == rest[i];
    if CleanLines(text) {
      assert forall i :: 0 <= i < |rest| && IsBlank(rest[i]) ==> IsBlank(text[i + 1]);
      assert text[0] == c;
      assert '\r' !in text[1..] && text[1..] == rest;
    }
  }

  /** The first part is empty exactly when the text starts a new line, or has ended. */
  lemma FirstPartEmpty(text: bytes)
    ensures Split(text, '\n')[0] == [] <==> text == [] || text[0] == '\n'
  {
  }

  lemma LineErrorCons(c: byte, line: bytes)
    ensures LineError([c] + line).None? <==> LineError(line).None? && c != '\r' && (line == [] ==> !IsBlank(c))
  {
    var longer := [c] + line;
    assert '\r' in longer <==> c == '\r' || '\r' in line;
    assert longer[|longer| - 1] == if line == [] then c else line[|line| - 1];
  }

  /** The checks on lines, on the text as it stands. */
  lemma {:induction false} LinesAreClean(text: bytes)
    ensures FirstLineError(Split(text, '\n')).None? <==> CleanLines(text)
  {
    if text != [] {
      var c, rest := text[0], text[1..];
      var parts := Split(rest, '\n');
      LinesAreClean(rest);
      FirstPartEmpty(rest);
      assert text == [c] + rest;
      CleanLinesCons(c, rest);
      if c == '\n' {
        assert ([[]] + parts)[1..] == parts;
      } else {
        LineErrorCons(c, parts[0]);
        assert ([[c] + parts[0]] + parts[1..])[1..] == parts[1..];
      }
    }
  }

  lemma LinesOfText(raw: bytes, text: bytes)
    requires raw == text + ['\n']
    ensures EntryLines(raw).Ok? <==> |raw| <= MaxEntrySize && CleanLines(text)
    ensures EntryLines(raw).Ok? ==> Cut(raw, '\n').Some? && Cut(raw, '\n').value.0 == EntryLines(raw).value[0]
  {
    assert raw[..|raw| - 1] == text;
    LinesAreClean(text);
    FirstPart(text, '\n');
  }

  lemma LinesOfGrammar(raw: bytes)
    ensures EntryLines(raw).Ok? <==>
              0 < |raw| <= MaxEntrySize && raw[|raw| - 1] == '\n' && CleanLines(raw[..|raw| - 1])
    ensures EntryLines(raw).Ok? ==> Cut(raw, '\n').Some? && Cut(raw, '\n').value.0 == EntryLines(raw).value[0]
  {
    if |raw| > 0 && raw[|raw| - 1] == '\n' { LinesOfText(raw, raw[..|raw| - 1]); }
  }

  /** What stands behind the type of an accepted ref-record is a statement. */
  lemma AcceptedStates(raw: bytes)
    requires ParseEntry(raw).Ok? && ParseEntry(raw).value.kind == TypeRefRecord
    ensures Cut(raw, '\n').Some? && Statement(Cut(raw, '\n').value.1)
  {
    ParsedIsCanonical(raw);
    var rr := AsRefRecord(ParseEntry(raw).value).value;
    var payload := rr.ref + " " + rr.obj + "\n";
    FieldsChecked(rr.ref, rr.obj);
    TypeAndPayload(rr.ref, rr.obj);
    CutFirst(TypeRefRecord, payload, '\n');
  }

  lemma TypeAndPayload(ref: bytes, obj: bytes)
    ensures TypeRefRecord + "\n" + ref + " " + obj + "\n" == TypeRefRecord + ['\n'] + (ref + " " + obj + "\n")
  {
  }

  lemma StatementAccepted(raw: bytes)
    requires Grammar(raw) && Cut(raw, '\n').value.0 == TypeRefRecord
    ensures ParseEntry(raw).Ok?
  {
    var payload := Cut(raw, '\n').value.1;
    CutParts(raw, '\n');
    var ref: bytes, obj: bytes :| CleanRef(ref) && ValidFields(ref, obj) && payload == ref + " " + obj + "\n";
    FieldsChecked(ref, obj);
    assert raw == TypeRefRecord + "\n" + ref + " " + obj + "\n";
    assert NewRefRecord(ref, obj) == Ok(Entry(raw, TypeRefRecord));
    NewRecordDecodes(ref, obj);
  }

  /**
    The parser accepts exactly the entries of the grammar, and keeps the bytes of
    each, also of one whose type is not known; the type is the first line.
   */
  lemma AcceptsGrammar(raw: bytes)
    ensures ParseEntry(raw).Ok? <==> Grammar(raw)
    ensures ParseEntry(raw).Ok? ==> ParseEntry(raw).value == Entry(raw, Cut(raw, '\n').value.0)
  {
    LinesOfGrammar(raw);
    if ParseEntry(raw).Ok? {
      if ParseEntry(raw).value.kind == TypeRefRecord { AcceptedStates(raw); }
    }
    if Grammar(raw) && Cut(raw, '\n').value.0 == TypeRefRecord { StatementAccepted(raw); }
  }

  // ---------- The documented grammar ----------

  /** No line starts with a blank. */
  ghost predicate NoLeadingBlank(raw: bytes) {
    forall i :: 0 <= i < |raw| && IsBlank(raw[i]) ==> i > 0 && raw[i - 1] != '\n'
  }

  /** Fields are one space apart. */
  ghost predicate SingleSpaced(raw: bytes) {
    forall i :: 0 <= i < |raw| - 1 && raw[i] == ' ' ==> raw[i + 1] != ' '
  }

  /** The canonical encoding as it is documented, rule by rule. */
  ghost predicate Documented(raw: bytes) {
    && 0 < |raw| <= MaxEntrySize && raw[|raw| - 1] == '\n'
    && '\r' !in raw
    && NoLeadingBlank(raw)
    && (forall i :: 0 <= i < |raw| && IsBlank(raw[i]) ==> i + 1 < |raw| && raw[i + 1] != '\n')
    && SingleSpaced(raw)
    && Cut(raw, '\n').Some?
    && var (kind, payload) := Cut(raw, '\n').value;
       && kind != [] && ' ' !in kind && '\t' !in kind
       && (kind == TypeRefRecord ==> Statement(payload))
  }

  /** The end of each line in the text, and in the text with its last newline. */
  lemma CleanToTheEnd(raw: bytes)
    requires raw != [] && raw[|raw| - 1] == '\n'
    ensures CleanLines(raw[..|raw| - 1]) <==>
              && '\r' !in raw
              && forall i :: 0 <= i < |raw| && IsBlank(raw[i]) ==> i + 1 < |raw| && raw[i + 1] != '\n'
  {
    var text := raw[..|raw| - 1];
    assert raw == text + ['\n'];
    assert forall i :: 0 <= i < |text| ==> text[i] == raw[i];
  }

  /** What `ParseEntry` accepts beyond the documented grammar: two of its rules are not checked. */
  lemma DocumentedIffChecked(raw: bytes)
    ensures Documented(raw) <==> ParseEntry(raw).Ok? && NoLeadingBlank(raw) && SingleSpaced(raw)
  {
    AcceptsGrammar(raw);
    if raw != [] && raw[|raw| - 1] == '\n' { CleanToTheEnd(raw); }
  }

  /** For ref-records it does not matter: a statement meets those rules by itself. */
  lemma StatementSpacing(ref: bytes, obj: bytes)
    requires CleanRef(ref) && ValidFields(ref, obj)
    ensures var raw := TypeRefRecord + "\n" + ref + " " + obj + "\n";
            NoLeadingBlank(raw) && SingleSpaced(raw)
  {
    var raw, n := TypeRefRecord + "\n" + ref + " " + obj + "\n", |TypeRefRecord|;
    HexIsClean(obj);
    assert |ref| > 0 && ref[0] == 'r';
    assert forall i :: 0 <= i < n ==> raw[i] == TypeRefRecord[i];
    assert raw[n] == '\n';
    assert forall i :: 0 <= i < |ref| ==> raw[n + 1 + i] == ref[i];
    assert raw[n + 1 + |ref|] == ' ';
    assert forall i :: 0 <= i < |obj| ==> raw[n + 2 + |ref| + i] == obj[i];
    assert raw[|raw| - 1] == '\n';
  }

  /**
    An accepted ref-record always meets the documented grammar; an accepted entry
    of another type does exactly if no line of it starts with a blank and its
    fields are one space apart.
   */
  lemma DocumentedExactly(raw: bytes)
    requires ParseEntry(raw).Ok?
    ensures Documented(raw) <==>
              ParseEntry(raw).value.kind == TypeRefRecord || (NoLeadingBlank(raw) && SingleSpaced(raw))
  {
    DocumentedIffChecked(raw);
    if ParseEntry(raw).value.kind == TypeRefRecord {
      ParsedIsCanonical(raw);
      var rr := AsRefRecord(ParseEntry(raw).value).value;
      FieldsChecked(rr.ref, rr.obj);
      StatementSpacing(rr.ref, rr.obj);
    }
  }

  /** An entry of two lines, of a type that is not known. */
  lemma UnknownTypeAccepted(kind: bytes, line: bytes)
    requires kind != [] && kind != TypeRefRecord && ' ' !in kind && '\t' !in kind && '\n' !in kind
    requires '\n' !in line && LineError(kind).None? && LineError(line).None?
    requires |kind| + |line| + 2 <= MaxEntrySize
    ensures ParseEntry(kind + "\n" + line + "\n") == Ok(Entry(kind + "\n" + line + "\n", kind))
  {
    var raw := kind + "\n" + line + "\n";
    assert raw[..|raw| - 1] == kind + ['\n'] + line;
    SplitFirst(kind, line, '\n');
    SplitSingle(line, '\n');
    assert [kind] + [line] == [kind, line];
    TwoLines(kind, line);
  }

  /** An entry of an unknown type that is accepted, and that the documentation rejects. */
  lemma LeadingBlankAccepted()
    ensures ParseEntry("x/v1\n y\n").Ok? && !Documented("x/v1\n y\n")
  {
    var kind: bytes, line: bytes := "x/v1", " y";
    assert kind[0] != TypeRefRecord[0];
    UnknownTypeAccepted(kind, line);
    var raw: bytes := "x/v1\n y\n";
    assert kind + "\n" + line + "\n" == raw;
    assert IsBlank(raw[5]) && raw[4] == '\n';
  }

  /** A revision that git resolves, accepted by `NewRefRecord` and rejected by `ParseEntry`. */
  lemma SpaceInRef()
    ensures var ref: bytes, obj: bytes := "refs/heads/main@{1 day ago}", seq(40, _ => '0');
            NewRefRecord(ref, obj).Ok? && ParseEntry(NewRefRecord(ref, obj).value.raw).Err?
  {
    var ref: bytes, obj: bytes := "refs/heads/main@{1 day ago}", seq(40, _ => '0');
    assert ref[18] == ' ';
    assert "refs/heads/" <= ref;
    NewThenParse(ref, obj);
  }
}
