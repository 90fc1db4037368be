/** Operations on byte strings, after Go's `strings` package. */
module Text {
  import opened Wrappers
  import opened Hashing

  /** `strings.Split` with a one-byte separator. */
  function Split(s: bytes, sep: byte): (parts: seq<bytes>)
    ensures |parts| > 0
  {
    if s == [] then [[]] else Push(s[0], Split(s[1..], sep), sep)
  }

  /** The parts of a text with one more byte in front. */
  function Push(c: byte, parts: seq<bytes>, sep: byte): (r: seq<bytes>)
    requires |parts| > 0
    ensures |r| > 0
  {
    if c == sep then [[]] + parts else [[c] + parts[0]] + parts[1..]
  }

  /** `strings.Join` with a one-byte separator. */
  function Join(parts: seq<bytes>, sep: byte): bytes
    requires |parts| > 0
  {
    if |parts| == 1 then parts[0] else parts[0] + [sep] + Join(parts[1..], sep)
  }

  /** `strings.Cut` with a one-byte separator: the text before and after its first occurrence. */
  function Cut(s: bytes, sep: byte): Option<(bytes, bytes)> {
    if s == [] then None
    else if s[0] == sep then Some(([], s[1..]))
    else match Cut(s[1..], sep)
      case None => None
      case Some((before, after)) => Some(([s[0]] + before, after))
  }

  /** `strings.HasPrefix` */
  predicate HasPrefix(s: bytes, prefix: bytes) {
    prefix <= s
  }

  lemma {:induction false} JoinSplit(s: bytes, sep: byte)
    ensures Join(Split(s, sep), sep) == s
  {
    if s != [] {
      JoinSplit(s[1..], sep);
      var rest := Split(s[1..], sep);
      if s[0] != sep && |rest| > 1 { assert Split(s, sep)[1..] == rest[1..]; }
    }
  }

  /** A separator ends one part and starts another. */
  lemma {:induction false} SplitConcat(a: bytes, b: bytes, sep: byte)
    ensures Split(a + [sep] + b, sep) == Split(a, sep) + Split(b, sep)
  {
    if a == [] {
      assert [sep] + b == [] + [sep] + b;
      assert ([sep] + b)[1..] == b;
    } else {
      var t := a[1..] + [sep] + b;
      SplitConcat(a[1..], b, sep);
      PushConcat(a[0], Split(a[1..], sep), Split(b, sep), sep);
      assert a + [sep] + b == [a[0]] + t;
      assert ([a[0]] + t)[1..] == t;
    }
  }

  /** Text without the separator is the first part. */
  lemma SplitFirst(a: bytes, b: bytes, sep: byte)
    requires sep !in a
    ensures Split(a + [sep] + b, sep) == [a] + Split(b, sep)
  {
    SplitConcat(a, b, sep);
    SplitSingle(a, sep);
  }

  lemma PushConcat(c: byte, x: seq<bytes>, y: seq<bytes>, sep: byte)
    requires |x| > 0
    ensures Push(c, x + y, sep) == Push(c, x, sep) + y
  {
  }

  /** One part means no separator. */
  lemma {:induction false} SplitSingle(s: bytes, sep: byte)
    ensures |Split(s, sep)| == 1 <==> sep !in s
    ensures sep !in s ==> Split(s, sep) == [s]
  {
    if s != [] {
      SplitSingle(s[1..], sep);
      assert [s[0]] + s[1..] == s;
    }
  }

  /** A cut text, put together again; the first half is free of the separator. */
  lemma {:induction false} CutParts(s: bytes, sep: byte)
    ensures Cut(s, sep).None? <==> sep !in s
    ensures Cut(s, sep).Some? ==>
              var (before, after) := Cut(s, sep).value;
              s == before + [sep] + after && sep !in before
  {
    if s != [] && s[0] != sep { CutParts(s[1..], sep); }
  }

  lemma {:induction false} CutFirst(before: bytes, after: bytes, sep: byte)
    requires sep !in before
    ensures Cut(before + [sep] + after, sep) == Some((before, after))
  {
    var s := before + [sep] + after;
    if before != [] {
      CutFirst(before[1..], after, sep);
      assert s[1..] == before[1..] + [sep] + after;
      assert [before[0]] + before[1..] == before;
    } else {
      assert s[1..] == after;
    }
  }

  /** The first part of a text is what is before the first separator, with one added at the end. */
  lemma {:induction false} FirstPart(s: bytes, sep: byte)
    ensures Cut(s + [sep], sep).Some? && Cut(s + [sep], sep).value.0 == Split(s, sep)[0]
  {
    if s != [] {
      FirstPart(s[1..], sep);
      assert (s + [sep])[1..] == s[1..] + [sep];
    }
  }
}
