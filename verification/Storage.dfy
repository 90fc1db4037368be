/**
  internal/gitlog/gitlog.go, storage: entries are kept in bundles of up to 256,
  each entry with its length in front, under paths that name the bundle's index
  and, for a bundle that is not full, its width.
 */
module Storage {
  import opened Wrappers
  import opened Hashing
  import opened Entries

  const EntriesPerBundle := 256

  /** `tile/entries/<index>`, with `.p/<partial>` behind it unless `partial` is 0. */
  datatype Path = Path(index: nat, partial: nat)

  /** The bundles of a log commit's tree. */
  type Tree = map<Path, bytes>

  datatype StorageError =
    | DuplicateIndex | MissingBundle | MissingObject | DanglingBytes | TruncatedEntry
    | BadEntry(error: EntryError)

  // ---------- Bundle framing ----------

  /** A length as two bytes, most significant first. */
  function Uint16(n: nat): bytes
    requires n <= MaxEntrySize
  {
    [(n / 256) as char, (n % 256) as char]
  }

  function ReadUint16(high: byte, low: byte): nat {
    high as int * 256 + low as int
  }

  predicate FitsBundle(raws: seq<bytes>) {
    forall i :: 0 <= i < |raws| ==> |raws[i]| <= MaxEntrySize
  }

  /** The bundle encoding: each entry behind its length. */
  function Encode(raws: seq<bytes>): bytes
    requires FitsBundle(raws)
  {
    if raws == [] then [] else Uint16(|raws[0]|) + raws[0] + Encode(raws[1..])
  }

  /** The bundle decoding. */
  function Decode(data: bytes): Result<seq<bytes>, StorageError>
    decreases |data|
  {
    if |data| == 0 then Ok([])
    else if |data| < 2 then Err(DanglingBytes)
    else
      var end := 2 + ReadUint16(data[0], data[1]);
      if end > |data| then Err(TruncatedEntry)
      else
        var rest :- Decode(data[end..]);
        Ok([data[2..end]] + rest)
  }

  /** Decoding undoes encoding. */
  lemma {:induction false} DecodeEncode(raws: seq<bytes>)
    requires FitsBundle(raws)
    ensures Decode(Encode(raws)) == Ok(raws)
  {
    if raws != [] {
      var data, n := Encode(raws), |raws[0]|;
      DecodeEncode(raws[1..]);
      assert ReadUint16(data[0], data[1]) == n;
      assert data[2..2 + n] == raws[0];
      assert data[2 + n..] == Encode(raws[1..]);
      assert [raws[0]] + raws[1..] == raws;
    }
  }

  /** The data is the encoding of these byte strings. */
  ghost predicate Frames(data: bytes, raws: seq<bytes>) {
    FitsBundle(raws) && Encode(raws) == data
  }

  lemma FramesCons(high: byte, low: byte, first: bytes, data: bytes, rest: seq<bytes>)
    requires |first| == ReadUint16(high, low) && Frames(data, rest)
    ensures Frames([high, low] + first + data, [first] + rest)
  {
    assert ([first] + rest)[1..] == rest;
    assert |first| / 256 == high as int && |first| % 256 == low as int;
  }

  /** Encoding undoes decoding: the framing is injective both ways. */
  lemma {:induction false} EncodeDecode(data: bytes)
    requires Decode(data).Ok?
    ensures Frames(data, Decode(data).value)
    decreases |data|
  {
    if |data| > 0 {
      var end := 2 + ReadUint16(data[0], data[1]);
      var first, more := data[2..end], data[end..];
      EncodeDecode(more);
      FramesCons(data[0], data[1], first, more, Decode(more).value);
      FrameParts(data, end);
    }
  }

  lemma FrameParts(data: bytes, end: nat)
    requires 2 <= end <= |data|
    ensures data == [data[0], data[1]] + data[2..end] + data[end..]
  {
  }

  /** The stored bytes of entries. */
  function Raws(entries: seq<Entry>): (raws: seq<bytes>)
    ensures |raws| == |entries|
    ensures forall i :: 0 <= i < |raws| ==> raws[i] == entries[i].raw
  {
    if entries == [] then [] else [entries[0].raw] + Raws(entries[1..])
  }

  /** Entries that a bundle can hold. */
  predicate Storable(entries: seq<Entry>) {
    forall i :: 0 <= i < |entries| ==> |entries[i].raw| <= MaxEntrySize
  }

  /** The content of a bundle. */
  function BundleOf(entries: seq<Entry>): bytes
    requires Storable(entries)
  {
    Encode(Raws(entries))
  }

  /** The first `i` entries are encoded. */
  ghost predicate Encoded(entries: seq<Entry>, i: nat, buf: bytes) {
    i <= |entries| && Storable(entries[..i]) && buf == BundleOf(entries[..i])
  }

  lemma EncodedNext(entries: seq<Entry>, i: nat, buf: bytes)
    requires Encoded(entries, i, buf) && i < |entries| && |entries[i].raw| <= MaxEntrySize
    ensures Encoded(entries, i + 1, buf + Uint16(|entries[i].raw|) + entries[i].raw)
  {
    var done, raw := entries[..i], entries[i].raw;
    assert entries[..i + 1] == done + [entries[i]];
    assert Raws(done + [entries[i]]) == Raws(done) + [raw];
    EncodeSnoc(Raws(done), raw);
  }

  /** Encodes entries into one bundle. */
  method MarshalBundle(entries: seq<Entry>) returns (r: Result<bytes, StorageError>)
    ensures r.Ok? <==> Storable(entries)
    ensures r.Ok? ==> r.value == BundleOf(entries)
    ensures r.Err? ==> r.error == BadEntry(TooLarge)
  {
    var buf: bytes := [];
    for i := 0 to |entries|
      invariant Encoded(entries, i, buf)
    {
      var raw := entries[i].raw;
      if |raw| > MaxEntrySize {
        return Err(BadEntry(TooLarge));
      }
      EncodedNext(entries, i, buf);
      buf := buf + Uint16(|raw|) + raw;
    }
    assert entries[..|entries|] == entries;
    return Ok(buf);
  }

  lemma EncodeCons(first: bytes, rest: seq<bytes>)
    requires |first| <= MaxEntrySize && FitsBundle(rest)
    ensures FitsBundle([first] + rest)
    ensures Encode([first] + rest) == Uint16(|first|) + first + Encode(rest)
  {
    assert ([first] + rest)[1..] == rest;
  }

  lemma {:induction false} EncodeSnoc(raws: seq<bytes>, raw: bytes)
    requires FitsBundle(raws) && |raw| <= MaxEntrySize
    ensures FitsBundle(raws + [raw])
    ensures Encode(raws + [raw]) == Encode(raws) + Uint16(|raw|) + raw
  {
    if raws == [] {
      EncodeCons(raw, []);
      assert [raw] + [] == [] + [raw];
    } else {
      EncodeSnoc(raws[1..], raw);
      EncodeSnocStep(raws[0], raws[1..], raw);
      assert raws == [raws[0]] + raws[1..];
    }
  }

  lemma EncodeSnocStep(first: bytes, rest: seq<bytes>, raw: bytes)
    requires |first| <= MaxEntrySize && |raw| <= MaxEntrySize && FitsBundle(rest) && FitsBundle(rest + [raw])
    requires Encode(rest + [raw]) == Encode(rest) + Uint16(|raw|) + raw
    ensures FitsBundle([first] + rest) && FitsBundle([first] + rest + [raw])
    ensures Encode([first] + rest + [raw]) == Encode([first] + rest) + Uint16(|raw|) + raw
  {
    EncodeCons(first, rest);
    EncodeCons(first, rest + [raw]);
    assert [first] + rest + [raw] == [first] + (rest + [raw]);
    Regroup(Uint16(|first|) + first, Encode(rest), Uint16(|raw|), raw);
  }

  lemma Regroup(a: bytes, b: bytes, c: bytes, d: bytes)
    ensures a + (b + c + d) == a + b + c + d
  {
  }

  // ---------- Trees ----------

  /** The width of the next bundle of `n` entries. */
  function Width(n: nat): nat {
    if n < EntriesPerBundle then n else EntriesPerBundle
  }

  /** The path of a bundle: only one that is not full carries its width. */
  function PathFor(index: nat, width: nat): Path {
    Path(index, if width < EntriesPerBundle then width else 0)
  }

  /** The bundles of a list of entries, from the given index on. */
  function TreeFrom(entries: seq<Entry>, index: nat): (tree: Tree)
    requires Storable(entries)
    ensures forall p :: p in tree ==> p.index >= index
    decreases |entries|
  {
    if entries == [] then map[]
    else
      var w := Width(|entries|);
      TreeFrom(entries[w..], index + 1)[PathFor(index, w) := BundleOf(entries[..w])]
  }

  /** The tree a log is saved as. */
  function TreeOf(entries: seq<Entry>): Tree
    requires Storable(entries)
  {
    TreeFrom(entries, 0)
  }

  /** Where the bundle with the given index starts, or the end of the list. */
  function StartOf(entries: seq<Entry>, index: nat): (start: nat)
    ensures start <= |entries|
  {
    if 256 * index < |entries| then 256 * index else |entries|
  }

  /** The bundles before `index` are built, and those of the remaining entries are to follow. */
  ghost predicate Building(entries: seq<Entry>, index: nat, blobs: Tree) {
    var rest := entries[StartOf(entries, index)..];
    && (Storable(entries) <==> Storable(rest))
    && (forall p :: p in blobs ==> p.index < index)
    && (Storable(entries) ==> TreeOf(entries) == TreeFrom(rest, index) + blobs)
  }

  lemma BuildStarts(entries: seq<Entry>)
    ensures Building(entries, 0, map[])
  {
    assert entries[0..] == entries;
  }

  lemma BuildNext(entries: seq<Entry>, index: nat, start: nat, end: nat, partial: nat, blobs: Tree)
    requires Building(entries, index, blobs) && start == 256 * index < |entries|
    requires end == if start + EntriesPerBundle < |entries| then start + EntriesPerBundle else |entries|
    requires partial == if end - start < EntriesPerBundle then end - start else 0
    ensures var first := entries[start..end];
            && (!Storable(first) ==> !Storable(entries))
            && (Storable(first) ==>
                  Building(entries, index + 1, blobs[Path(start / EntriesPerBundle, partial) := BundleOf(first)]))
  {
    var first, rest := NextBundle(entries, start, end);
    PathOfBundle(index, start, |first|, partial);
    StorableParts(first, rest);
    if Storable(first + rest) { TreeFromStep(first, rest, index, blobs); }
  }

  lemma NextBundle(entries: seq<Entry>, start: nat, end: nat) returns (first: seq<Entry>, rest: seq<Entry>)
    requires start <= end <= |entries|
    ensures first == entries[start..end] && rest == entries[end..] && entries[start..] == first + rest
  {
    first, rest := entries[start..end], entries[end..];
  }

  lemma PathOfBundle(index: nat, start: nat, width: nat, partial: nat)
    requires start == 256 * index && width <= 256 && partial == if width < EntriesPerBundle then width else 0
    ensures PathFor(index, width) == Path(start / EntriesPerBundle, partial)
  {
  }

  lemma BuildEnds(entries: seq<Entry>, index: nat, blobs: Tree)
    requires Building(entries, index, blobs) && 256 * index >= |entries|
    ensures Storable(entries) && blobs == TreeOf(entries)
  {
    assert entries[|entries|..] == [];
  }

  /** Builds every bundle from the full list of entries. */
  method BuildTree(entries: seq<Entry>) returns (r: Result<Tree, StorageError>)
    ensures r.Ok? <==> Storable(entries)
    ensures r.Ok? ==> r.value == TreeOf(entries)
    ensures r.Err? ==> r.error == BadEntry(TooLarge)
  {
    var blobs: Tree := map[];
    var start := 0;
    ghost var index := 0;
    BuildStarts(entries);
    while start < |entries|
      invariant start == 256 * index
      invariant Building(entries, index, blobs)
      decreases |entries| - start
    {
      var end := if start + EntriesPerBundle < |entries| then start + EntriesPerBundle else |entries|;
      var content := MarshalBundle(entries[start..end]);
      var partial := if end - start < EntriesPerBundle then end - start else 0;
      BuildNext(entries, index, start, end, partial, blobs);
      if content.Err? {
        return Err(content.error);
      }
      blobs := blobs[Path(start / EntriesPerBundle, partial) := content.value];
      start := start + EntriesPerBundle;
      index := index + 1;
    }
    BuildEnds(entries, index, blobs);
    return Ok(blobs);
  }

  lemma StorableParts(a: seq<Entry>, b: seq<Entry>)
    ensures Storable(a + b) <==> Storable(a) && Storable(b)
  {
    if Storable(a + b) {
      assert forall i :: 0 <= i < |a| ==> a[i] == (a + b)[i];
      assert forall i :: 0 <= i < |b| ==> b[i] == (a + b)[|a| + i];
    }
  }

  /** The first bundle of a list joins the bundles before it. */
  lemma TreeFromStep(first: seq<Entry>, rest: seq<Entry>, index: nat, before: Tree)
    requires 0 < |first| == Width(|first| + |rest|) && Storable(first + rest)
    requires PathFor(index, |first|) !in before
    ensures Storable(first) && Storable(rest)
    ensures TreeFrom(first + rest, index) + before
         == TreeFrom(rest, index + 1) + before[PathFor(index, |first|) := BundleOf(first)]
  {
    StorableParts(first, rest);
    assert (first + rest)[..|first|] == first && (first + rest)[|first|..] == rest;
  }
}
