/**
 * `SimpleMetadataReader`: wraps a reader and attaches fixed metadata to it,
 * which is what the readers above expect from the source they wrap.
 */
module SimpleMetadata {
  import opened Wrappers
  import opened Json
  import opened Utf8

  const META_KEY := "simple"
  const META_KEY_DEFAULT := "default_key"

  /** The wrapped reader, an in-memory byte slice (`impl Read for &[u8]`): the bytes not read yet. */
  datatype SliceReader = SliceReader(remaining: seq<byte>)

  /** `<&[u8] as Read>::read` into a buffer of `len` bytes: the first bytes left, as many as fit. */
  function SliceRead(r: SliceReader, len: nat): (res: (SliceReader, seq<byte>))
    ensures |res.1| == if len <= |r.remaining| then len else |r.remaining|
    ensures res.1 + res.0.remaining == r.remaining
  {
    var n := if len <= |r.remaining| then len else |r.remaining|;
    (SliceReader(r.remaining[n..]), r.remaining[..n])
  }

  datatype SimpleMetadataReader = SimpleMetadataReader(reader: SliceReader, metadata: Json)

  /** `new`: the metadata normalised, `null` when absent, wrapped under `"default_key"` when not an object. */
  function New(reader: SliceReader, metadata: Option<Json>): (r: SimpleMetadataReader)
    ensures r.reader == reader
    ensures metadata.None? || metadata.value.Null? ==> r.metadata == Null
    ensures metadata.Some? && metadata.value.Obj? ==> r.metadata == metadata.value
    ensures metadata.Some? && !metadata.value.Null? && !metadata.value.Obj? ==>
              r.metadata == Obj(map[META_KEY_DEFAULT := metadata.value])
  {
    SimpleMetadataReader(reader, NormalizeInitial(metadata, META_KEY_DEFAULT))
  }

  /** `get_current_metadata`: the metadata under `"simple"`. */
  function CurrentMetadata(r: SimpleMetadataReader): (m: Json)
    ensures m.Obj? && m.fields.Keys == {META_KEY} && m.fields[META_KEY] == r.metadata
  {
    Singleton(META_KEY, r.metadata)
  }

  /** `read`: forwarded to the wrapped reader; the metadata stays as it was. */
  function Read(r: SimpleMetadataReader, len: nat): (res: (SimpleMetadataReader, seq<byte>))
    ensures res.0.metadata == r.metadata && CurrentMetadata(res.0) == CurrentMetadata(r)
    ensures (res.0.reader, res.1) == SliceRead(r.reader, len)
  {
    var (inner, bytes) := SliceRead(r.reader, len);
    (r.(reader := inner), bytes)
  }

  /** Reads with buffers of sizes `lens`, one after the other: the bytes handed out and the reader left. */
  function ReadAll(r: SimpleMetadataReader, lens: seq<nat>): (res: (SimpleMetadataReader, seq<byte>))
    decreases |lens|
  {
    if lens == [] then (r, [])
    else
      var (next, bytes) := Read(r, lens[0]);
      var (last, more) := ReadAll(next, lens[1..]);
      (last, bytes + more)
  }

  /**
   * Whatever the buffer sizes, the reads hand out the wrapped bytes in
   * order, nothing lost or repeated, and the metadata never changes.
   */
  lemma {:induction false} ReadAllInOrder(r: SimpleMetadataReader, lens: seq<nat>)
    decreases |lens|
    ensures ReadAll(r, lens).1 + ReadAll(r, lens).0.reader.remaining == r.reader.remaining
    ensures ReadAll(r, lens).0.metadata == r.metadata
  {
    if lens != [] {
      var (next, bytes) := Read(r, lens[0]);
      ReadAllInOrder(next, lens[1..]);
      var (last, more) := ReadAll(next, lens[1..]);
      assert bytes + more + last.reader.remaining == bytes + (more + last.reader.remaining);
    }
  }
}
