/**
 * The XML documents the readers and generators consume, as the sequence of
 * events quick_xml's `read_event_into` returns for them. Tag names and text
 * are raw bytes; entities are not unescaped.
 */
module XmlEvents {
  import opened Utf8

  datatype Event =
    | Start(name: seq<byte>)
    | End(name: seq<byte>)
    | Text(content: seq<byte>)
    | Eof
    | Error(message: string)
    | Other  // comments, declarations, processing instructions, ...

  /** The event at `pos`; reading past the last event gives `Eof` again. */
  function EventAt(events: seq<Event>, pos: nat): Event
  {
    if pos < |events| then events[pos] else Eof
  }

  /** `b"body"`. */
  const BODY: seq<byte> := [0x62, 0x6F, 0x64, 0x79]

  /** `b"title"`. */
  const TITLE: seq<byte> := [0x74, 0x69, 0x74, 0x6C, 0x65]

  /** `char::from(u8)`: every byte becomes the char with that code point (U+0000 to U+00FF). */
  function ByteChar(b: byte): (c: char)
    ensures c as int == b as int
  {
    (b as int) as char
  }

  function ByteChars(bytes: seq<byte>): (s: string)
    ensures |s| == |bytes|
    ensures forall k :: 0 <= k < |bytes| ==> s[k] == ByteChar(bytes[k])
  {
    if bytes == [] then [] else [ByteChar(bytes[0])] + ByteChars(bytes[1..])
  }

  /** How a generator over the events ends: it returns `Ok(())`, or it panics on a parser error. */
  datatype Completion = Completed | Panicked

  /**
   * The text of the document's body: the bytes of the text events met while
   * more `<body>` elements are open than closed, as chars, up to the first
   * `Eof` or error.
   */
  function BodyText(depth: int, events: seq<Event>): string
    decreases |events|
  {
    if events == [] then []
    else match events[0]
      case Eof => []
      case Error(_) => []
      case Start(name) => BodyText(if name == BODY then depth + 1 else depth, events[1..])
      case End(name) => BodyText(if name == BODY then depth - 1 else depth, events[1..])
      case Text(bytes) => (if depth > 0 then ByteChars(bytes) else []) + BodyText(depth, events[1..])
      case Other => BodyText(depth, events[1..])
  }

  /** Whether an error event comes before the first `Eof`. */
  predicate FailsBeforeEof(events: seq<Event>)
    decreases |events|
  {
    events != [] && !events[0].Eof? && (events[0].Error? || FailsBeforeEof(events[1..]))
  }

}
