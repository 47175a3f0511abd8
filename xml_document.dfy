/**
 * The text the XML readers hand out for a document, defined once over its
 * whole event sequence: body text and one space per closing tag inside the
 * body, up to the end of the document, an error or (for the current reader)
 * an empty body text.
 */
module XmlDocument {
  import opened Utf8
  import opened XmlEvents
  import opened CharBuffer

  /** The two XML readers: `readers::xml_reader` (current) and `entities::xml_reader` (legacy). */
  datatype Flavour = Current | Legacy

  const SPACE: byte := 0x20

  /** `k` spaces. */
  function Spaces(k: nat): (s: string)
    ensures |s| == k && forall i :: 0 <= i < k ==> s[i] == ' '
  {
    if k == 0 then "" else Spaces(k - 1) + " "
  }

  function Remaining(events: seq<Event>, pos: nat): nat
  {
    if pos < |events| then |events| - pos else 0
  }

  /** Whether closing the element `name` adds a space inside the body. */
  predicate SpacedEnd(name: seq<byte>, flavour: Flavour)
  {
    name != BODY && (flavour == Legacy || name != TITLE)
  }

  /**
   * The text handed out from event `pos` on, with `body` the count of open
   * `<body>` elements and `pending` the spaces owed to closing tags since the
   * last text, and how the reading ends. A body text of one space is
   * skipped; an empty one ends the reading for the current reader and is
   * skipped by the legacy one; the owed spaces come out before the next
   * text or at the end of the document, and are lost on an error or an
   * empty text.
   */
  function Document(events: seq<Event>, pos: nat, body: int, pending: nat, flavour: Flavour): (r: (string, Ending))
    decreases Remaining(events, pos)
  {
    match EventAt(events, pos)
    case Error(m) => ("", Failed(m))
    case Eof => (Spaces(pending), Finished)
    case Start(name) => Document(events, pos + 1, if name == BODY then body + 1 else body, pending, flavour)
    case End(name) =>
      if name == BODY then Document(events, pos + 1, body - 1, pending, flavour)
      else Document(events, pos + 1, body, if body > 0 && SpacedEnd(name, flavour) then pending + 1 else pending, flavour)
    case Text(bytes) =>
      if body <= 0 then Document(events, pos + 1, body, pending, flavour)
      else if bytes == [] && flavour == Current then ("", Stopped)
      else if bytes == [] || bytes == [SPACE] then Document(events, pos + 1, body, pending, flavour)
      else
        var rest := Document(events, pos + 1, body, 0, flavour);
        (Spaces(pending) + ByteChars(bytes) + rest.0, rest.1)
    case Other => Document(events, pos + 1, body, pending, flavour)
  }

  /** Outside any body, and with no body opened later, a document gives no text. */
  lemma {:induction false} NoBodyNoText(events: seq<Event>, pos: nat, body: int, flavour: Flavour)
    requires body <= 0
    requires forall k :: pos <= k < |events| ==> events[k] != Start(BODY)
    ensures Document(events, pos, body, 0, flavour).0 == ""
    decreases Remaining(events, pos)
  {
    match EventAt(events, pos)
    case Error(_) =>
    case Eof =>
    case Start(name) => NoBodyNoText(events, pos + 1, body, flavour);
    case End(name) => NoBodyNoText(events, pos + 1, if name == BODY then body - 1 else body, flavour);
    case Text(_) => NoBodyNoText(events, pos + 1, body, flavour);
    case Other => NoBodyNoText(events, pos + 1, body, flavour);
  }
}
