/**
 * `readers::xml_reader::XMLReader`: a byte reader over the body text of an
 * XML document, one text at a time, that records the document's title in
 * its metadata.
 */
module XmlReading {
  import opened Wrappers
  import opened Json
  import opened Utf8
  import opened CharBuffer
  import opened XmlEvents
  import opened XmlDocument

  const META_KEY := "xml"
  const META_KEY_TITLE := "title"
  const READ_ERROR_PREFIX := "Error while caching next XML content: "

  /** A title text as the metadata keeps it: its UTF-8 decoding, or `""` when it is not UTF-8. */
  function TitleText(bytes: seq<byte>): (t: string)
    ensures DecodeAll(bytes).Some? ==> EncodeAll(t) == bytes
    ensures DecodeAll(bytes).None? ==> t == ""
  {
    var d := DecodeAll(bytes);
    if d.Some? then
      EncodeAllDecodeAll(bytes);
      d.value
    else ""
  }

  /** The parser state kept between calls: the next event, the open `<body>` and `<title>` counts, the metadata. */
  datatype Scanner = Scanner(pos: nat, body: int, title: int, metadata: Json)

  datatype Scanned = Scanned(scanner: Scanner, chars: string, result: Result<nat, string>)

  /**
   * `go_next_content` from `s` with `chars` cached so far: the events are
   * read until the first body text, the end of the document, an error or
   * an empty body text.
   */
  function Scan(events: seq<Event>, s: Scanner, chars: string): (r: Scanned)
    ensures r.scanner.pos >= s.pos
    ensures r.result.Ok? ==> r.result.value == 0 || r.result.value == |r.chars|
    ensures s.metadata.Obj? ==> r.scanner.metadata.Obj? && r.scanner.metadata.fields.Keys >= s.metadata.fields.Keys
    decreases Remaining(events, s.pos)
  {
    var next := s.(pos := s.pos + 1);
    match EventAt(events, s.pos)
    case Error(m) => Scanned(next, chars, Err(m))
    case Eof => Scanned(s, chars, Ok(|chars|))
    case Start(name) =>
      if name == BODY then Scan(events, next.(body := s.body + 1), chars)
      else if name == TITLE then Scan(events, next.(title := s.title + 1), chars)
      else Scan(events, next, chars)
    case End(name) =>
      if name == BODY then Scan(events, next.(body := s.body - 1), chars)
      else if name == TITLE then Scan(events, next.(title := s.title - 1), chars)
      else Scan(events, next, if s.body > 0 then chars + " " else chars)
    case Text(bytes) =>
      if s.body > 0 then
        if bytes == [] then Scanned(next, chars, Ok(0))
        else if bytes == [SPACE] then Scan(events, next, chars)
        else Scanned(next, chars + ByteChars(bytes), Ok(|chars| + |bytes|))
      else if s.title > 0 then
        Scan(events, next.(metadata := Insert(s.metadata, META_KEY_TITLE, Str(TitleText(bytes)))), chars)
      else Scan(events, next, chars)
    case Other => Scan(events, next, chars)
  }

  /**
   * Each call hands out a piece of the document's text: an error or a
   * 0 ends it, otherwise the chars cached are the start of what is left.
   */
  ghost predicate ScanAgrees(events: seq<Event>, s: Scanner, p: nat)
  {
    var r := Scan(events, s, Spaces(p));
    var d := Document(events, s.pos, s.body, p, Current);
    var rest := Document(events, r.scanner.pos, r.scanner.body, 0, Current);
    && (r.result.Err? ==> d == ("", Failed(r.result.error)))
    && (r.result == Ok(0) ==> d.0 == "" && !d.1.Failed?)
    && (r.result.Ok? && r.result.value > 0 ==> d == (r.chars + rest.0, rest.1))
  }

  lemma {:induction false} ScanMatchesDocument(events: seq<Event>, s: Scanner, p: nat)
    ensures ScanAgrees(events, s, p)
    decreases Remaining(events, s.pos), 1
  {
    var next := s.(pos := s.pos + 1);
    match EventAt(events, s.pos)
    case Error(m) =>
    case Eof =>
      assert Document(events, s.pos, s.body, 0, Current) == ("", Finished);
      assert Spaces(p) + "" == Spaces(p);
    case Start(name) =>
      TagMatchesDocument(events, s, p);
    case End(name) =>
      TagMatchesDocument(events, s, p);
    case Text(bytes) =>
      if s.body > 0 {
        if bytes == [] {
        } else if bytes == [SPACE] {
          ScanMatchesDocument(events, next, p);
        } else {
        }
      } else if s.title > 0 {
        ScanMatchesDocument(events, next.(metadata := Insert(s.metadata, META_KEY_TITLE, Str(TitleText(bytes)))), p);
      } else {
        ScanMatchesDocument(events, next, p);
      }
    case Other =>
      ScanMatchesDocument(events, next, p);
  }

  /** `ScanMatchesDocument` at a start or end tag. */
  lemma {:induction false} TagMatchesDocument(events: seq<Event>, s: Scanner, p: nat)
    requires EventAt(events, s.pos).Start? || EventAt(events, s.pos).End?
    ensures ScanAgrees(events, s, p)
    decreases Remaining(events, s.pos), 0
  {
    var next := s.(pos := s.pos + 1);
    var name := EventAt(events, s.pos).name;
    if EventAt(events, s.pos).Start? {
      if name == BODY {
        ScanMatchesDocument(events, next.(body := s.body + 1), p);
      } else if name == TITLE {
        ScanMatchesDocument(events, next.(title := s.title + 1), p);
      } else {
        ScanMatchesDocument(events, next, p);
      }
    } else if name == BODY {
      ScanMatchesDocument(events, next.(body := s.body - 1), p);
    } else if name == TITLE {
      ScanMatchesDocument(events, next.(title := s.title - 1), p);
    } else if s.body > 0 {
      assert Spaces(p) + " " == Spaces(p + 1);
      ScanMatchesDocument(events, next, p + 1);
    } else {
      ScanMatchesDocument(events, next, p);
    }
  }

  class XmlReader {
    const events: seq<Event>
    var pos: nat
    var insideBody: int
    var insideTitle: int
    var metadata: Json
    var chars: string
    var index: nat
    /** The chars handed out so far. */
    ghost var read: string
    /** Whether a read has answered 0 or failed because the document's text ran out. */
    ghost var stopped: bool

    function State(): Scanner
      reads this
    {
      Scanner(pos, insideBody, insideTitle, metadata)
    }

    ghost predicate Valid()
      reads this
    {
      && index <= |chars|
      && (!stopped ==>
            && read + chars[index..] + Document(events, pos, insideBody, 0, Current).0
               == Document(events, 0, 0, 0, Current).0
            && Document(events, pos, insideBody, 0, Current).1 == Document(events, 0, 0, 0, Current).1)
    }

    /** `build_from_reader`: no metadata, nothing cached, outside any element. */
    constructor BuildFromReader(events: seq<Event>)
      ensures Valid() && this.events == events && !stopped && read == ""
      ensures State() == Scanner(0, 0, 0, Null) && chars == "" && index == 0
    {
      this.events := events;
      pos, insideBody, insideTitle := 0, 0, 0;
      metadata := Null;
      chars, index := "", 0;
      read, stopped := "", false;
    }

    /** `update_metadata`. */
    method UpdateMetadata(key: string, value: Json)
      modifies this
      ensures metadata == Insert(old(metadata), key, value)
      ensures pos == old(pos) && insideBody == old(insideBody) && insideTitle == old(insideTitle)
      ensures chars == old(chars) && index == old(index) && read == old(read) && stopped == old(stopped)
    {
      if metadata.Obj? {
        metadata := Obj(metadata.fields[key := value]);
      } else {
        metadata := Obj(map[key := value]);
      }
    }

    /** `go_next_content`: clears the cache, then reads events as `Scan` says. */
    method GoNextContent() returns (r: Result<nat, string>)
      modifies this
      ensures var s := Scan(events, old(State()), "");
              State() == s.scanner && chars == s.chars && index == 0 && r == s.result
      ensures read == old(read) && stopped == old(stopped)
    {
      chars := [];
      index := 0;
      while true
        invariant Scan(events, old(State()), "") == Scan(events, State(), chars)
        invariant index == 0 && read == old(read) && stopped == old(stopped)
        decreases Remaining(events, pos)
      {
        var e := EventAt(events, pos);
        ghost var before := State();
        if e.Error? {
          pos := pos + 1;
          return Err(e.message);
        } else if e.Eof? {
          break;
        }
        if e.Start? || e.End? {
          TagEvent(e);
          continue;
        }
        pos := pos + 1;
        if e.Text? {
          if insideBody > 0 {
            var next := ByteChars(e.content);
            if next == [] {
              return Ok(0);
            }
            if |next| == 1 && next[0] == ' ' {
              assert e.content == [SPACE];
              continue;
            }
            assert e.content != [SPACE];
            chars := chars + next;
            break;
          } else if insideTitle > 0 {
            UpdateMetadata(META_KEY_TITLE, Str(TitleText(e.content)));
          }
        }
      }
      return Ok(|chars|);
    }

    /** A start or end tag in `go_next_content`'s loop: the counts, and a space after a closed element in the body. */
    method TagEvent(e: Event)
      requires (e.Start? || e.End?) && e == EventAt(events, pos)
      modifies this`pos, this`insideBody, this`insideTitle, this`chars
      ensures Scan(events, old(State()), old(chars)) == Scan(events, State(), chars)
      ensures pos == old(pos) + 1
    {
      pos := pos + 1;
      if e.Start? {
        if e.name == BODY {
          insideBody := insideBody + 1;
        } else if e.name == TITLE {
          insideTitle := insideTitle + 1;
        }
      } else {
        if e.name == BODY {
          insideBody := insideBody - 1;
        } else if e.name == TITLE {
          insideTitle := insideTitle - 1;
        } else if insideBody > 0 {
          chars := chars + " ";
        }
      }
    }

    /**
     * `read`: when the cache is used up, caches the next content (an error
     * becomes `InvalidData`, a 0 is answered as is); then copies whole chars
     * into `buf`. Once a read answers 0 or fails that way, the chars handed
     * out are the document's whole text.
     */
    method Read(buf: array<byte>) returns (r: Result<nat, ReadError>)
      requires Valid()
      modifies this, buf
      ensures Valid()
      ensures |old(read)| <= |read| && read[..|old(read)|] == old(read)
      ensures r.Ok? ==> r.value <= buf.Length && buf[..r.value] == EncodeAll(read[|old(read)|..])
                        && buf[r.value..] == old(buf[r.value..])
      ensures old(index) < |old(chars)| ==> r.Ok? && State() == old(State()) && chars == old(chars)
      ensures old(index) >= |old(chars)| ==>
                var s := Scan(events, old(State()), "");
                && State() == s.scanner && chars == s.chars
                && (s.result.Err? ==> r == Err(InvalidData(READ_ERROR_PREFIX + s.result.error)))
                && (s.result == Ok(0) ==> r == Ok(0))
                && (s.result.Ok? && s.result.value > 0 ==> r.Ok?)
                && stopped == (old(stopped) || s.result.Err? || s.result == Ok(0))
      ensures old(index) < |old(chars)| ==> stopped == old(stopped)
      ensures !old(stopped) && stopped ==>
                && read == Document(events, 0, 0, 0, Current).0
                && (r.Err? <==> Document(events, 0, 0, 0, Current).1.Failed?)
      ensures buf.Length >= 4 && r == Ok(0) ==> stopped
    {
      if index >= |chars| {
        var count := CacheNext();
        if count.Err? {
          return Err(InvalidData(READ_ERROR_PREFIX + count.error));
        }
        if count.value == 0 {
          return Ok(0);
        }
      }
      var n := CopyOut(buf);
      return Ok(n);
    }

    /**
     * The first half of `read`: once the cache is used up, `go_next_content`;
     * the text runs out on an error or when it yields nothing.
     */
    method CacheNext() returns (r: Result<nat, string>)
      requires Valid() && index >= |chars|
      modifies this
      ensures Valid()
      ensures var s := Scan(events, old(State()), "");
              State() == s.scanner && chars == s.chars && index == 0 && r == s.result
      ensures read == old(read) && stopped == (old(stopped) || r.Err? || r == Ok(0))
      ensures !old(stopped) && stopped ==>
                && read == Document(events, 0, 0, 0, Current).0
                && (r.Err? <==> Document(events, 0, 0, 0, Current).1.Failed?)
    {
      ghost var before := State();
      ScanMatchesDocument(events, before, 0);
      r := GoNextContent();
      if r.Err? || r.value == 0 {
        stopped := true;
        return;
      }
      if !stopped {
        Continued(read, Document(events, before.pos, before.body, 0, Current).0, chars,
                  Document(events, pos, insideBody, 0, Current).0, Document(events, 0, 0, 0, Current).0);
      }
    }

    /** The second half of `read`: the fill loop, copying whole chars from the cache into `buf`. */
    method CopyOut(buf: array<byte>) returns (n: nat)
      requires Valid()
      modifies this`index, this`read, buf
      ensures Valid()
      ensures old(index) <= index <= |chars| && read == old(read) + chars[old(index)..index]
      ensures n <= buf.Length && buf[..n] == EncodeAll(chars[old(index)..index]) && buf[n..] == old(buf[n..])
      ensures buf.Length >= 4 && old(index) < |chars| ==> old(index) < index
    {
      var start := index;
      n, index := Fill(chars, index, buf);
      Consumed(read, chars, start, index, Document(events, pos, insideBody, 0, Current).0);
      read := read + chars[start..index];
      if buf.Length >= 4 && start < |chars| {
        FourBytesFitAnyChar(chars, start, index, n, buf.Length);
      }
    }

    /** `get_current_metadata`: the wrapped reader's metadata with this reader's under `"xml"`. */
    function CurrentMetadata(sourceMeta: Json): (r: Json)
      reads this
      ensures r.Obj? && META_KEY in r.fields && r.fields[META_KEY] == metadata
      ensures sourceMeta.Obj? ==> r.fields.Keys == sourceMeta.fields.Keys + {META_KEY}
                                  && forall k :: k in sourceMeta.fields && k != META_KEY ==> r.fields[k] == sourceMeta.fields[k]
      ensures !sourceMeta.Obj? ==> r.fields.Keys == {META_KEY}
    {
      Insert(sourceMeta, META_KEY, metadata)
    }
  }
}
